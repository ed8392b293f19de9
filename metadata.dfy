/**
 * Turning the repeatable `-H 'Key: Value'` flag values into the flat
 * key/value list that becomes the outgoing call metadata.
 */
module Metadata {
  import opened Wrappers
  import opened Text

  datatype Pair = Pair(key: string, value: string)

  /** What every emitted pair satisfies. */
  predicate WellFormedPair(p: Pair)
  {
    ':' !in p.key && Trimmed(p.key) && Trimmed(p.value)
  }

  /**
   * One header string: split at its first colon only, both halves trimmed;
   * a string with no colon yields nothing.
   */
  function ParseHeader(h: string): (r: Option<Pair>)
    ensures r.None? <==> ':' !in h
    ensures r.Some? ==> WellFormedPair(r.value)
  {
    var parts := SplitN2(h, ':');
    if |parts| < 2 then None
    else
      TrimSpaceExcludes(parts[0], ':');
      Some(Pair(TrimSpace(parts[0]), TrimSpace(parts[1])))
  }

  /**
   * The key is everything before the first colon; every later colon stays
   * in the value.
   */
  lemma ParseHeaderFirstColon(k: string, v: string)
    requires ':' !in k
    ensures ParseHeader(k + ":" + v) == Some(Pair(TrimSpace(k), TrimSpace(v)))
  {
    var h := k + ":" + v;
    var i := IndexOf(h, ':');
    assert h[|k|] == ':';
    assert forall j :: 0 <= j < |k| ==> h[j] != ':' by {
      forall j | 0 <= j < |k| ensures h[j] != ':' {
        assert h[j] == k[j];
      }
    }
    assert forall j :: 0 <= j < i ==> h[j] != ':' by {
      forall j | 0 <= j < i ensures h[j] != ':' {
        assert h[j] == h[..i][j];
      }
    }
    assert i == |k|;
    assert h[..i] == k;
    assert h[i + 1..] == v;
  }

  /**
   * A header written as key and value, each with white space around it and
   * a colon between: parsing gives back exactly the key and the value.
   */
  lemma ParseHeaderOfPadded(a: string, k: string, b: string, c: string, v: string, d: string)
    requires AllSpace(a) && AllSpace(b) && AllSpace(c) && AllSpace(d)
    requires Trimmed(k) && Trimmed(v) && ':' !in k
    requires ':' !in a && ':' !in b
    ensures ParseHeader(a + k + b + ":" + c + v + d) == Some(Pair(k, v))
  {
    assert a + k + b + ":" + c + v + d == (a + k + b) + ":" + (c + v + d);
    assert ':' !in a + k + b;
    ParseHeaderFirstColon(a + k + b, c + v + d);
    TrimSpaceOfPadded(a, k, b);
    TrimSpaceOfPadded(c, v, d);
  }

  /** The header of the command's usage example. */
  lemma ParseHeaderUsageExample(h: string)
    requires h == "UserAgent: grpcrand"
    ensures ParseHeader(h) == Some(Pair("UserAgent", "grpcrand"))
  {
    var e: string := [];
    assert h == e + "UserAgent" + e + ":" + " " + "grpcrand" + e;
    ParseHeaderOfPadded(e, "UserAgent", e, " ", "grpcrand", e);
  }

  /** White space around the key and the value is dropped. */
  lemma ParseHeaderPaddedExample(h: string)
    requires h == " K : V "
    ensures ParseHeader(h) == Some(Pair("K", "V"))
  {
    assert h == " " + "K" + " " + ":" + " " + "V" + " ";
    ParseHeaderOfPadded(" ", "K", " ", " ", "V", " ");
  }

  /** A second colon belongs to the value. */
  lemma ParseHeaderSecondColonExample(h: string)
    requires h == "a: b:c"
    ensures ParseHeader(h) == Some(Pair("a", "b:c"))
  {
    var e: string := [];
    assert h == e + "a" + e + ":" + " " + "b:c" + e;
    ParseHeaderOfPadded(e, "a", e, " ", "b:c", e);
  }

  /** A header string without a colon yields nothing. */
  lemma ParseHeaderMalformedExample(h: string)
    requires h == "bad-header"
    ensures ParseHeader(h) == None
  {
    assert forall k :: 0 <= k < |h| ==> h[k] != ':';
  }

  /**
   * Applies `f` to each element in order and keeps the results that are
   * present: the `continue` on a malformed element of a loop that appends.
   */
  function FilterMap<A, B>(f: A -> Option<B>, xs: seq<A>): (ys: seq<B>)
    ensures |ys| <= |xs|
  {
    if xs == [] then []
    else
      var rest := FilterMap(f, xs[1..]);
      match f(xs[0])
      case None => rest
      case Some(y) => [y] + rest
  }

  /** Order is kept: FilterMap distributes over concatenation. */
  lemma {:induction false} FilterMapAppend<A, B>(f: A -> Option<B>, xs: seq<A>, ys: seq<A>)
    ensures FilterMap(f, xs + ys) == FilterMap(f, xs) + FilterMap(f, ys)
  {
    if xs == [] {
      assert xs + ys == ys;
    } else {
      assert (xs + ys)[1..] == xs[1..] + ys;
      FilterMapAppend(f, xs[1..], ys);
    }
  }

  lemma FilterMapSingle<A, B>(f: A -> Option<B>, x: A)
    ensures FilterMap(f, [x]) == if f(x).Some? then [f(x).value] else []
  {
    assert [x][1..] == [];
  }

  /** Every result comes from some element. */
  lemma {:induction false} FilterMapOrigin<A, B>(f: A -> Option<B>, xs: seq<A>, y: B)
    requires y in FilterMap(f, xs)
    ensures exists x :: x in xs && f(x) == Some(y)
  {
    var rest := FilterMap(f, xs[1..]);
    if y in rest {
      FilterMapOrigin(f, xs[1..], y);
      var x :| x in xs[1..] && f(x) == Some(y);
      assert x in xs;
    } else {
      assert f(xs[0]) == Some(y);
    }
  }

  /**
   * The pairs of a list of header strings, in input order; malformed
   * strings are skipped.
   */
  function ParsedHeaders(headers: seq<string>): (ps: seq<Pair>)
    ensures |ps| <= |headers|
  {
    FilterMap(ParseHeader, headers)
  }

  /** Every emitted pair is well formed and comes from one of the header strings. */
  lemma ParsedHeadersOrigin(headers: seq<string>, p: Pair)
    requires p in ParsedHeaders(headers)
    ensures WellFormedPair(p)
    ensures exists h :: h in headers && ParseHeader(h) == Some(p)
  {
    FilterMapOrigin(ParseHeader, headers, p);
  }

  /** How many of the header strings contain a colon. */
  function CountWithColon(headers: seq<string>): (n: nat)
    ensures n <= |headers|
  {
    if headers == [] then 0
    else (if ':' in headers[0] then 1 else 0) + CountWithColon(headers[1..])
  }

  /** Exactly one pair per header string that contains a colon. */
  lemma {:induction false} ParsedHeadersCount(headers: seq<string>)
    ensures |ParsedHeaders(headers)| == CountWithColon(headers)
  {
    if headers != [] {
      ParsedHeadersCount(headers[1..]);
    }
  }

  /** Parsing keeps the input order: it distributes over concatenation. */
  lemma ParsedHeadersAppend(a: seq<string>, b: seq<string>)
    ensures ParsedHeaders(a + b) == ParsedHeaders(a) + ParsedHeaders(b)
  {
    FilterMapAppend(ParseHeader, a, b);
  }

  /** A header string without a colon contributes nothing, wherever it is. */
  lemma ParsedHeadersDropsMalformed(a: seq<string>, h: string, b: seq<string>)
    requires ':' !in h
    ensures ParsedHeaders(a + [h] + b) == ParsedHeaders(a + b)
  {
    FilterMapAppend(ParseHeader, a + [h], b);
    FilterMapAppend(ParseHeader, a, [h]);
    FilterMapAppend(ParseHeader, a, b);
    FilterMapSingle(ParseHeader, h);
  }

  /** The flat list handed to the metadata constructor: key, value, key, value, ... */
  function Flatten(ps: seq<Pair>): (flat: seq<string>)
    ensures |flat| == 2 * |ps|
  {
    if ps == [] then [] else [ps[0].key, ps[0].value] + Flatten(ps[1..])
  }

  /** Key `i` sits at index `2 * i` and its value right after it. */
  lemma {:induction false} FlattenAt(ps: seq<Pair>, i: nat)
    requires i < |ps|
    ensures Flatten(ps)[2 * i] == ps[i].key
    ensures Flatten(ps)[2 * i + 1] == ps[i].value
  {
    if i > 0 {
      FlattenAt(ps[1..], i - 1);
    }
  }

  lemma {:induction false} FlattenAppend(ps: seq<Pair>, qs: seq<Pair>)
    ensures Flatten(ps + qs) == Flatten(ps) + Flatten(qs)
  {
    if ps == [] {
      assert ps + qs == qs;
    } else {
      assert (ps + qs)[1..] == ps[1..] + qs;
      FlattenAppend(ps[1..], qs);
    }
  }

  /**
   * `buildOutgoingMetadata` up to the pair list: for each header string in
   * order, split at the first colon, skip it when there is none, and append
   * the trimmed key and value.
   */
  method BuildOutgoingMetadata(header: seq<string>) returns (pairs: seq<string>)
    ensures pairs == Flatten(ParsedHeaders(header))
    ensures |pairs| == 2 * CountWithColon(header)
    ensures forall i :: 0 <= i < |pairs| / 2 ==>
              ':' !in pairs[2 * i] && Trimmed(pairs[2 * i]) && Trimmed(pairs[2 * i + 1])
  {
    pairs := [];
    for i := 0 to |header|
      invariant pairs == Flatten(ParsedHeaders(header[..i]))
    {
      ghost var done := ParsedHeaders(header[..i]);
      assert header[..i + 1] == header[..i] + [header[i]];
      ParsedHeadersAppend(header[..i], [header[i]]);
      FilterMapSingle(ParseHeader, header[i]);
      var parts := SplitN2(header[i], ':');
      if |parts| < 2 {
        assert ParseHeader(header[i]) == None;
        assert ParsedHeaders(header[..i + 1]) == done;
        continue;
      }
      var k, v := TrimSpace(parts[0]), TrimSpace(parts[1]);
      assert ParseHeader(header[i]) == Some(Pair(k, v));
      assert ParsedHeaders(header[..i + 1]) == done + [Pair(k, v)];
      FlattenAppend(done, [Pair(k, v)]);
      assert Flatten([Pair(k, v)]) == [k, v];
      pairs := pairs + [k, v];
    }
    assert header[..|header|] == header;
    ParsedHeadersCount(header);
    ghost var ps := ParsedHeaders(header);
    forall i | 0 <= i < |pairs| / 2
      ensures ':' !in pairs[2 * i] && Trimmed(pairs[2 * i]) && Trimmed(pairs[2 * i + 1])
    {
      FlattenAt(ps, i);
      ParsedHeadersOrigin(header, ps[i]);
    }
  }
}
