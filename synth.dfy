/**
 * The request synthesizer: walks a message's fields and builds a tree of
 * generated values keyed by JSON name, recursing into nested messages.
 */
module Synth {
  import opened Wrappers
  import opened Schema

  /**
   * The source of generated values. Each field of a walk gets a generator
   * of its own, identified by a seed; a generator answers every scalar
   * request and picks an index among `n` enum values.
   */
  datatype Source = Source(
    double: nat -> bv64,
    float: nat -> bv32,
    u32: nat -> uint32,
    u64: nat -> uint64,
    i32: nat -> int32,
    i64: nat -> int64,
    boolean: nat -> bool,
    bytes: nat -> seq<uint8>,
    text: nat -> string,
    pickupEnum: (nat, nat) -> nat)

  /** The enum picker returns an index into the list it is given. */
  ghost predicate PicksInRange(src: Source)
  {
    forall seed: nat, n: nat :: 0 < n ==> src.pickupEnum(seed, n) < n
  }

  /**
   * `retriveFields`: one generator per field, a value of the field's kind
   * under its JSON name, a nested tree for a message field, the number of a
   * picked value for an enum field, and nothing for the other kinds. A later
   * field overwrites an earlier one of the same name. `next` is the seed of
   * the next generator.
   */
  method RetrieveFields(fields: seq<Field>, src: Source, seed: nat) returns (m: map<string, Value>, next: nat)
    requires WellFormed(MessageSchema(fields))
    requires PicksInRange(src)
    ensures Conforms(MessageSchema(fields), m)
    ensures seed + |fields| <= next
    decreases MessageSchema(fields)
  {
    m := map[];
    next := seed;
    for i := 0 to |fields|
      invariant Conforms(MessageSchema(fields[..i]), m)
      invariant seed + i <= next
    {
      var field := fields[i];
      var key := field.jsonName;
      var r := next;
      next := next + 1;
      assert fields[..i + 1] == fields[..i] + [field];
      var v: Value;
      match field.kind {
        case Double => v := DoubleValue(src.double(r));
        case Float => v := FloatValue(src.float(r));
        case Uint32 => v := Uint32Value(src.u32(r));
        case Uint64 => v := Uint64Value(src.u64(r));
        case Int32 | Fixed32 | Sfixed32 | Sint32 => v := Int32Value(src.i32(r));
        case Int64 | Fixed64 | Sfixed64 | Sint64 => v := Int64Value(src.i64(r));
        case Bool => v := BoolValue(src.boolean(r));
        case Bytes => v := BytesValue(src.bytes(r));
        case String => v := StringValue(src.text(r));
        case Message(msg) =>
          assert field in fields;
          assert MessageSchema(msg.fields) == msg;
          var sub;
          sub, next := RetrieveFields(msg.fields, src, next);
          v := Object(sub);
        case Enum(values) =>
          assert field in fields;
          var idx := src.pickupEnum(r, |values|);
          v := Int32Value(values[idx].number);
        case Group | Unrecognized(_) =>
          ConformsExtendUnhandled(fields[..i], field, m);
          continue;
      }
      ConformsExtendHandled(fields[..i], field, m, v);
      m := m[key := v];
    }
    assert fields[..|fields|] == fields;
  }

  /** The fields of the example request type below. */
  function ExampleFields(name: string, inner: string, id: string, legacy: string, color: string,
                         colors: seq<EnumValue>): (fs: seq<Field>)
    ensures |fs| == 4
  {
    [Field(name, String), Field(inner, Message(MessageSchema([Field(id, Int64)]))),
     Field(legacy, Group), Field(color, Enum(colors))]
  }

  lemma ExampleHandledNames(name: string, inner: string, id: string, legacy: string, color: string,
                            colors: seq<EnumValue>)
    ensures HandledNames(ExampleFields(name, inner, id, legacy, color, colors)) == {name, inner, color}
  {
    var fs := ExampleFields(name, inner, id, legacy, color, colors);
    assert fs[..3][..2][..1][..0] == [];
    assert HandledNames(fs[..3][..2][..1]) == {name};
    assert HandledNames(fs[..3][..2]) == {name, inner};
    assert HandledNames(fs[..3]) == {name, inner};
  }

  lemma ExampleLastHandled(name: string, inner: string, id: string, legacy: string, color: string,
                           colors: seq<EnumValue>, key: string)
    requires name != inner && name != color && inner != color
    ensures var fs := ExampleFields(name, inner, id, legacy, color, colors);
            LastHandled(fs, key) ==
              if key == name then Some(fs[0]) else if key == inner then Some(fs[1])
              else if key == color then Some(fs[3]) else None
  {
    var fs := ExampleFields(name, inner, id, legacy, color, colors);
    assert fs[..3][..2][..1][..0] == [];
    assert LastHandled(fs[..3][..2][..1], key) == if key == name then Some(fs[0]) else None;
    assert LastHandled(fs[..3][..2], key) == if key == inner then Some(fs[1]) else LastHandled(fs[..3][..2][..1], key);
    assert LastHandled(fs[..3], key) == LastHandled(fs[..3][..2], key);
  }

  /** The nested message of the example: one int64 field. */
  lemma SingleInt64Conforms(id: string, entries: map<string, Value>)
    requires Conforms(MessageSchema([Field(id, Int64)]), entries)
    ensures entries.Keys == {id}
    ensures entries[id].Int64Value?
  {
    var f := Field(id, Int64);
    assert [] + [f] == [f];
    HandledNamesSnoc([], f);
    LastHandledSnoc([], f, id);
  }

  /**
   * A request type with a string field, a nested message holding one int64
   * field, a skipped group field and an enum field, under distinct names:
   * the tree the synthesizer builds for it has exactly the three handled
   * names, a nested map with the one inner name under the message field,
   * and one of the declared numbers under the enum field.
   */
  lemma ConformsExample(tree: map<string, Value>, name: string, inner: string, id: string, legacy: string,
                        color: string, colors: seq<EnumValue>)
    requires name != inner && name != color && inner != color
    requires Conforms(MessageSchema(ExampleFields(name, inner, id, legacy, color, colors)), tree)
    ensures tree.Keys == {name, inner, color}
    ensures tree[name].StringValue?
    ensures tree[inner].Object? && tree[inner].entries.Keys == {id}
    ensures tree[inner].entries[id].Int64Value?
    ensures tree[color].Int32Value?
    ensures exists j :: 0 <= j < |colors| && colors[j].number == tree[color].i32
  {
    var fs := ExampleFields(name, inner, id, legacy, color, colors);
    ExampleHandledNames(name, inner, id, legacy, color, colors);
    ExampleLastHandled(name, inner, id, legacy, color, colors, name);
    ExampleLastHandled(name, inner, id, legacy, color, colors, inner);
    ExampleLastHandled(name, inner, id, legacy, color, colors, color);
    assert Fits(fs[0], tree[name]);
    assert Fits(fs[1], tree[inner]);
    assert Fits(fs[3], tree[color]);
    SingleInt64Conforms(id, tree[inner].entries);
    assert tree[color].i32 in DeclaredNumbers(colors);
  }
}
