/**
 * The message schema the synthesizer walks, the value tree it builds, and
 * the shape a tree must have to match a schema.
 */
module Schema {
  import opened Wrappers

  newtype uint8 = x: int | 0 <= x < 0x100
  newtype int32 = x: int | -0x8000_0000 <= x < 0x8000_0000
  newtype int64 = x: int | -0x8000_0000_0000_0000 <= x < 0x8000_0000_0000_0000
  newtype uint32 = x: int | 0 <= x < 0x1_0000_0000
  newtype uint64 = x: int | 0 <= x < 0x1_0000_0000_0000_0000

  /** A declared value of an enum type: its name and its number. */
  datatype EnumValue = EnumValue(name: string, number: int32)

  /**
   * The field types of `FieldDescriptorProto.Type` in descriptor.proto, in
   * their declared order; a message field carries the nested schema and an
   * enum field the enum's declared values. `Unrecognized` stands for a type
   * number outside the declared ones.
   */
  datatype Kind =
    | Double | Float | Int64 | Uint64 | Int32 | Fixed64 | Fixed32 | Bool | String
    | Group | Message(message: MessageSchema) | Bytes | Uint32 | Enum(values: seq<EnumValue>)
    | Sfixed32 | Sfixed64 | Sint32 | Sint64
    | Unrecognized(number: int)

  /** A field: its JSON name and its type. */
  datatype Field = Field(jsonName: string, kind: Kind)

  /** A message type, as the ordered list of its fields. */
  datatype MessageSchema = MessageSchema(fields: seq<Field>)

  /**
   * A generated value. Floating-point values are kept as opaque bit
   * patterns; a nested message becomes a nested map.
   */
  datatype Value =
    | DoubleValue(f64: bv64)
    | FloatValue(f32: bv32)
    | Uint32Value(u32: uint32)
    | Uint64Value(u64: uint64)
    | Int32Value(i32: int32)
    | Int64Value(i64: int64)
    | BoolValue(b: bool)
    | BytesValue(bytes: seq<uint8>)
    | StringValue(s: string)
    | Object(entries: map<string, Value>)

  /** The kinds the synthesizer writes a value for; group and unknown types are skipped. */
  predicate Handled(k: Kind)
  {
    !k.Group? && !k.Unrecognized?
  }

  /** The declared numbers of an enum. */
  function DeclaredNumbers(values: seq<EnumValue>): (nums: set<int32>)
    ensures forall j :: 0 <= j < |values| ==> values[j].number in nums
    ensures forall n :: n in nums ==> exists j :: 0 <= j < |values| && values[j].number == n
  {
    set j | 0 <= j < |values| :: values[j].number
  }

  /** The schema guarantees the synthesizer relies on: every enum declares a value. */
  ghost predicate WellFormed(msg: MessageSchema)
    decreases msg
  {
    forall f :: f in msg.fields ==>
      && (f.kind.Enum? ==> |f.kind.values| > 0)
      && (f.kind.Message? ==> WellFormed(f.kind.message))
  }

  /** The JSON names of the handled fields. */
  function HandledNames(fields: seq<Field>): (names: set<string>)
    ensures forall f :: f in fields && Handled(f.kind) ==> f.jsonName in names
    ensures forall key :: key in names ==> exists f :: f in fields && Handled(f.kind) && f.jsonName == key
  {
    if fields == [] then {}
    else
      var init := fields[..|fields| - 1];
      var last := fields[|fields| - 1];
      assert fields == init + [last];
      HandledNames(init) + (if Handled(last.kind) then {last.jsonName} else {})
  }

  /** The last handled field named `key`: the one whose value survives in the map. */
  function LastHandled(fields: seq<Field>, key: string): (r: Option<Field>)
    ensures r.None? <==> key !in HandledNames(fields)
    ensures r.Some? ==> r.value in fields && Handled(r.value.kind) && r.value.jsonName == key
  {
    if fields == [] then None
    else
      var init := fields[..|fields| - 1];
      var last := fields[|fields| - 1];
      if Handled(last.kind) && last.jsonName == key then Some(last)
      else
        var r := LastHandled(init, key);
        assert r.Some? ==> r.value in fields;
        r
  }

  /**
   * The shape of the tree for a message: exactly one entry per JSON name of
   * a handled field, each holding a value that fits the last handled field
   * of that name.
   */
  ghost predicate Conforms(msg: MessageSchema, tree: map<string, Value>)
    decreases msg
  {
    && tree.Keys == HandledNames(msg.fields)
    && forall key :: key in tree ==>
         var f := LastHandled(msg.fields, key);
         f.Some? && Fits(f.value, tree[key])
  }

  /**
   * The value variant of each field type: the width and signedness of the
   * scalar kinds, a conforming nested tree for a message, and one of the
   * declared numbers for an enum.
   */
  ghost predicate Fits(f: Field, v: Value)
    decreases f
  {
    match f.kind
    case Double => v.DoubleValue?
    case Float => v.FloatValue?
    case Uint32 => v.Uint32Value?
    case Uint64 => v.Uint64Value?
    case Int32 | Fixed32 | Sfixed32 | Sint32 => v.Int32Value?
    case Int64 | Fixed64 | Sfixed64 | Sint64 => v.Int64Value?
    case Bool => v.BoolValue?
    case Bytes => v.BytesValue?
    case String => v.StringValue?
    case Message(sub) => v.Object? && Conforms(sub, v.entries)
    case Enum(values) => v.Int32Value? && v.i32 in DeclaredNumbers(values)
    case Group => false
    case Unrecognized(_) => false
  }

  lemma HandledNamesSnoc(fs: seq<Field>, f: Field)
    ensures HandledNames(fs + [f]) == HandledNames(fs) + (if Handled(f.kind) then {f.jsonName} else {})
  {
    assert (fs + [f])[..|fs|] == fs;
  }

  lemma LastHandledSnoc(fs: seq<Field>, f: Field, key: string)
    ensures LastHandled(fs + [f], key) ==
              if Handled(f.kind) && f.jsonName == key then Some(f) else LastHandled(fs, key)
  {
    assert (fs + [f])[..|fs|] == fs;
  }

  /**
   * Writing the value of a handled field into a tree that matches the
   * fields before it gives a tree that matches the longer list.
   */
  lemma ConformsExtendHandled(fs: seq<Field>, f: Field, tree: map<string, Value>, v: Value)
    requires Handled(f.kind)
    requires Conforms(MessageSchema(fs), tree)
    requires Fits(f, v)
    ensures Conforms(MessageSchema(fs + [f]), tree[f.jsonName := v])
  {
    var tree' := tree[f.jsonName := v];
    HandledNamesSnoc(fs, f);
    forall key | key in tree'
      ensures var g := LastHandled(fs + [f], key); g.Some? && Fits(g.value, tree'[key])
    {
      LastHandledSnoc(fs, f, key);
    }
  }

  /** A field of a skipped kind changes nothing about which trees match. */
  lemma ConformsExtendUnhandled(fs: seq<Field>, f: Field, tree: map<string, Value>)
    requires !Handled(f.kind)
    ensures Conforms(MessageSchema(fs + [f]), tree) <==> Conforms(MessageSchema(fs), tree)
  {
    HandledNamesSnoc(fs, f);
    forall key
      ensures LastHandled(fs + [f], key) == LastHandled(fs, key)
    {
      LastHandledSnoc(fs, f, key);
    }
  }

  /**
   * When names repeat, the later field wins: the entry of a handled field
   * with no later handled namesake holds a value of that field's kind.
   */
  lemma {:induction false} LastHandledAt(fields: seq<Field>, j: nat)
    requires j < |fields| && Handled(fields[j].kind)
    requires forall k :: j < k < |fields| && Handled(fields[k].kind) ==> fields[k].jsonName != fields[j].jsonName
    ensures LastHandled(fields, fields[j].jsonName) == Some(fields[j])
    decreases |fields|
  {
    var init := fields[..|fields| - 1];
    if j < |fields| - 1 {
      assert init[j] == fields[j];
      LastHandledAt(init, j);
    }
  }

  lemma ConformsLaterFieldWins(msg: MessageSchema, tree: map<string, Value>, j: nat)
    requires Conforms(msg, tree)
    requires j < |msg.fields| && Handled(msg.fields[j].kind)
    requires forall k :: j < k < |msg.fields| && Handled(msg.fields[k].kind) ==>
               msg.fields[k].jsonName != msg.fields[j].jsonName
    ensures msg.fields[j].jsonName in tree
    ensures Fits(msg.fields[j], tree[msg.fields[j].jsonName])
  {
    LastHandledAt(msg.fields, j);
  }

  /** Distinct JSON names all of handled kinds: one name per field. */
  lemma {:induction false} HandledNamesCount(fields: seq<Field>)
    requires forall f :: f in fields ==> Handled(f.kind)
    requires forall i, j :: 0 <= i < j < |fields| ==> fields[i].jsonName != fields[j].jsonName
    ensures |HandledNames(fields)| == |fields|
    decreases |fields|
  {
    if fields != [] {
      var init := fields[..|fields| - 1];
      var last := fields[|fields| - 1];
      HandledNamesCount(init);
      assert forall k :: 0 <= k < |init| ==> init[k].jsonName != last.jsonName;
      assert last.jsonName !in HandledNames(init);
      assert HandledNames(fields) == HandledNames(init) + {last.jsonName};
    }
  }

  /**
   * A message whose fields are all of handled kinds and have distinct JSON
   * names gets exactly one entry per field.
   */
  lemma ConformsEntryCount(msg: MessageSchema, tree: map<string, Value>)
    requires Conforms(msg, tree)
    requires forall f :: f in msg.fields ==> Handled(f.kind)
    requires forall i, j :: 0 <= i < j < |msg.fields| ==> msg.fields[i].jsonName != msg.fields[j].jsonName
    ensures |tree| == |msg.fields|
  {
    HandledNamesCount(msg.fields);
    assert |tree| == |tree.Keys|;
  }
}
