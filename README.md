# grpcrnd `call`: a Dafny model

`grpcrnd call <addr> <service>.<method>` calls a gRPC method with a request
filled with generated values. This project models the three pieces of
sequential logic in `call/call.go` that do more than plumbing:

- **Reflection-name splitting** (`detectServiceMethod`). The name is split at
  its last `.`. A name with no dot is an error. Module `ReflectionName`.
- **Header parsing** (`buildOutgoingMetadata`). Each `-H 'Key: Value'`
  string is split at its first colon, and the key and the value are trimmed.
  A string with no colon is dropped. The pairs are appended, in input order,
  to a flat `key, value, key, value, ...` list. Module `Metadata`, over the
  string primitives in module `Text`.
- **Request synthesis** (`retriveFields`). The walk goes over the fields of
  the input message type. Each field gets a fresh generator and stores a
  value under its JSON name. A scalar field gets a value of its width and
  sign. A message field gets the tree of its nested message. An enum field
  gets the declared number of a picked value. A group or unknown type is
  skipped. Module `Synth`, over the schema and value tree of module `Schema`.

Modules:

- `Wrappers`: `Option` and `Result`.
- `Text`: models Go's `strings.LastIndex`, `strings.Index`,
  `strings.SplitN(s, sep, 2)` and `strings.TrimSpace`, with the
  `unicode.IsSpace` class, on strings as sequences of code points.
- `ReflectionName`: `DetectServiceMethod`.
- `Metadata`: `ParseHeader`, `ParsedHeaders` and `Flatten`, which define what
  the loop builds, and the method `BuildOutgoingMetadata`, which carries the
  loop itself.
- `Schema`: the field types of `FieldDescriptorProto.Type`, fields, message
  schemas and value trees. It also defines `Conforms`, which says when a tree
  matches a schema, independently of how the tree is built:
  - its keys are exactly the JSON names of the handled fields;
  - each entry fits the last handled field of that name;
  - a message entry conforms to the nested schema, recursively;
  - an enum entry is one of the declared numbers.
- `Synth`: the method `RetrieveFields`. It takes a `Source` of generated
  values, indexed by a seed per generator. Its loop invariant is that the
  map built so far conforms to the fields processed so far.

Where the design description and the code differ, the model follows the
code. The description says every field yields exactly one entry, so that N
scalar fields give N entries. In `call/call.go:175-216` a later field whose
JSON name repeats an earlier one overwrites that entry. The model writes the
map the same way: `Conforms` looks up the *last* handled field of each name.
`Schema.ConformsEntryCount` recovers the N-entries statement under the extra
condition that the names are distinct.

## Model

| member | source | states |
|---|---|---|
| Text.LastIndexOf | call/call.go:86 | `strings.LastIndex` with a one-character needle: -1 exactly when the character is absent; otherwise a position holding it with no occurrence after it |
| Text.IndexOf | call/call.go:150 | the first occurrence: -1 exactly when absent; otherwise a position holding it with no occurrence before it |
| Text.SplitN2 | call/call.go:150 | `strings.SplitN(s, ":", 2)`: one part (the whole string) exactly when the separator is absent; otherwise two parts that rebuild the string around the separator, with no separator in the first part |
| Text.TrimSpace | call/call.go:154 | `strings.TrimSpace`: the result has no white space at either end and sits inside the input with only white space around it |
| Text.TrimSpaceOfPadded | call/call.go:154 | trimming a trimmed string wrapped in any white space gives back exactly that string |
| Text.TrimSpaceExcludes | call/call.go:154 | trimming adds no character: a character absent from the input is absent from the result |
| Text.TrimSpaceIdempotent | call/call.go:154 | trimming twice equals trimming once |
| ReflectionName.DetectServiceMethod | call/call.go:85-93 | error exactly when the name has no `.`, with the message `invalid reflection method name: <name>`; on success `service + "." + method` is the input and the method part has no `.` |
| ReflectionName.DetectServiceMethodJoin | call/call.go:86-92 | for every service and dot-free method name, splitting `service.method` gives back both parts, so the split is at the last dot |
| ReflectionName.DetectServiceMethodExample | call/call.go:44 | `test.Test.Echo` splits into `test.Test` and `Echo`; `NoDot` is an error |
| Metadata.ParseHeader | call/call.go:150-154 | no pair exactly when the string has no colon; an emitted key has no colon, and key and value are trimmed |
| Metadata.ParseHeaderFirstColon | call/call.go:150-154 | the split is at the first colon: for a colon-free key part, parsing `k + ":" + v` gives the trimmed `k` and the trimmed `v`, with every later colon in the value |
| Metadata.ParseHeaderOfPadded | call/call.go:150-154 | a key and a value written with any white space around them and a colon between them parse back to exactly that key and value |
| Metadata.ParseHeaderUsageExample | call/call.go:47 | `UserAgent: grpcrand` gives the pair (`UserAgent`, `grpcrand`) |
| Metadata.ParseHeaderPaddedExample | call/call.go:154 | ` K : V ` gives the pair (`K`, `V`) |
| Metadata.ParseHeaderSecondColonExample | call/call.go:150 | `a: b:c` gives the pair (`a`, `b:c`) |
| Metadata.ParseHeaderMalformedExample | call/call.go:151-153 | `bad-header` gives no pair |
| Metadata.ParsedHeadersOrigin | call/call.go:149-155 | every emitted pair is well formed and is the parse of one of the input strings |
| Metadata.ParsedHeadersCount | call/call.go:149-155 | the number of pairs equals the number of input strings that contain a colon |
| Metadata.ParsedHeadersAppend | call/call.go:149-155 | input order is kept: the pairs of `a + b` are the pairs of `a` followed by the pairs of `b` |
| Metadata.ParsedHeadersDropsMalformed | call/call.go:151-153 | a string with no colon, at any position, does not change the pairs |
| Metadata.FlattenAt | call/call.go:155 | in the flat list, pair `i` has its key at index `2i` and its value at `2i+1` |
| Metadata.FlattenAppend | call/call.go:155 | appending pairs appends their flat lists |
| Metadata.BuildOutgoingMetadata | call/call.go:147-156 | the loop builds the flat list of the parsed headers in input order. Its length is twice the number of strings with a colon. Every even index holds a colon-free trimmed key and the next index a trimmed value |
| Schema.DeclaredNumbers | call/call.go:209-213 | the set holds the number of every declared enum value and nothing else |
| Schema.HandledNames | call/call.go:175-216 | the names are exactly the JSON names of the fields whose type the switch handles |
| Schema.LastHandled | call/call.go:175-216 | the field whose value survives under a name: none exactly when no handled field has that name; otherwise a handled field of the list with that name |
| Schema.ConformsExtendHandled | call/call.go:180-213 | storing a fitting value for a handled field, over a map that conforms to the earlier fields, gives a map that conforms to the longer list |
| Schema.ConformsExtendUnhandled | call/call.go:204-216 | a group or unknown field adds no key: the same map conforms to the list with or without it |
| Schema.LastHandledAt | call/call.go:175-216 | a handled field with no later handled namesake is the field that decides its name's entry |
| Schema.ConformsLaterFieldWins | call/call.go:175-216 | in a conforming tree, a handled field with no later handled namesake has an entry that fits its own type |
| Schema.HandledNamesCount | call/call.go:175-203 | with distinct names and handled types only, there is one name per field |
| Schema.ConformsEntryCount | call/call.go:174-218 | a conforming tree for distinctly named fields of handled types has exactly one entry per field |
| Synth.RetrieveFields | call/call.go:173-219 | for a schema whose enums declare at least one value, and a picker that returns an index in range, the map built conforms to the schema: the handled JSON names as keys; the width and sign of each scalar type; a conforming nested map for each message; a declared number for each enum. Each field gets a generator seed of its own |
| Synth.ConformsExample | call/call.go:173-219 | a string field, a message field holding one int64 field, a group field and an enum field under distinct names give exactly three keys, with the right scalar variants, the one nested key, and an enum value among the declared numbers |

## Left out

- `New`, `Command` and `Run` (call/call.go:37-83) are not part of this model: flag registration and the gRPC connection are I/O.
- `Call` (call/call.go:95-145) is not modelled beyond its first step, `detectServiceMethod`. Service resolution, the RPC, error-status unification, JSON marshalling and output are network and library calls.
- `createMessage` (call/call.go:160-171) is not part of this model. Its round trip through `encoding/json` and `jsonpb` is library code. `GetKnownFields` at the top and `GetFields` in the recursion are both modelled as the message's field list.
- `metadata.Pairs` (call/call.go:157) is not part of this model, including its lower-casing of keys. The model ends at the trimmed flat list.
- `NewRand` and its generators are not shown in the source. They become the `Source` parameter: one function per scalar type and an enum picker, indexed by a seed that is fresh for each field. Floating-point values are opaque bit patterns (`bv64`, `bv32`).
- Strings are sequences of code points. Go strings are byte strings, and invalid UTF-8 is not modelled.
- A field's repetition label (repeated or singular) is not modelled; the switch ignores it.
- Synth.RetrieveFields: requires every enum to declare at least one value and the picker to return an index in range. In Go an empty enum or an out-of-range index would panic; descriptors produced by protoc always declare at least one enum value.
- Synth.RetrieveFields: the `next` seed it returns is only bounded below (at least one seed per field). Exactly which seeds nested messages use is not stated.
- Synth.RetrieveFields: a schema is an inductive, finite datatype, so a self-referential message type cannot be written. The source has no cycle guard and would not terminate on one.
