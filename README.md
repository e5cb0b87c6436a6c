# XDN client-centric and state-transfer core in Dafny

This project models three Java classes of the XDN replicated-service
substrate and proves properties about them.

- `VectorTimestamp` is the vector clock that orders what a client has
  observed across replica handovers. It is a mutable map from node id to a
  64-bit counter. It offers the partial-order comparisons
  (`isLessThan`, `isEqualTo`, `isLessThanOrEqualTo`, `isGreaterThan`,
  `isZero`, `isComparableWith`) and a text form
  `VectorTimestamp/<id>:<n>.<id>:<n>/`, read back by `createFromString`.
- `XDNStatediffApplyRequest` is the envelope that carries an opaque state
  diff to a replica. Its text form is `xdn:31303:` followed by a JSON object
  with the members `sn`, `sd` and `id`. `createFromString` returns null for
  anything it cannot read.
- `ServiceComponent` is one container of a declared service. Every field but
  `isStateful` is final. The constructor rejects an entry component that has
  no entry port.

Files and modules:

| file | module | what it holds |
|---|---|---|
| `wrappers.dfy` | `Wrappers` | `Option` and `Result` |
| `java_lang.dfy` | `JavaLang` | `long` and `int` ranges, `long` increment with wrap-around, `String.startsWith`, `String.split` on one character (Java's limit-0 rule, trailing empty pieces dropped), `Long.toString`, `Long.valueOf`, and the bits of two's-complement integers with `^` on them |
| `vector_clock.dfy` | `VectorClocks` | the clock as a value: the order predicates and their laws, the text encoding and decoding with their laws |
| `vector_timestamp.dfy` | `VectorTimestamps` | the `VectorTimestamp` class; each loop is proved against `VectorClocks`, and the pair loop of `createFromString` is the method `ParsePairList` |
| `json.dfy` | `Json` | the part of org.json the request uses: `JSONObject.quote`, the writer of flat objects, the reader of flat objects, member lookup by key |
| `statediff_apply_request.dfy` | `StatediffRequests` | the request's codec on values, the `getString`/`getLong` lookups, `hashCode` arithmetic, and the `XDNStatediffApplyRequest` class |
| `service_component.dfy` | `ServiceComponents` | the `ServiceComponent` class |

How the Java code is rendered:

- Hash-map iteration order is never fixed. `toString` in both classes
  returns, as a ghost out-value, the order it used, and the contract holds
  for that order. Every round-trip lemma is proved for every order.
- The loops over `keySet()` pick any key not yet visited.
- Java `assert` statements in instance methods become `requires` clauses.
  The model assumes assertions are enabled.
- In `VectorTimestamp.createFromString` the input comes from outside, so the
  failed assertions and the `NumberFormatException` of `Long.valueOf` become
  `DecodeError` results. The error is `MissingPrefix`, `TruncatedText`
  (substring end before its start), `MalformedPair` or `MalformedCounter`.
- `System.currentTimeMillis()` is a constructor parameter.
- A null input to `XDNStatediffApplyRequest.createFromString` is `None`.
- `long` is the subset type `Long`. `tt + 1` in `increaseNodeTimestamp`
  wraps from `Long.MAX_VALUE` to `Long.MIN_VALUE`, as Java does.

Behaviour that follows from the code as written:

- The timestamp of an empty node list encodes to `VectorTimestamp//`.
  Splitting the empty middle gives one empty piece, which has no `:`. So
  that text does not decode (`EmptyClockDoesNotRoundTrip`).
- `VectorTimestamp/./` decodes to a clock with no nodes, because Java's
  `split` drops all trailing empty pieces (`DotsOnlyDecodeToEmptyClock`).
- `createFromString` never checks the final `/`. It drops the last
  character, whatever that character is (`DecodeIgnoresLastCharacter`).
- The round trip `createFromString(toString())` holds when the clock has at
  least one node and no node id contains `.` or `:` (`DecodeEncode`).
- A malformed statediff request gives null, like text with a foreign
  prefix (`XDNStatediffApplyRequest.java:86-106`).

## Model

| member | source | states |
|---|---|---|
| JavaLang.IncrementLong | src/edu/umass/cs/clientcentric/VectorTimestamp.java:37 | `tt + 1` on a `long`: one more below `Long.MAX_VALUE`, and `Long.MIN_VALUE` from `Long.MAX_VALUE` |
| JavaLang.IntToString | src/edu/umass/cs/clientcentric/VectorTimestamp.java:142 | the decimal text of a counter is non-empty, is a sign or digit followed by digits, and holds no `.`, `:` or `/` |
| JavaLang.SplitJoin | src/edu/umass/cs/clientcentric/VectorTimestamp.java:159-163 | `split` on a separator gives back the pieces joined with it, when no piece holds the separator and the last piece is not empty |
| JavaLang.SplitPieces | src/edu/umass/cs/clientcentric/VectorTimestamp.java:159-163 | every piece `split` yields is free of the separator and made only of characters of the input |
| JavaLang.ParseLongToString | src/edu/umass/cs/clientcentric/VectorTimestamp.java:142-166 | `Long.valueOf` reads back every value `Long.toString` writes |
| VectorClocks.Zero | src/edu/umass/cs/clientcentric/VectorTimestamp.java:18-23 | the constructor's clock has exactly the listed ids as keys |
| VectorClocks.ZeroIsZero | src/edu/umass/cs/clientcentric/VectorTimestamp.java:124-132 | a newly built clock is zero and has exactly the listed ids |
| VectorClocks.ComparableIsEquivalence | src/edu/umass/cs/clientcentric/VectorTimestamp.java:47-59 | being comparable (same node ids) is reflexive, symmetric and transitive |
| VectorClocks.LessThanIsIrreflexive | src/edu/umass/cs/clientcentric/VectorTimestamp.java:61-80 | no clock is less than itself |
| VectorClocks.LessThanIsAsymmetric | src/edu/umass/cs/clientcentric/VectorTimestamp.java:61-80 | if a is less than b then b is not less than a |
| VectorClocks.LessThanIsTransitive | src/edu/umass/cs/clientcentric/VectorTimestamp.java:61-80 | less-than is transitive |
| VectorClocks.GreaterThanIsConverse | src/edu/umass/cs/clientcentric/VectorTimestamp.java:103-122 | on comparable clocks, a is greater than b exactly when b is less than a |
| VectorClocks.EqualToIsEquality | src/edu/umass/cs/clientcentric/VectorTimestamp.java:82-97 | on comparable clocks, `isEqualTo` holds exactly when the clocks are equal |
| VectorClocks.LessThanOrEqualToIsPointwise | src/edu/umass/cs/clientcentric/VectorTimestamp.java:99-101 | on comparable clocks, less-than-or-equal holds exactly when every counter is at most the other's |
| VectorClocks.LessThanOrEqualToIsPartialOrder | src/edu/umass/cs/clientcentric/VectorTimestamp.java:99-101 | less-than-or-equal is reflexive, antisymmetric and transitive on clocks over one id set |
| VectorClocks.ConcurrentClocksExist | src/edu/umass/cs/clientcentric/VectorTimestamp.java:99-122 | two comparable clocks can be concurrent: neither is less than or equal to the other |
| VectorClocks.IncrementIsLater | src/edu/umass/cs/clientcentric/VectorTimestamp.java:34-39 | increasing a counter below `Long.MAX_VALUE` gives a comparable, strictly later clock |
| VectorClocks.Encode | src/edu/umass/cs/clientcentric/VectorTimestamp.java:134-150 | what `toString` writes for a key order starts with `VectorTimestamp/`, is longer than it, and ends with `/` |
| VectorClocks.Decode | src/edu/umass/cs/clientcentric/VectorTimestamp.java:152-174 | no contract of its own: `createFromString` step by step on the text; `DecodeOutcome`, `DecodeErrors`, `DecodeEncode` and `DecodeIsStable` state what it promises |
| VectorClocks.EncodeStep | src/edu/umass/cs/clientcentric/VectorTimestamp.java:139-147 | appending one more `id:counter` after the separator extends the encoding by one node and the key order by one id |
| VectorClocks.ParsePairText | src/edu/umass/cs/clientcentric/VectorTimestamp.java:163-166 | a pair written as `id:counter` reads back as that id and counter when the id has no `:` |
| VectorClocks.ParsePairTexts | src/edu/umass/cs/clientcentric/VectorTimestamp.java:159-167 | the pairs of an encoding read back as the ids in order and their counters |
| VectorClocks.ParsePairsFailurePersists | src/edu/umass/cs/clientcentric/VectorTimestamp.java:162-167 | once a pair fails, reading more pairs keeps that first error |
| VectorClocks.ApplyDistinctUpdates | src/edu/umass/cs/clientcentric/VectorTimestamp.java:169-172 | setting distinct ids in turn leaves each id with its own counter and every other id unchanged |
| VectorClocks.RebuildClock | src/edu/umass/cs/clientcentric/VectorTimestamp.java:169-172 | building from the zero clock over a key order and setting each counter gives back the original clock |
| VectorClocks.DecodeEncode | src/edu/umass/cs/clientcentric/VectorTimestamp.java:134-174 | `createFromString(toString())` gives back the clock, for every pair order, when the clock is non-empty and no id contains `.` or `:` |
| VectorClocks.EncodingReadsBack | src/edu/umass/cs/clientcentric/VectorTimestamp.java:134-174 | every encoding starts with the prefix and ends with `/`, and decodes back to the clock when the round trip applies |
| VectorClocks.DecodeOutcome | src/edu/umass/cs/clientcentric/VectorTimestamp.java:152-174 | decoding fails with `MissingPrefix` exactly when the prefix is missing; a decoded text is longer than the prefix, and every decoded id is free of `.` and `:` |
| VectorClocks.DecodeErrors | src/edu/umass/cs/clientcentric/VectorTimestamp.java:152-174 | decoding succeeds exactly when the prefix is there, something follows it, and every `.`-separated pair of the middle parses; it fails with `TruncatedText` exactly on the bare prefix, and otherwise with the error of the first pair that does not parse |
| VectorClocks.ParsePairOutcome | src/edu/umass/cs/clientcentric/VectorTimestamp.java:163-166 | a pair fails with `MalformedPair` exactly when `split(":")` does not give two pieces, then with `MalformedCounter` exactly when `Long.valueOf` rejects the second piece, and otherwise yields the first piece and the parsed counter |
| VectorClocks.ParsePairsOutcome | src/edu/umass/cs/clientcentric/VectorTimestamp.java:162-167 | the pair loop succeeds exactly when every pair parses, and otherwise fails with the error of the first pair that does not |
| VectorClocks.DecodeIsStable | src/edu/umass/cs/clientcentric/VectorTimestamp.java:134-174 | a clock read from text with at least one node is written back, in every key order, as text that reads back as the same clock |
| VectorClocks.DecodeIgnoresLastCharacter | src/edu/umass/cs/clientcentric/VectorTimestamp.java:157-158 | decoding never looks at the final character |
| VectorClocks.DecodeNeedsPrefix | src/edu/umass/cs/clientcentric/VectorTimestamp.java:153-155 | text without the `VectorTimestamp/` prefix fails with `MissingPrefix` |
| VectorClocks.EmptyClockDoesNotRoundTrip | src/edu/umass/cs/clientcentric/VectorTimestamp.java:134-164 | the clock with no nodes encodes to `VectorTimestamp//`, and that text fails as a malformed empty pair |
| VectorClocks.DotsOnlyDecodeToEmptyClock | src/edu/umass/cs/clientcentric/VectorTimestamp.java:157-172 | `VectorTimestamp/./` decodes to the clock with no nodes |
| VectorClocks.ToStringTestIsOneOrder | src/edu/umass/cs/clientcentric/VectorTimestamp.java:178-182 | the literal `VectorTimestamp/AR1:0.AR2:0.AR0:0/` the test expects is exactly the encoding of the zero clock over AR0, AR1, AR2 in the key order AR1, AR2, AR0 |
| VectorClocks.ThreeNodeRoundTrip | src/edu/umass/cs/clientcentric/VectorTimestamp.java:184-190 | any three distinct ids with their counters, written in the text form, decode to the clock mapping each id to its counter |
| VectorClocks.FromStringTest | src/edu/umass/cs/clientcentric/VectorTimestamp.java:184-190 | the literal `VectorTimestamp/AR1:313.AR2:354.AR0:413/` of the test decodes to exactly AR1 = 313, AR2 = 354, AR0 = 413 |
| VectorTimestamps.VectorTimestamp.constructor | src/edu/umass/cs/clientcentric/VectorTimestamp.java:18-23 | the new timestamp maps exactly the listed ids, each to 0, and is zero |
| VectorTimestamps.VectorTimestamp.NodeIds | src/edu/umass/cs/clientcentric/VectorTimestamp.java:25-27 | the ids are exactly the map's keys |
| VectorTimestamps.VectorTimestamp.UpdateNodeTimestamp | src/edu/umass/cs/clientcentric/VectorTimestamp.java:29-32 | for a present id, only that id's counter changes, to the given value; the key set is unchanged |
| VectorTimestamps.VectorTimestamp.IncreaseNodeTimestamp | src/edu/umass/cs/clientcentric/VectorTimestamp.java:34-39 | for a present id, only that counter changes, incremented with wrap-around; it returns the same object |
| VectorTimestamps.VectorTimestamp.GetNodeTimestamp | src/edu/umass/cs/clientcentric/VectorTimestamp.java:41-45 | the counter stored for a present id |
| VectorTimestamps.VectorTimestamp.IsComparableWith | src/edu/umass/cs/clientcentric/VectorTimestamp.java:47-59 | true exactly when both timestamps have the same node ids |
| VectorTimestamps.VectorTimestamp.IsLessThan | src/edu/umass/cs/clientcentric/VectorTimestamp.java:61-80 | true exactly when every counter is at most the other's and at least one is smaller |
| VectorTimestamps.VectorTimestamp.IsEqualTo | src/edu/umass/cs/clientcentric/VectorTimestamp.java:82-97 | true exactly when every counter equals the other's |
| VectorTimestamps.VectorTimestamp.IsLessThanOrEqualTo | src/edu/umass/cs/clientcentric/VectorTimestamp.java:99-101 | true exactly when less-than or equal-to holds |
| VectorTimestamps.VectorTimestamp.IsGreaterThan | src/edu/umass/cs/clientcentric/VectorTimestamp.java:103-122 | true exactly when every counter is at least the other's and at least one is larger |
| VectorTimestamps.VectorTimestamp.IsZero | src/edu/umass/cs/clientcentric/VectorTimestamp.java:124-132 | true exactly when every counter is 0 |
| VectorTimestamps.VectorTimestamp.ToString | src/edu/umass/cs/clientcentric/VectorTimestamp.java:134-150 | the text is the prefix, the `id:counter` pairs joined by `.` in some order listing every id once, then `/`; for a non-empty clock whose ids hold no `.` or `:`, it decodes back to the clock |
| VectorTimestamps.VectorTimestamp.ParsePairList | src/edu/umass/cs/clientcentric/VectorTimestamp.java:162-167 | the first loop of `createFromString` collects the ids and counters in order, exactly as `ParsePairs` reads the pairs, and stops at the first bad pair with its error |
| VectorTimestamps.VectorTimestamp.CreateFromString | src/edu/umass/cs/clientcentric/VectorTimestamp.java:152-174 | fails with the decoder's error, or yields a new timestamp holding the decoded clock |
| Json.Hex4RoundTrip | src/edu/umass/cs/xdn/request/XDNStatediffApplyRequest.java:58-64 | the four hex digits of a `\u` escape read back as the character's code |
| Json.EscapeCharRoundTrip | src/edu/umass/cs/xdn/request/XDNStatediffApplyRequest.java:58-64 | the escape written for one character reads back as that character, whatever follows |
| Json.EscapeRoundTrip | src/edu/umass/cs/xdn/request/XDNStatediffApplyRequest.java:58-64 | an escaped string body followed by `"` reads back as the string and the text after the quote |
| Json.QuoteRoundTrip | src/edu/umass/cs/xdn/request/XDNStatediffApplyRequest.java:58-64 | what `quote` writes for the service name and the state diff, the JSON reader reads back |
| Json.NumberRoundTrip | src/edu/umass/cs/xdn/request/XDNStatediffApplyRequest.java:61 | the decimal text of the request id reads back as that number |
| Json.ValueRoundTrip | src/edu/umass/cs/xdn/request/XDNStatediffApplyRequest.java:58-64 | every written value reads back when followed by `,`, `}` or nothing |
| Json.MemberRoundTrip | src/edu/umass/cs/xdn/request/XDNStatediffApplyRequest.java:58-64 | every written `"key":value` member reads back |
| Json.MembersRoundTrip | src/edu/umass/cs/xdn/request/XDNStatediffApplyRequest.java:58-64 | a comma-separated member list closed by `}` reads back, member for member |
| Json.ObjectRoundTrip | src/edu/umass/cs/xdn/request/XDNStatediffApplyRequest.java:91 | `new JSONObject` reads back, member for member, every object written with distinct keys |
| Json.Lookup | src/edu/umass/cs/xdn/request/XDNStatediffApplyRequest.java:94-96 | a key is found exactly when some member has it |
| Json.LookupDistinct | src/edu/umass/cs/xdn/request/XDNStatediffApplyRequest.java:94-96 | with distinct keys, looking up a member's key finds that member's value, wherever it stands |
| StatediffRequests.GetString | src/edu/umass/cs/xdn/request/XDNStatediffApplyRequest.java:94-95 | `getString` gives a string exactly when the key is present with a string value, and then gives that string |
| StatediffRequests.GetLong | src/edu/umass/cs/xdn/request/XDNStatediffApplyRequest.java:96 | `getLong` fails on a missing key, accepts a number exactly when it is in the `long` range, reads a string exactly as `Long.parseLong` does, and rejects every other kind of value |
| StatediffRequests.SerializedPrefixValue | src/edu/umass/cs/xdn/request/XDNStatediffApplyRequest.java:11-15 | the formatted prefix is `xdn:31303:` |
| StatediffRequests.FieldOrdersAreTheOrders | src/edu/umass/cs/xdn/request/XDNStatediffApplyRequest.java:58-61 | the six listed member orders are exactly the orders that list each of `sn`, `sd` and `id` once |
| StatediffRequests.MembersLookup | src/edu/umass/cs/xdn/request/XDNStatediffApplyRequest.java:94-96 | in every member order, `getString("sn")`, `getString("sd")` and `getLong("id")` find the written values |
| StatediffRequests.DeserializeSerialize | src/edu/umass/cs/xdn/request/XDNStatediffApplyRequest.java:85-107 | `createFromString(toString())` gives back the service name, state diff and request id, in every member order |
| StatediffRequests.DeserializeNeedsPrefix | src/edu/umass/cs/xdn/request/XDNStatediffApplyRequest.java:86-88 | text without the type's prefix gives null |
| StatediffRequests.WrapInt | src/edu/umass/cs/xdn/request/XDNStatediffApplyRequest.java:70-73 | the hash arithmetic stays in the `int` range and agrees with the exact value modulo 2^32 |
| StatediffRequests.StringHash | src/edu/umass/cs/xdn/request/XDNStatediffApplyRequest.java:70-73 | `String.hashCode` is an `int` equal to s[0]·31^(n-1) + … + s[n-1] modulo 2^32 |
| StatediffRequests.LongHash | src/edu/umass/cs/xdn/request/XDNStatediffApplyRequest.java:70-73 | `Long.hashCode` is an `int` whose bit i is bit i exclusive-or bit i + 32 of the `long`'s two's complement, for i = 0 … 31; so a value in [0, 2^31) hashes to itself |
| StatediffRequests.Hash3 | src/edu/umass/cs/xdn/request/XDNStatediffApplyRequest.java:70-73 | `Objects.hash(a, b, c)` is an `int` equal to 31·(31·(31·1 + a) + b) + c modulo 2^32 |
| JavaLang.XorBit | src/edu/umass/cs/xdn/request/XDNStatediffApplyRequest.java:70-73 | each bit of `a ^ b`, as `Long.hashCode` uses it, is 1 exactly when the bits of `a` and `b` differ |
| JavaLang.XorBound | src/edu/umass/cs/xdn/request/XDNStatediffApplyRequest.java:70-73 | exclusive-or of two n-bit values has n bits, so the folded `long` fits the 32 bits the `int` cast keeps |
| StatediffRequests.XDNStatediffApplyRequest.constructor | src/edu/umass/cs/xdn/request/XDNStatediffApplyRequest.java:21-25 | holds the given service name and state diff, and the current time as its request id |
| StatediffRequests.XDNStatediffApplyRequest.GetRequestType | src/edu/umass/cs/xdn/request/XDNStatediffApplyRequest.java:27-30 | the type's code is the number in the serialized prefix |
| StatediffRequests.XDNStatediffApplyRequest.GetServiceName | src/edu/umass/cs/xdn/request/XDNStatediffApplyRequest.java:32-35 | no contract of its own: returns the final service name; `Contents`, which the constructor, `ToString`, `CreateFromString` and `Equals` speak through, is built from it |
| StatediffRequests.XDNStatediffApplyRequest.GetRequestID | src/edu/umass/cs/xdn/request/XDNStatediffApplyRequest.java:37-40 | no contract of its own: returns the current request id; `SetRequestID` states what it returns after a change |
| StatediffRequests.XDNStatediffApplyRequest.GetStatediff | src/edu/umass/cs/xdn/request/XDNStatediffApplyRequest.java:46-48 | no contract of its own: returns the final state diff, which `Contents` carries |
| StatediffRequests.XDNStatediffApplyRequest.SetRequestID | src/edu/umass/cs/xdn/request/XDNStatediffApplyRequest.java:42-44 | only the request id changes, to the given value |
| StatediffRequests.XDNStatediffApplyRequest.NeedsCoordination | src/edu/umass/cs/xdn/request/XDNStatediffApplyRequest.java:50-53 | a state-diff request always needs coordination |
| StatediffRequests.XDNStatediffApplyRequest.ToString | src/edu/umass/cs/xdn/request/XDNStatediffApplyRequest.java:55-68 | the text is the prefix and the JSON object of the three members, in one of the six member orders, and it decodes back to the request's three values |
| StatediffRequests.XDNStatediffApplyRequest.Equals | src/edu/umass/cs/xdn/request/XDNStatediffApplyRequest.java:75-83 | true exactly when the other request is non-null with the same service name, state diff and request id |
| StatediffRequests.XDNStatediffApplyRequest.HashCode | src/edu/umass/cs/xdn/request/XDNStatediffApplyRequest.java:70-73 | the hash is an `int` equal, modulo 2^32, to `Objects.hash`'s polynomial over the hashes of the service name, the state diff and the request id |
| StatediffRequests.XDNStatediffApplyRequest.CreateFromString | src/edu/umass/cs/xdn/request/XDNStatediffApplyRequest.java:85-107 | null exactly when decoding fails; otherwise a new request holding the decoded values |
| StatediffRequests.EqualsIsEquivalence | src/edu/umass/cs/xdn/request/XDNStatediffApplyRequest.java:75-83 | `equals` is reflexive, symmetric and transitive |
| StatediffRequests.EqualsImpliesSameHashCode | src/edu/umass/cs/xdn/request/XDNStatediffApplyRequest.java:70-83 | equal requests have equal hash codes |
| ServiceComponents.ServiceComponent.constructor | src/edu/umass/cs/xdn/service/ServiceComponent.java:27-43 | for a valid configuration, every field holds its argument and an entry component has an entry port |
| ServiceComponents.ServiceComponent.New | src/edu/umass/cs/xdn/service/ServiceComponent.java:27-43 | construction fails exactly when an entry component has no entry port; otherwise every getter returns its argument |
| ServiceComponents.ServiceComponent.SetIsStateful | src/edu/umass/cs/xdn/service/ServiceComponent.java:61-63 | only `isStateful` changes, to the given value |
| ServiceComponents.ServiceComponent.GetComponentName | src/edu/umass/cs/xdn/service/ServiceComponent.java:45-47 | no contract of its own: returns the final field; `New` states it is the constructor's argument |
| ServiceComponents.ServiceComponent.GetImageName | src/edu/umass/cs/xdn/service/ServiceComponent.java:49-51 | no contract of its own: returns the final field; `New` states it is the constructor's argument |
| ServiceComponents.ServiceComponent.GetExposedPort | src/edu/umass/cs/xdn/service/ServiceComponent.java:53-55 | no contract of its own: returns the final field, absent for null; `New` states it is the constructor's argument |
| ServiceComponents.ServiceComponent.IsStateful | src/edu/umass/cs/xdn/service/ServiceComponent.java:57-59 | no contract of its own: returns the one mutable field; `New` and `SetIsStateful` state its value |
| ServiceComponents.ServiceComponent.IsEntryComponent | src/edu/umass/cs/xdn/service/ServiceComponent.java:65-67 | no contract of its own: returns the final field; `New` states it is the constructor's argument |
| ServiceComponents.ServiceComponent.GetEntryPort | src/edu/umass/cs/xdn/service/ServiceComponent.java:69-71 | a component that construction let through has an entry port whenever it is the entry component |
| ServiceComponents.ServiceComponent.GetEntrypoint | src/edu/umass/cs/xdn/service/ServiceComponent.java:73-75 | no contract of its own: returns the final field; `New` states it is the constructor's argument |
| ServiceComponents.ServiceComponent.GetAddMountSrc | src/edu/umass/cs/xdn/service/ServiceComponent.java:77-79 | no contract of its own: returns the final field; `New` states it is the constructor's argument |
| ServiceComponents.ServiceComponent.GetAddMountTgt | src/edu/umass/cs/xdn/service/ServiceComponent.java:80-82 | no contract of its own: returns the final field; `New` states it is the constructor's argument |
| ServiceComponents.ServiceComponent.GetEnvironmentVariables | src/edu/umass/cs/xdn/service/ServiceComponent.java:84-86 | no contract of its own: returns the final map; `New` states it is the constructor's argument |

## Left out

- Concurrency: `synchronized` methods and the `ConcurrentHashMap` are modelled as single-threaded.
- Null references: null node ids, null lists, null strings and a null `other` timestamp are not modelled. The one exception is a null input to `XDNStatediffApplyRequest.createFromString`, which is `None`.
- VectorTimestamps.VectorTimestamp.NodeIds: returns the key set as a value. Java returns a live view of the map, and the model does not capture that aliasing.
- VectorTimestamps.VectorTimestamp.CreateFromString: the model assumes Java assertions are enabled. The JVM disables them by default, and then the method behaves differently in three ways that the model does not capture. The prefix check is skipped, so any first 16 characters are dropped unread: `XXXXXXXXXXXXXXXXa:1/` decodes to a = 1. A pair that splits into three or more pieces uses its first two: `a:1:2` gives a = 1. A pair without `:` fails with an `ArrayIndexOutOfBoundsException` instead of the assertion error.
- Json: the reader is stricter than org.json. It rejects unquoted strings, single-quoted strings, `=` or `=>` separators, `;` separators, trailing commas, nested values, fractions and exponents, and text after the closing brace. None of these can appear in the text `toString` writes.
- Json: characters above U+FFFF are treated as single characters. The UTF-16 surrogate pairs of Java strings are not modelled in escaping or in `String.hashCode`.
- JavaLang.ParseLong: accepts the ASCII digits `0`-`9` only. `Long.valueOf` decides digits with `Character.digit`, which also accepts every other Unicode decimal digit (Arabic-Indic, Devanagari, fullwidth and the like). So `VectorTimestamp/a:١٢/` decodes to a = 12 in Java but fails with `MalformedCounter` here, and the same narrowing applies to a string-valued `id` read by `getLong`. `toString` writes ASCII digits only, so the round trips are unaffected.
- Json.Hex4Value: reads the four characters after `\u` as ASCII hexadecimal digits only. org.json reads them with `Integer.parseInt(…, 16)`, which also accepts a leading sign and other Unicode decimal digits. The escapes `quote` writes use ASCII hexadecimal digits only.
- StatediffRequests.GetLong: a number outside the `long` range for `id` is rejected. org.json versions differ in how `getLong` narrows such values.
- StatediffRequests.XDNStatediffApplyRequest.CreateFromString: `e.printStackTrace()` is output only and is left out.
- StatediffRequests.XDNStatediffApplyRequest.Equals: takes only requests or null. Objects of other classes, which Java compares false, are not modelled.
- StatediffRequests.XDNStatediffApplyRequest.GetRequestType: returns the type's integer code, not the `XDNRequestType` enum, which is not part of this model. `XDNRequest`, the superclass, is not part of this model either; its prefix `xdn:` is a constant here.
- `System.currentTimeMillis()` is a parameter; the clock itself is not modelled.
- ServiceComponents.ServiceComponent: the environment-variable map is held as a value. The aliasing of the caller's `Map` is not modelled.
- The reconfiguration test client `TESTReconfigurationClient.java` and the Rust `main.rs` are not part of this model.
