# yab: a verified model of its converters, benchmark engine, templates and streams

yab is a command-line client for Thrift, gRPC and JSON services. This project models the parts of
it that carry real invariants, and proves what those parts are for.

* **Thrift values** (`Thrift*.dfy`, with `Values.dfy`, `Decimal.dfy`, `Graph.dfy`). A type-directed
  encoder turns loose YAML-like values into typed wire values: fuzzy field lookup, defaults, required
  checks, the union rule, range-checked integers, enum names, map keys that travel as text. A decoder
  goes back. `ThriftEncode.Encode` and `ThriftDecode.Decode` say what they compute; the methods in
  `ThriftToWire`, `ThriftFromWire` and `ThriftConst` follow the Go code loop by loop and are proved against
  them. What is computed is also stated without them: `ThriftReadings` says which request values stand for
  which scalar, `ThriftContents` what is sent of structs, lists and maps, `ThriftShown` what a response shows,
  and `ThriftDefaults` what a default constant means. Every loop over a Go map takes an arbitrary remaining key, so what is proved holds for every iteration
  order. Struct specifications are names looked up in an environment, so they may be recursive; since
  filling in defaults may then go on for ever, a run is given a call depth. `ThriftRuns.May` says how runs
  may end, in whichever order they visit maps, `ThriftResults.Gives` which values they may return,
  `ThriftAgreement` that `Encode` sums up exactly what all runs have in common, `ThriftClash` exactly when
  two runs differ, and `ThriftTermination` exactly when some depth suffices for every run.
* **The benchmark engine** (`Limiter.dfy`, `RateLimit.dfy`, `BenchState.dfy`, `Benchmark.dfy`). Workers and
  Stop share one Run; every atomic load, store, swap and decrement is one step, and the theorems hold for
  every interleaving. The rate limiter runs on a virtual clock. Each worker loops over More, a call and a
  record into a state of its own, while the others step in between; the states are merged and summarised.
* **Templates** (`Interpolate.dfy`, `Process.dfy`). The generated automaton is a loop over its states,
  proved equal to a small scanner of the grammar whose variable register is threaded through.
* **Two protocols** (`Streams.dfy`, `Descriptors.dfy`). Bidirectional streaming as a state machine of the
  sender goroutine and the receive loop, every schedule; the resolution of file descriptors by memoised
  depth-first search.

## Reading the model

* `Meaning` (in `ThriftSpec`) is a wire value up to the order of map items, which Go leaves open.
* `Encode` has four outcomes. `Done` and `Failed` are what every run returns. `NoValue`: no run returns a value, but
  some may exhaust their call depth. `Ambiguous`: the result depends on the order in which Go visits the request;
  this is so exactly when some run returns a value and another run does not return the same
  (`ThriftAgreement.AmbiguousIffRunsDiffer`).
* `May` is about single runs: whether one may return a value (`Good`), an error (`Bad`), or exhaust its call depth
  (`Out`). List items are encoded in order and the first that does not succeed ends the run; a map key comes before its
  value; fields and entries come in any order; of keys that clash any one may win. `Gives` holds of the values that
  such runs may return.
* Libraries are parameters: YAML parsing, JSON printing, case folding, float conversion. What is assumed of them is
  the predicate `ThriftRoundTrip.LibOk`: JSON prints integers in decimal and booleans as words, YAML
  reads both back, and case folding leaves parentheses alone.
* `ReadableEnv` and `Readable` are the limits of the round trip: map keys are strings, booleans or integers, and no
  enum item that names its value is shadowed by an earlier item of the same name up to case. `LinkedEnv` adds that
  default constants have the shape of their field's type, as linking guarantees.
* `Linked` and `DefaultsLinked`: a default constant has exactly the shape of its type, as linking guarantees; `Means` is
  what such a constant means.
* A Go panic (an unhashable map key, a quantile outside [0, 1], no benchmark state to merge into) is a `None` or
  `null` result.

## Where the code differs from what it says

* `limiter/limiter.go:57` says that after Stop all future calls of More return false. A Stop that loses the swap returns
  before the winner has changed anything, so this holds of the Stop that won, and of another one exactly when requests are
  neither unlimited nor left over by then: `Limiter.AfterStop`, `Limiter.StopSafety`, `Limiter.LosingStopReturnsEarly`.
* `benchmark.go:164-167` derives a request limit from rate and duration; when it rounds to 0, `limiter/limiter.go:29` reads
  it as no limit, and a limit the user gave is lost; in every other case it is kept: `Limiter.UserLimitKeptIff`,
  `Limiter.CapLost`.
* `templateargs/interpolate/parse.go:32` never resets the variable register: in `${a:x}${b}` the second reference gets the
  default of the first. `Interpolate.ThreadedIsPlainIffNoLeak` says exactly when a string is parsed as the grammar promises.
* Of request keys that name one field Go's map order decides which one counts. If they carry different values this can
  decide the result, even whether there is one (`ThriftClash.ClashDecides`), or be harmless, when the values are encoded
  alike (`ThriftClash.HarmlessClash`). `ThriftClash.StructRunsDifferIff` says exactly when two runs on a struct differ,
  `ThriftFields.CollectedIsUniqueIffNoClash` when they collect different values.
* An enum value does not survive the round trip when the item that names it has, up to case, the name of an earlier
  item; all others do: `ThriftScalars.EnumRoundTripIffUnshadowed`.
* Default expansion and dependency resolution do not look for cycles; when they end all the same:
  `ThriftTermination.TerminatesIffCalm`, `Descriptors.TerminatesIffCalm`; that they need not:
  `ThriftTermination.SelfDefaultDiverges`, `Descriptors.SelfImportDiverges`.
* A cancelled call of Take still counts, so later calls may sleep for several periods, one for every call since the last
  granted one at most: `RateLimit.LongSleepIff`, `RateLimit.DebtBound`, `RateLimit.CancelledCallsAddUp`.
* Unless its input failed, the sender of a bidirectional stream ends without cancelling the context, after a failed send
  too, so the receive loop can wait until the deadline: `Streams.CancelledIff`, `Streams.FailedSendLeavesReceiver`.
* A send that meets EOF makes a client stream close without having sent everything (`Streams.MakeClientStream`), and
  makes a bidirectional stream that returns nil report one message more than it sent (`Streams.ReportedMessages`,
  `Streams.LostMessage`).

## Model

| member | source | states |
|---|---|---|
| ThriftFields.FuzzName | thrift/fields.go:152-165 | the loop computes the lower-case letters and digits of a name |
| ThriftFields.FuzzIdempotent | thrift/fields.go:152-165 | making a name fuzzy twice is making it fuzzy once |
| ThriftFields.GetFields | thrift/fields.go:55-75 | the three lookup maps hold, per key, the last field declared for it; the fuzzy one is dropped when sizes differ |
| ThriftFields.Lookup | thrift/fields.go:37-53 | exact name first, then decimal identifier, then fuzzy name |
| ThriftFields.FuzzyOnIffInjective | thrift/fields.go:65-68 | comparing the sizes of two maps detects exactly the groups in which two fuzzy names clash |
| ThriftFields.DeclaredNameResolves | thrift/fields.go:37-53 | every declared name resolves to its own field, whatever the other fields' names and identifiers |
| ThriftFields.LookupIgnoresDeclarationOrder | thrift/fields.go:37-75 | lookup depends on the set of fields, not on the order in which they are declared |
| ThriftFields.FieldNamed | thrift/fields.go:37-75 | a key names a field exactly if it is its name, or no field's name but its identifier in decimal, or neither of any field but a spelling of its name, and no two field names are spellings of one |
| ThriftFields.NoFieldNamed | thrift/fields.go:37-53 | a key for which there is no such field is unknown |
| ThriftFields.FuzzEqualIff | thrift/fields.go:152-165 | two names are spellings of one exactly if their letters and digits are the same but for case |
| ThriftFields.SpellingExample | thrift/fields.go:152-165 | as some_field and someField are |
| ThriftFields.CollectedIsUniqueIffNoClash | thrift/fields.go:87-100 | the values collected are the same for every iteration order of the request exactly when keys naming one field agree |
| ThriftFields.MissingIgnoresOrder | thrift/fields.go:87-118 | for every iteration order the same fields are set and the same required fields are missing |
| ThriftScalars.ParseIntExact | thrift/types.go:66-95 | with bounds computed in wrapping 64-bit arithmetic, exactly the integers of the width are accepted, and narrowing loses nothing |
| ThriftScalars.IntegerEncodingLosesNothing | thrift/to_wire.go:216-243 | an integer that is encoded is on the wire with its own value |
| ThriftScalars.EnumEncodingLosesNothing | thrift/to_wire.go:200-208 | the number read for an enum, from text or an integer, fits in 32 bits and is the one on the wire |
| ThriftScalars.EnumTextMeans | thrift/to_wire.go:182-198 | text read as an enum is the name of an item of that value, up to case, or Name(n) with n in the range of int32 |
| ThriftScalars.FindItem | thrift/to_wire.go:182-187 | the search returns the first enum item equal under case folding |
| ThriftScalars.MapEnumValueToName | thrift/from_wire.go:125-132 | the search prints the first item of a value, or the number in parentheses |
| ThriftScalars.ParsePrintedUnknown | thrift/to_wire.go:189-198 | the printed form of an undeclared number, negative ones included, reads back as that number |
| ThriftScalars.EnumTextRoundTrip | thrift/to_wire.go:182-198 | for every int32, printing it as an enum and parsing the text gives it back, if no item that names its value is shadowed |
| ThriftScalars.EnumRoundTripIffUnshadowed | thrift/to_wire.go:182-198 | every int32 survives printing and parsing exactly when no item that names its value has, up to case, the name of an earlier item |
| ThriftScalars.EnumCaseClash | thrift/to_wire.go:182-187 | for example: of two items that differ in case the second is read back as the first |
| ThriftScalars.ParseBinaryList | thrift/types.go:115-136 | the loop turns a list of integers and strings into the bytes it stands for, or fails |
| ThriftScalars.ScalarToWire | thrift/to_wire.go:210-243 | the scalar branches of the encoder, with the loops they call, compute the specified wire value or fail as specified; which value that is, is in the next rows |
| ThriftReadings.ScalarIsSent | thrift/to_wire.go:210-243 | for every scalar type: exactly which request values are sent as which wire value, and that all others are refused: booleans, integers in range, enum names and numbers in parentheses, doubles, text and bytes |
| ThriftReadings.BooleanIsSent | thrift/types.go:36-64 | true, 1, "1", and "true" or "t" in any case are sent as true, their opposites as false, and nothing else is accepted |
| ThriftReadings.BytesSay | thrift/types.go:113-190 | the bytes of a text or binary field: a string or bytes as they are, a list of signed or unsigned bytes and strings joined in order, a number or boolean as it is printed |
| ThriftReadings.EnumSays | thrift/to_wire.go:180-208 | an enum is given by the first item of that name up to case, or else by the number in parentheses, or by an integer |
| ThriftScalars.ScalarFromWire | thrift/from_wire.go:149-171 | the scalar branches of the decoder, likewise |
| ThriftScalars.ScalarRoundTrip | thrift/from_wire.go:139-171 | decoding then encoding is the identity on every scalar wire value of every type |
| Decimal.ParseIntFormat | thrift/from_wire.go:131 | decimal text of an integer in range parses back to it |
| Decimal.FormatInjective | thrift/fields.go:61 | different identifiers have different decimal texts |
| Decimal.ParseIntIff | thrift/to_wire.go:189-198 | exactly the texts of an optional sign and digits that denote an integer in range are read, as that integer |
| Decimal.FormatText | thrift/from_wire.go:131 | printed text denotes its integer and has no needless zero or sign |
| Values.HashKeyIff | thrift/const.go:46-52 | every value but bytes, lists and maps makes a map key, and different values make different keys |
| ThriftEncode.EncodeEntriesFirst | thrift/to_wire.go:128-167 | the items a map encodes to are the same whichever entry is visited first |
| ThriftConst.ConstToRequest | thrift/const.go:29-64 | a default constant becomes its request value, struct fields in any order; an unhashable map key panics |
| ThriftConst.ConstValueListToRequest | thrift/const.go:66-72 | list constants become lists, item by item |
| ThriftDefaults.ConstIsSent | thrift/const.go:29-72 | for every type, depth and linked constant: what is encoded of its request value is exactly what the constant means, stated on the constant itself: scalars as they are, items in order, of map entries with one key the last, struct fields by identifier, with their own defaults |
| ThriftDefaults.DefaultIsSent | thrift/fields.go:102-111 | a field that no key gives a value is on the wire, in every run, as what its default constant means |
| ThriftDefaults.DefaultIsShown | thrift/from_wire.go:61-69 | a field that is not on the wire is shown as a value of the constant's kind that would be sent as what the constant means |
| ThriftToWire.ToWireValue | thrift/to_wire.go:210-277 | encoder: in every run the result has the specified meaning or fails as specified, a run ends only as runs may end and returns only a value that runs may return, and whatever is returned is well formed: type codes, identifier order, required and defaulted fields, union rule |
| ThriftToWire.StructToValue | thrift/to_wire.go:62-74 | a struct is encoded from string-keyed fields, or refused |
| ThriftToWire.ListToValue | thrift/to_wire.go:76-93 | items are encoded in order: a run ends well only if every item does, and otherwise as some item may end after those before it succeeded |
| ThriftRuns.FirstFailureDecides | thrift/to_wire.go:76-93 | what follows an item that cannot succeed makes no difference to how the list may end |
| ThriftToWire.MapToValue | thrift/to_wire.go:128-167 | both map types are accepted, every item conforms, items form the specified multiset |
| ThriftToWire.EntriesToItems | thrift/to_wire.go:140-166 | for every iteration order the loop yields the specified items; nil values are dropped |
| ThriftToWire.EntryToItem | thrift/to_wire.go:145-163 | one entry becomes one conforming item, key text converted first, the key encoded before the value; a failure means the map cannot be encoded |
| ThriftToWire.StructValueMap | thrift/to_wire.go:41-60 | a map with string keys is accepted, any other key refuses it |
| ThriftToWire.ConvertStringMap | thrift/to_wire.go:95-101 | the copy has the same entries |
| ThriftToWire.FieldGroupToValue | thrift/fields.go:77-121 | a request with an unknown key, a missing required field or a default that panics is refused in every run; any other run ends, and returns values, as the fields of some collected map may, and a settled outcome is what every run returns |
| ThriftAgreement.AmbiguousIffRunsDiffer | thrift/to_wire.go:210-277 | for every value, type and call depth: the specified outcome is open exactly when some run returns a value and another fails, is cut short, or returns a different one |
| ThriftAgreement.DoneIffRunsAgree | thrift/to_wire.go:210-277 | it is a value exactly when every run returns that value |
| ThriftAgreement.BarredIffNoRunReturns | thrift/to_wire.go:210-277 | it has no value exactly when no run returns one |
| ThriftContents.StructIsSent | thrift/fields.go:77-148 | exactly what runs may send of a struct: every key names a field; each field has the value of one of its keys that is not nil, or else its default, or else is not required and not sent; nothing else is sent, and of a union one field |
| ThriftContents.ListIsSent | thrift/to_wire.go:76-93 | of a list or set: its items in order |
| ThriftContents.MapIsSent | thrift/to_wire.go:104-167 | of a map: one item for every entry that is not nil, its key read as YAML if it is a string and the key type is not |
| ThriftContents.StringsOf | thrift/to_wire.go:41-60 | both Go types of map are accepted for a struct, if all keys are strings, with the same entries |
| ThriftContents.EntriesOf | thrift/to_wire.go:128-137 | and for a map, whatever its keys |
| ThriftClash.StructRunsDifferIff | thrift/fields.go:77-121 | two runs on a struct differ exactly if the request is accepted, each field that is set may get a value that some run encodes, and one field may get two values that are encoded differently, or one whose own result depends on the order |
| ThriftClash.GroupAmbiguousIff | thrift/fields.go:87-148 | the same of the fields alone, without the union rule |
| ThriftClash.AmbiguousMeansClash | thrift/fields.go:87-100 | the result depends on the order only if at some depth two request keys give one field different values |
| ThriftClash.NoClashOneResult | thrift/fields.go:87-100 | without such a clash no two runs differ: one successful run means that all succeed, with the same value up to map order |
| ThriftClash.ClashDecides | thrift/fields.go:87-100 | with one, `{"x": 5, "X": "foo"}` for a field `x` of type i32, a run may succeed and a run may fail |
| ThriftClash.HarmlessClash | thrift/fields.go:87-100 | with another, `{"x": true, "X": 1}` for a boolean, every run returns the same value |
| ThriftToWire.CollectUserFields | thrift/fields.go:87-100 | the unknown names are a function of the request; the collected values are among those given |
| ThriftToWire.FillDefaults | thrift/fields.go:102-116 | every unset field with a default gets it; the missing names are a function of what was given |
| ThriftFieldLoops.WithDefaultsLookup | thrift/fields.go:102-111 | exactly the unset fields with a default are added, given values stay, and only a default that panics fails |
| ThriftToWire.FieldsMapToValue | thrift/fields.go:128-148 | every set field is encoded once; the result is in strictly increasing identifier order |
| ThriftToWire.SortByID | thrift/fields.go:146 | sorting puts the fields in increasing order and keeps them all |
| ThriftFromWire.ValueFromWire | thrift/from_wire.go:139-210 | decoder: computes the specified value or error for any wire value |
| ThriftShown.ScalarIsShown | thrift/from_wire.go:125-200 | a scalar is shown as a value of its kind, an enum by the name of the first item of its value or as the number in parentheses, text as a string, binary as bytes; another type is refused |
| ThriftShown.ListIsShown | thrift/from_wire.go:74-92 | a list or set is shown item by item, in order |
| ThriftShown.MapIsShown | thrift/from_wire.go:94-123 | a map is shown item by item, under the key's string or else its JSON text; of items with one text the last counts |
| ThriftShown.StructIsShown | thrift/from_wire.go:40-72 | a struct is decoded exactly if every declared field on the wire is, and shows for each declared field the last one on the wire, or else its default, or else nothing |
| ThriftFromWire.ValueFromWireStruct | thrift/from_wire.go:40-72 | unknown fields are skipped, of repeated ones the last counts, unset defaults are added |
| ThriftFromWire.AddDefaults | thrift/from_wire.go:61-69 | for every iteration order the same defaults are added |
| ThriftFromWire.ValueFromWireList | thrift/from_wire.go:74-92 | lists and sets are decoded item by item |
| ThriftFromWire.ValueFromWireMap | thrift/from_wire.go:94-123 | items are stored under their key's text |
| ThriftFromWire.ItemFromWire | thrift/from_wire.go:98-118 | a key that is not a string is stored under its JSON text |
| ThriftFromWire.GetFieldMap | thrift/from_wire.go:32-38 | fields are found by identifier |
| ThriftRoundTrip.KeyRoundTrip | thrift/to_wire.go:106-126 | a map key decodes to text, and the text, read as YAML, encodes back to the key |
| ThriftRoundTrip.KeyTextInjective | thrift/from_wire.go:107-116 | different keys of one type have different texts, so no item is lost |
| ThriftRoundTrip.RoundTrip | thrift/from_wire_test.go:396-404 | for every type, recursive ones included, and every canonical value: it decodes, and encoding the result gives it back up to map order; its height suffices as call depth |
| ThriftTidy.FitsTidy | thrift/const.go:29-72 | a default of its field's shape becomes a request value that names declared fields only and has no two keys for one item |
| ThriftTidy.DecodeTidy | thrift/from_wire.go:40-123 | what any wire value decodes to names declared fields only and never has two keys for one item |
| ThriftNormalise.DecodedIsSettled | thrift/fields.go:77-148 | encoding a decoded value never depends on Go's iteration order |
| ThriftNormalise.TidyClean | thrift/to_wire.go:128-167 | encoding such a value yields no repeated map key at any depth |
| ThriftNormalise.CleanIsDistinct | thrift/to_wire.go:128-167 | counting the keys of the meaning detects repeated keys of the wire value |
| ThriftNormalise.Normalises | thrift/from_wire.go:40-123 | for any wire value: if decoding and encoding succeed, the result is canonical and decoding and encoding it again changes nothing |
| ThriftFromWire.Reencode | thrift/from_wire_test.go:396-404 | as code: what a run returns is canonical; a canonical value is returned by every run, up to map order |
| ThriftFromWire.Normalise | thrift/from_wire_test.go:396-404 | as code: normalising twice, in any pair of runs, is normalising once |
| ThriftTermination.TerminatesIffCalm | thrift/fields.go:102-111 | some depth rules out exhaustion in every run exactly when no default that a run can need, directly or through other defaults, needs itself, and then every greater depth does; otherwise some run exhausts every depth |
| ThriftTermination.Terminates | thrift/to_wire.go:245-252 | the depth, by the number of defaults still reachable and then the size of the value; keys that clash are covered |
| ThriftRuns.NotOutStays | thrift/to_wire.go:245-252 | a depth that no run exhausts can be exceeded: no run exhausts a greater one |
| ThriftTermination.Diverges | thrift/fields.go:102-111 | if a run can need a default of an endless set, some run exhausts the depth, whatever it is |
| ThriftTermination.TerminatesByTypes | thrift/fields.go:102-111 | if no struct is reachable from the type of one of its own defaulted fields, every run on every value of every type ends |
| ThriftTermination.EncodeToTheEnd | thrift/to_wire.go:210-277 | as code: given a depth that no run exhausts no run is cut short |
| ThriftTermination.SelfDefaultDiverges | thrift/const.go:29-72 | for a struct that defaults a field to itself every run on the empty request exhausts every depth |
| ThriftRuns.Shrink | thrift/to_wire.go:210-277 | with less depth a run may still end as it did, or exhaust the depth |
| ThriftRuns.Grow | thrift/to_wire.go:210-277 | with more depth a run that ended with a value or an error may still end so |
| Limiter.InvariantAlways | limiter/limiter.go:45-66 | the invariant tying budget, trues, Stop's progress and late calls holds after every interleaving |
| Limiter.Budget | limiter/limiter.go:45-55 | with a limit n, More returns true at most n times in all, and exactly n times if nobody stops the run |
| Limiter.TakesForTrues | limiter/limiter.go:45-55 | at every point of every schedule a worker has called Take once for each true, and at most once more for the call it is in |
| Limiter.StopSafety | limiter/limiter.go:57-66 | the channel is closed at most once; no late decrement yields true; no call begun after the winning Stop returns true; one late true per worker without a limit; the counter stays above minus the workers |
| Limiter.AnotherIffHopeful | limiter/limiter.go:45-55 | in any state: which workers can still be given a true, by where they are in More, exactly |
| Limiter.AfterStop | limiter/limiter.go:57-62 | after any Stop has returned, a worker about to call More can still get a true exactly if requests are unlimited or left over, which is never so for the winning Stop; once it is not so it never is, and no later call returns true |
| Limiter.LosingStopReturnsEarly | limiter/limiter.go:57-62 | it happens: a Stop that loses the swap returns while More can still return true |
| Limiter.LimitedRunsEnd | limiter/limiter.go:45-55 | a limited run has a bounded number of steps, and one that cannot go on, unstopped, has given out n |
| Limiter.BenchmarkCap | benchmark.go:162-168 | with a user limit and a rate cap of at least one, neither is exceeded in any schedule |
| Limiter.CapLost | benchmark.go:164-167 | the limit passed on is none exactly when there is nothing to derive one from or the cap rounds to 0, and then any number of calls is possible |
| Limiter.UserLimitKeptIff | benchmark.go:162-168 | a user limit is exceeded by no schedule exactly when no rate cap rounds to 0 |
| Limiter.Run.New | limiter/limiter.go:22-40 | the shared fields start as in the machine; 0 means unlimited |
| Limiter.Run.StepMore | limiter/limiter.go:45-55 | each atomic operation of More is one step of the machine |
| Limiter.Run.StepStop | limiter/limiter.go:58-66 | each atomic operation of Stop is one step of the machine |
| Limiter.Run.Execute | limiter/limiter.go:45-66 | any schedule on the object is a run of the machine |
| RateLimit.TimePeriod.New | ratelimit/time_period.go:51-57 | the period is the longest that fits rps times into a second, the slack ten such, to the nanosecond |
| RateLimit.TimePeriod.Take | ratelimit/time_period.go:61-100 | the method computes the step function of the clock model |
| RateLimit.Recurrence | ratelimit/time_period.go:72-84 | cancelled or not, a call moves the nominal time to the later of one period on and now plus the slack |
| RateLimit.DueExactly | ratelimit/time_period.go:61-100 | the schedule in closed form: a call is due a period per call after one of the calls up to it, less the slack unless that is the first of all, and not before any of these times |
| RateLimit.GrantedIff | ratelimit/time_period.go:86-97 | a call is granted exactly if it is not cancelled or is due already |
| RateLimit.RateBound | ratelimit/time_period.go:61-100 | any two calls are nominally granted at least a period per call apart, less the slack, whatever was cancelled in between |
| RateLimit.ReturnBound | ratelimit/time_period.go:59-60 | the same for actual return times, one period less, however late timers fire |
| RateLimit.BurstBound | ratelimit/time_period.go:51-57 | in terms of the rate: ten periods' worth of burst |
| RateLimit.LongSleepIff | ratelimit/time_period.go:72-97 | a call sleeps longer than a period exactly when the call before it is due later than this one is made |
| RateLimit.SleepBound | ratelimit/time_period.go:86-97 | so a call after a granted one never does, it is granted unless cancelled, and a granted call leaves no debt |
| RateLimit.DebtBound | ratelimit/time_period.go:72-97 | a call is nominally granted within as many periods as there were calls since the last granted one, itself included, whichever of them were cancelled |
| RateLimit.CancelledCallsAddUp | ratelimit/time_period.go:86-93 | the bound is reached, for any number of calls: the call after n - 1 cancelled ones sleeps for n periods |
| BenchState.ErrorToMessage | bench_state.go:154-176 | the loop replaces every run of digits by one X |
| BenchState.MaskIdempotent | bench_state.go:154-176 | masking twice is masking once |
| BenchState.MaskRun | bench_state.go:154-176 | a whole run of digits becomes one X, and what is before and after it is masked on its own |
| BenchState.MaskFixes | bench_state.go:154-176 | text without digits stays |
| BenchState.RecordsConserve | bench_state.go:51-90 | every record keeps requests = errors + successes, a latency per success, and error counts that sum to the errors |
| BenchState.CombineConserves | bench_state.go:67-77 | so does a merge |
| BenchState.SumAddCounts | bench_state.go:68-70 | merging error counts adds their sums |
| BenchState.MergeOrder | bench_state.go:67-77 | merging the same states in any order gives the same result but for the order of latencies |
| BenchState.AnyLast | bench_state.go:67-77 | any of the states may be merged last |
| BenchState.QuantileMonotone | bench_state.go:118-144 | quantiles of sorted latencies grow with q and stay between the smallest and the largest |
| BenchState.QuantileExact | bench_state.go:131-143 | the quantile k/(n-1) of n latencies is the one at index k |
| BenchState.QuantileInterpolates | bench_state.go:118-144 | every quantile is the value on the line between the latencies on either side of its exact position q(n-1), rounded to the nearest integer, halves away from zero |
| BenchState.QuantileIsUnique | bench_state.go:118-144 | there is only one such value |
| BenchState.QuantileBetween | bench_state.go:131-143 | at k + t the quantile is s[k] + t(s[k+1] - s[k]), so rounded |
| BenchState.SortedUnique | bench_state.go:94 | sorting has one result, whatever the algorithm |
| BenchState.QuantilesIgnoreMergeOrder | bench_state.go:93-144 | quantiles depend only on which states were merged, not on the order |
| BenchState.BenchmarkState.RecordError | bench_state.go:55-65 | counts the request, the error, and its masked message |
| BenchState.BenchmarkState.RecordLatency | bench_state.go:79-85 | counts the request and the success, and keeps the latency |
| BenchState.BenchmarkState.RecordStreamMessages | bench_state.go:87-90 | adds the messages of one stream |
| BenchState.BenchmarkState.Merge | bench_state.go:67-77 | for every iteration order the state becomes the combination, the other one is untouched |
| BenchState.BenchmarkState.GetQuantile | bench_state.go:118-144 | reads the specified quantile, and that is the one on the line; the panic outside [0, 1] |
| BenchState.BenchmarkState.GetLatencies | bench_state.go:93-100 | sorts in place and reads every quantile off the sorted latencies, each on the line between its neighbours |
| Benchmark.RunWorkers | benchmark.go:134-242 | every worker loops over More, a call and a record, while others step in between: the limiter ends as its machine does, and each state holds the calls of its worker |
| Benchmark.SlotOfWorker | benchmark.go:223 | worker j of connection i has the index i * concurrency + j, within bounds, from which i and j can be read back |
| Benchmark.WorkerOfSlot | benchmark.go:223 | every index belongs to a worker |
| Benchmark.NewStates | benchmark.go:207-225 | every slot gets a fresh state of its own, emitting to the right connection |
| Benchmark.Launch | benchmark.go:232-242 | launching by worker and then by connection, the other way round, still gives every state to exactly one worker, of its connection |
| Benchmark.AlwaysBalanced | benchmark.go:134-150 | at every point of every interleaving a worker has recorded as many calls as More returned true to it, less the one it is making |
| Benchmark.StuckIsFinished | benchmark.go:244-245 | an interleaving that cannot go on has come to its end: every worker has seen false and recorded all its calls |
| Benchmark.SystemEnds | benchmark.go:134-245 | with a limit n every interleaving of workers, limiter and Stops is over after 4(n + workers + stops) + n steps |
| Benchmark.MadeWithinTrues | benchmark.go:134-150 | at no point have more calls been recorded than More allowed |
| Benchmark.MergeAll | benchmark.go:247-251 | the first state becomes the merge of all |
| Benchmark.RunBenchmark | benchmark.go:162-251 | for every interleaving of workers and Stops that ends: the result counts exactly the user's limit, if that is at most rate times duration or one of these is missing, and exactly floor(rate times duration), if that is less but not 0, or at most so many if it was stopped; it is the merge of all workers' states, and counts every call; a panic exactly when there is no worker |
| Benchmark.MergeIsOneState | benchmark.go:247-251 | for every interleaving the merged result is what one state recording every call in order would hold, but for the order of latencies |
| Benchmark.ReportConserves | benchmark.go:253-271 | every finished call is counted once, as an error or a success |
| Benchmark.ReportCounts | benchmark.go:253-271 | the report in numbers: how many calls failed, with which masked message, how many succeeded, with which latency, and the messages of all streams added up |
| Benchmark.LimitInNumbers | benchmark.go:162-168 | the limit derived from the options, in terms of the options alone |
| Benchmark.ReportsTheLimit | benchmark.go:227-271 | with a limit n the report of every interleaving counts at most n requests, exactly n if the run was not stopped, and errors and successes add up |
| Benchmark.ReportsWithinTheCap | benchmark.go:162-271 | the report exceeds neither the user's limit nor the rate cap |
| Interpolate.Parse | templateargs/interpolate/parse.go:18-316 | the automaton accepts what the scanner accepts and returns its terms with the threaded register, the pending one included, and on error the terms before it |
| Interpolate.AcceptsTheLanguage | templateargs/interpolate/parse.rl:38-74 | it accepts exactly the strings of the grammar and returns the terms of the one reading a string has |
| Interpolate.ScanSource | templateargs/interpolate/parse.rl:38-74 | every well-formed list of pieces is what its text is parsed into |
| Interpolate.ScanSound | templateargs/interpolate/parse.rl:38-74 | whatever is accepted is the text of well-formed pieces |
| Interpolate.ThreadedIsPlainIffNoLeak | templateargs/interpolate/parse.go:32 | each reference gets its own default exactly when none without a default, or with an empty one, follows one with |
| Interpolate.ParsesPlainly | templateargs/interpolate/parse.go:18-316 | with at most one reference the automaton is the plain grammar |
| Interpolate.LeakExample | templateargs/interpolate/parse.go:32 | the string `${a:x}${b}` is accepted and gives b the default x |
| Interpolate.Render | templateargs/interpolate/types.go:68-99 | the loop writes each term's value, or fails at the first unknown variable; what that amounts to is in the next rows |
| Interpolate.RenderedReading | templateargs/interpolate/types.go:68-99 | a string with a reading is rendered exactly if every reference is resolved or comes with or after a colon; piece by piece the text is the literal text, the resolver's value whenever it has one, or else the last default so far that is not empty |
| Interpolate.ReferenceAlone | templateargs/interpolate/types.go:85-94 | a reference on its own is its value, or else its default, or else an error |
| Interpolate.DefaultsDoNotMatter | templateargs/interpolate/types.go:85-91 | where every variable has a value, defaults make no difference |
| Interpolate.EscapeRoundTrip | templateargs/interpolate/parse.go:75-157 | any string with its special characters escaped parses and renders back to itself under every resolver |
| Interpolate.OrdinaryRendersItself | templateargs/interpolate/types.go:68-99 | a string without special characters renders to itself |
| Process.ProcessString | templateargs/process.go:17-54 | parse, render, and read as YAML only what changed, with Go's idea of a boolean |
| Process.StringBecomes | templateargs/process.go:17-54 | from the reading of a string to what it becomes: nothing if a variable has no value; itself if rendering does not change it; or else what YAML makes of the text, but for booleans that Go does not spell so |
| Process.ReferenceBecomes | templateargs/process.go:17-54 | a reference on its own becomes what YAML makes of the argument, or of the default: `${n}` with n given as 5 a number |
| Process.ProcessValue | templateargs/process.go:56-68 | the result is a possible replacement, and there is an error exactly when some part cannot be processed |
| Process.ProcessList | templateargs/process.go:70-81 | item by item |
| Process.ProcessMap | templateargs/process.go:83-100 | for every iteration order; keys are processed too |
| Process.ProcessKey | templateargs/process.go:86-89 | the key that replaces a key |
| Process.DocumentExample | templateargs/process.go:56-100 | `{"${k}": ["${n}", nil]}` becomes `{"name": [5, nil]}` and nothing else |
| Process.PlainTreeUnchanged | templateargs/process.go:13-100 | a document whose strings contain neither special character is processed to itself, and to nothing else |
| Descriptors.ResolveSound | protobuf/filedescriptorsets.go:47-69 | whatever is resolved, with cycles or without, is the right descriptor, and what has been resolved stays closed under imports |
| Descriptors.ResolvesIffTree | protobuf/filedescriptorsets.go:47-69 | a name is resolved, given stack enough, exactly when it has a finite right descriptor, whatever was resolved before |
| Descriptors.TreeUnique | protobuf/filedescriptorsets.go:47-69 | a name has at most one right descriptor |
| Descriptors.TreeIffPresentAndAcyclic | protobuf/filedescriptorsets.go:51-62 | with creation succeeding, that is exactly when nothing below the name is missing and no cycle is below it |
| Descriptors.CalmTerminates | protobuf/filedescriptorsets.go:47-69 | a search that meets no cycle ends within as many calls as there are names it can visit |
| Descriptors.TerminatesIffCalm | protobuf/filedescriptorsets.go:47-69 | for any files and whatever was resolved before, the search ends exactly when it meets no cycle, an import being visited only if the imports before it can be resolved; otherwise it ends at no depth |
| Descriptors.SelfImportDiverges | protobuf/filedescriptorsets.go:47-69 | for example: of a file that imports itself the search ends at no depth |
| Descriptors.AcyclicIsCalm | protobuf/filedescriptorsets.go:47-69 | without cycles it meets none |
| Descriptors.TerminatesIffAcyclic | protobuf/filedescriptorsets.go:47-69 | when nothing is missing the search ends exactly when no cycle is below the name |
| Descriptors.Resolver.ResolveFileDescriptor | protobuf/filedescriptorsets.go:47-69 | finds the descriptor exactly when there is one; creates each file at most once, after its imports, and nothing that is not below the name |
| Descriptors.IndexFiles | protobuf/filedescriptorsets.go:34-37 | of files with one name the last counts |
| Descriptors.NewDescriptorProvider | protobuf/filedescriptorsets.go:33-45 | all descriptors, exactly when every file has one |
| Descriptors.AcceptedIffComplete | protobuf/filedescriptorsets.go:33-45 | with creation succeeding and no cycles, a set is accepted exactly when it contains every file it imports |
| Descriptors.FileOrderIrrelevant | protobuf/filedescriptorsets.go:33-45 | with unique names, file order changes neither success nor the descriptors |
| Streams.InvariantAlways | handler.go:233-290 | the invariants of sender and receive loop hold after every schedule |
| Streams.SendsInOrder | handler.go:240-265 | what was sent is a prefix of the requests; close at most once and only after all of them; the cursor is ahead by one exactly in or after an unfinished send |
| Streams.ResultOfBoth | handler.go:267-290 | nil exactly when neither side has an error other than EOF; the sender's error wins; by then the sender is done and the context cancelled |
| Streams.FailingInputIsReturned | handler.go:246-256 | a NextRequest that fails is the error returned whatever the receive loop sees, the context is cancelled, nothing is closed |
| Streams.NilResult | handler.go:281-289 | nil means all was sent and closed, or a send met EOF and one request was lost |
| Streams.HandledInOrder | handler.go:267-276 | responses are handled in the order received, none skipped |
| Streams.CancelledIff | handler.go:240-290 | in every reachable state the context is cancelled exactly if the deadline has passed, the receive loop has left, or the sender ended with a failed NextRequest; so a finished sender leaves a waiting receive loop under a live context exactly when neither of the first and the last is so |
| Streams.FailedSendLeavesReceiver | handler.go:258-264 | it happens after a failed send |
| Streams.EverySessionEnds | handler.go:233-290 | a schedule is bounded by the requests and the responses received, and one that cannot go on has returned |
| Streams.BidiCall.StepSender | handler.go:240-265 | each call of the sender goroutine is one step of the machine |
| Streams.BidiCall.StepReceiver | handler.go:267-289 | each call of the receive loop, and what follows it, is one step of the machine |
| Streams.BidiCall.Execute | handler.go:233-290 | any schedule on the shared variables is a run of the machine |
| Streams.ReportedMessages | benchmark_stream.go:104-106 | a stream that returned nil reports what it sent exactly when it was closed, and one message too many otherwise |
| Streams.LostMessage | benchmark_stream.go:104-106 | it happens: the only send meets EOF, the stream returns nil, and one message is reported, none was sent |
| Streams.StreamIOBenchmark.NextRequest | benchmark_stream.go:83-92 | requests in order, then EOF; the cursor advances with each |
| Streams.StreamIOBenchmark.HandleResponse | benchmark_stream.go:95-98 | responses are recorded in order |
| Streams.StreamIOInitializer.NextRequest | handler.go:359-376 | messages in order and recorded, then EOF for ever, or the reader's error |
| Streams.StreamIOInitializer.HandleResponse | handler.go:379-392 | a response is printed, or the error is not EOF |
| Streams.StreamIOInitializer.AllRequests | handler.go:397-405 | however many requests were read before, all messages are returned, once each; or the error |
| Streams.BenchmarkRequests | handler.go:96-111 | whatever a warm-up has read, the benchmark is given the whole input |
| Streams.MakeClientStream | handler.go:203-230 | what is sent, whether the stream is closed, which error is returned, for every outcome of every call |
| Streams.MakeServerStream | handler.go:163-200 | at most one request, sent only when the input holds no more; which responses are printed and which error is returned |
| Streams.PrintReplies | handler.go:187-199 | responses are printed in order until one fails; EOF is success |

## Left out

- ThriftRoundTrip.RoundTrip: map keys that are structs, lists, doubles, binaries or enums are excluded; doubles and binaries as field values are not.
- ThriftDefaults.ConstIsSent: constant maps keyed by doubles are excluded, since Go compares such keys by value and not by their bits; so are keys that are structs or containers, which panic.
- ThriftTermination.TerminatesIffCalm: maps keyed by structs or containers are excluded, since such a key is a whole value parsed from its text; keys of every scalar type are covered.
- ThriftTermination.TerminatesByTypes: one direction; a struct that is reachable from its own default's type may still end because of the values given. The exact condition is TerminatesIffCalm.
- Streams.EverySessionEnds: that each call into the transport returns once the context is done, and that NextRequest returns, is assumed.
- The Thrift binary byte format, envelopes, IDL compilation and the base64 wrapping of binary values on output.
- `{file: ...}` and base64 objects given for binary fields: one library function, whose result is arbitrary.
- The YAML and JSON libraries beyond decimal integers, booleans and plain strings as map-key text; a YAML text that fails to parse and still yields a boolean.
- Floating point: doubles on the wire are bit patterns; quantiles and the rate cap are exact.
- Go's call stack is a number of nested calls; its size in bytes is not modelled.
- Error wording, and which of several map entries a failing loop reports.
- strings.EqualFold is equality of an arbitrary fold; characters are bytes.
- Real clocks: the rate limiter uses a monotone virtual clock; reuse of a timer channel is not modelled.
- The Stop that a timer or an interrupt calls is any Stop, at any point of a schedule.
- sort.Sort is any correct sort, written as an insertion sort.
- Warm-up calls, connection set-up, statsd, the error summary, the requests per second and output formatting of a benchmark; integer overflow of counters.
- Looking services and messages up in the resolved descriptors, which visits a map in any order.
- The wait between stream requests and the delay before closing; opening the stream.
- Transports, reflection, tracing, peers, options, plugins and scripts.
