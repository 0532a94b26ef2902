# A verified model of the TCP gateway

The gateway accepts TCP connections, cuts their byte streams into frames, forwards the messages to an HTTP service
through a chain of middlewares, and writes frames back. Next to it lives a type-directed binary codec for the
messages. This project models the logic of both in Dafny and proves what it is meant to guarantee. `dafny verify
dfyconfig.toml` checks all of it.

**The codec** (`pkg/encoding`). `GoMemory` has the types the codec knows, the memory its values live in (objects
behind pointers, backing arrays of slices at their full capacity), and *unfolding*: the finite tree left of a value
once addresses and sharing are forgotten. `WireFormat` defines the encoding of trees and a decoder that reads every
part into a variable of its own, and relates the two. `Layout` spells the bytes out. `Encoder` says what `encode` does
to a memory graph, depth-triggered cycle detection included, and proves that this is the encoding of the unfolding;
`Faults` traces its errors to their causes; `EncodeStates` runs it, with the mutable state and the pool. `Decoder`
says what `decode` does to memory: one reused cell per array loop, shallow copies, appends in place, reused pointees,
on success and on failure; `DecodeStates` runs it. `Flatness`, `Reuse` and `InPlace` prove that this refines the
decoder into fresh variables, and `Refill` that it does so in a variable however often it is used. `TypeSafety`,
`Footprint` and `Codec` prove what holds of well-typed memory. `Untouched` says what a decode leaves alone. A type is
*flat* when no slice in it has elements through which a pointer or a non-byte slice leads to anything that carries
information; in particular, every type is flat whose slice elements hold no pointers and no slices other than byte
slices. `Sharing` and `RoundTrip` show that flatness is what decides whether values survive. `TypeCheck` is the check
on message types at registration.

**Frames** (`pkg/writer`, `pkg/agent`, `pkg/hot/hooks`). `Frames` has the layout and a parser for a stream in one
piece, `Reader` the read loop over arbitrary chunks, `Writers` the batching writer over an array that is appended to
in place.

**Agents and the gateway.** `Notify` is the protocol between the callers of `Agent.Write` and the write loop,
`Admission` the middleware chain and its in-flight counter, `SequenceId` the numbering of requests, `Registry` the map
of agents against the connection counter, `Lifecycle` kicks and the disconnect notice. Each is a state machine whose
steps are the atomic accesses of the source, and the theorems hold in every interleaving. `Histogram` is the bucketed
latency percentile, and `Crc` the keyed checksum.

## Findings

What a reader of the source may not expect, each with a lemma in the table below:

- A slice of pointers to structs with fields, or of structs that hold slices of such, passes the registration check
  and does not survive `Marshal` followed by `Unmarshal`: the elements decoded share one pointee or one backing array,
  and no error is reported (`RoundTrip.LossIsSilent`, `TypeCheck.RegisteredTypeLosesValues`,
  `RoundTrip.RoundTripsExactlyWhenFlat`).
- `int8` passes the registration check and makes `encode` panic, and so does every named basic type, such as `type
  Level int32`: the check goes by kinds, the codec by types. So does a field whose name starts neither with an
  upper-case letter nor with a to z, such as `_x`: the check and the codec skip only names from a to z, and the
  reflect package panics on the others that Go does not export
  (`TypeCheck.RegistrationPreventsPanicsExactlyWhenSound`, `TypeCheck.BarredFieldIsRegisteredAndPanics`).
- The comment at `pkg/encoding/encode.go:30` allows pointers to slices; the registration check refuses them
  (`pkg/encoding/types.go:23`), `encode` and `decode` handle them. The model follows the code in each place
  (`TypeCheck.PointerToSliceIsRefusedNeedlessly`).
- The upper bound on sequence numbers fails when two requests overlap at the wrap (`SequenceId.OverlapLeavesRange`),
  and then for two billion requests on end (`SequenceId.OvershootLasts`); it holds exactly for schedules in which each
  add has a swap of its own (`SequenceId.RangeExactlyWhen`).
- No frame is stranded in the buffer if and only if a wake-up token is discarded only while another is queued. The
  ticker of five milliseconds makes that likely and does not enforce it (`Notify.GuardIsExact`).
- `AddAgent` trims the identifier and `RemoveAgent` does not (`Registry.RemoveUndoesAdd`); generated identifiers have
  no spaces.

## Model

| member | source | states |
|---|---|---|
| `Codec.MarshalThenUnmarshal` | `pkg/encoding/decode.go:169-174` | round trip: if a value of a flat type marshals to b, unmarshalling b followed by anything into a zero variable, in any memory, succeeds at offset length of b, changes nothing that existed, and yields a value with the same unfolding |
| `Codec.UnmarshalThenMarshal` | `pkg/encoding/encode.go:190-199` | normalisation: whatever a flat type decodes from n bytes, into any well-typed memory without slice-only cycles, marshals again, to n bytes, equal to those consumed except that a non-zero boolean byte becomes 1; identical exactly when every boolean byte was 0 or 1 |
| `Codec.MarshalSucceedsExactlyOnCleanValues` | `pkg/encoding/encode.go:64-188` | on well-typed values of supported types, which may reach themselves in any way, with any sharing and any cycles through pointers, Marshal never panics, and succeeds exactly when the unfolding is finite and has no nil pointer, no NUL in a string and no slice of more than 65535 elements |
| `Codec.BarredFieldStopsMarshal` | `pkg/encoding/encode.go:161-166` | a field that is not skipped although Go does not export it, such as _x, is never got past: Marshal fails, by the panic of the reflect package if nothing before it is visited |
| `Layout.NumberBytes` | `pkg/encoding/encode.go:73-99` | the wire bytes of a number, digit by digit: one byte for a byte, two for 16-bit kinds, four for 32-bit kinds and float32, eight for float64, least significant first, in two's complement |
| `Layout.NumberRanges` | `pkg/encoding/encode.go:73-99` | which numbers a variable of each kind holds, with the limits written out |
| `Layout.PrefixBytes` | `pkg/encoding/encode.go:112-113` | a length prefix is two bytes, least significant first |
| `Layout.WireBytes` | `pkg/encoding/encode.go:64-116` | the wire bytes of booleans, strings, byte slices, slices, structs and pointers, with the length prefixes spelled out |
| `Layout.PartsInOrder` | `pkg/encoding/encode.go:157-188` | fields and elements lie on the wire in their order |
| `Layout.HeaderBytes` | `pkg/writer/writer.go:29-35` | the ten header bytes of a frame, digit by digit: two of identifier, four of size, four of number, each least significant first |
| `Layout.HeaderCheck` | `pkg/hot/hooks/hooks.go:14-42` | a header is accepted exactly if its identifier is 1000 to 60000 and its size 10 to 1048576, and a bad identifier is reported before a bad size |
| `RoundTrip.RoundTripsExactlyWhenFlat` | `pkg/encoding/decode.go:147-167` | Marshal then Unmarshal is the identity on all encodable values of a type if and only if the type is flat, whatever the growth policy of slices |
| `RoundTrip.LossIsSilent` | `pkg/encoding/decode.go:155-164` | for every type that is not flat, a value of it whose encoding Unmarshal reads to the end and reports as decoded, but into a value that unfolds to something else, because the loop appends shallow copies of one reused cell |
| `Encoder.MarshalExact` | `pkg/encoding/encode.go:64-155` | on every heap without dangling references and slice-only cycles, encode succeeds if and only if the value has a finite encodable unfolding, then writes exactly the wire form of the unfolding, and reports a cycle only when there is no finite unfolding |
| `Encoder.WalkIsTreeWalk` | `pkg/encoding/encode.go:117-138` | where the unfolding is finite, encode on the shared graph has the bytes and the first error of encoding the tree, at every nesting level and with every set of recorded ancestors: sharing is never reported as a cycle |
| `Encoder.SuccessUnfolds` | `pkg/encoding/encode.go:117-155` | a successful encode has seen a finite unfolding, so a cycle cannot succeed |
| `Encoder.BudgetDrops` | `pkg/encoding/encode.go:122-138` | the measure that makes encode terminate on every heap: each followed pointer uses up a level below 100 or a pointer not yet recorded |
| `Encoder.DetectionStartsAtDepth100` | `pkg/encoding/encode.go:117-138` | above depth 100 pointers are followed unrecorded; from there on a pointer is recorded, and reported as a cycle if it comes again |
| `Encoder.MarshalPrefixFree` | `pkg/encoding/encode.go:64-188` | of two values of one supported type, nested slices and pointers included, one encoding is a prefix of the other only if the unfoldings are equal; so encodings are injective |
| `WireFormat.EncTreeExact` | `pkg/encoding/encode.go:64-116` | the encoder on trees succeeds exactly on encodable trees, writes their wire form, and has no cycle error |
| `WireFormat.WirePrefixFree` | `pkg/encoding/encode.go:64-188` | wire forms of one type are prefix-free |
| `Faults.FaultNeedsCause` | `pkg/encoding/encode.go:64-188` | encode reports no error but the cycle error, and does not panic, unless its cause is in a value the walk can reach: a nil pointer, a NUL, an over-long slice, an unknown kind or a barred field |
| `Faults.CycleExactlyWhenInfinite` | `pkg/encoding/encode.go:117-138` | where nothing else is wrong, the cycle error is reported if and only if there is no finite unfolding, and no other error is |
| `EncodeStates.EncodeState.constructor` | `pkg/encoding/encode.go:61` | a fresh state has an empty buffer, level zero and no recorded pointer |
| `EncodeStates.EncodeState.WriteUint` | `pkg/encoding/encode.go:76-99` | the scratch space carries the little-endian bytes of the number to the end of the buffer |
| `EncodeStates.EncodeState.Encode` | `pkg/encoding/encode.go:64-155` | appends exactly the bytes, and returns the error, of the specification function Walk for the current level and recorded pointers; restores both on success and on error |
| `EncodeStates.EncodeState.EncodePointer` | `pkg/encoding/encode.go:117-138` | following a pointer: level and recorded set are restored by the deferred steps, the bytes are those of Followed; the recorded set is always exactly the current path beyond depth 100 |
| `EncodeStates.EncodeState.EncodeTarget` | `pkg/encoding/encode.go:139-154` | the kind switch after a pointer has been followed, with the same balance |
| `EncodeStates.EncodeState.EncodeStruct` | `pkg/encoding/encode.go:157-172` | the field loop writes the exported fields in order and stops at the first error, with the same balance |
| `EncodeStates.EncodeState.EncodeArray` | `pkg/encoding/encode.go:174-188` | the element loop writes the length and the elements in order and stops at the first error, with the same balance |
| `EncodeStates.EncodeState.EncodeByteArray` | `pkg/encoding/encode.go:174-188` | byte by byte, the loop writes what the direct case for byte slices writes |
| `EncodeStates.BalancedPush` | `pkg/encoding/encode.go:122-135` | recording a pointer that is not yet recorded, and deleting it again, gives back the recorded set of the path |
| `EncodeStates.Marshaller.NewEncodeState` | `pkg/encoding/encode.go:51-62` | a state from the pool, whatever it did before, is as good as a new one, and the pool check never panics |
| `EncodeStates.Marshaller.Marshal` | `pkg/encoding/encode.go:190-199` | after any history of calls the bytes and the error are those of a fresh state; success if and only if there is a finite encodable unfolding, and then its wire form |
| `Reuse.FlatElementInto` | `pkg/encoding/decode.go:25-127` | whatever a reused cell of a flat element type held before, decoding into it gives what decoding into a fresh variable gives, and disturbs nothing that earlier elements share with it |
| `Reuse.FlatElemsInto` | `pkg/encoding/decode.go:157-165` | the loop over the reused cell with in-place appends of shallow copies refines decoding every element into a variable of its own: same success, same offset, same elements |
| `InPlace.FlatArrayInto` | `pkg/encoding/decode.go:147-167` | the whole array decoder, started over in the backing array of a used slice or on a nil one, refines fresh-variable decoding for flat element types on every input |
| `InPlace.RefillInto` | `pkg/encoding/decode.go:25-145` | for every flat type, input and memory, and every used variable that shares nothing with itself, decode agrees with fresh-variable decoding on success and offset, changes only what the variable leads to, and leaves a value that unfolds to the decoded tree |
| `InPlace.FlatInto` | `pkg/encoding/decode.go:25-145` | the same into a zero variable: existing memory is left alone, and the value is made of new memory |
| `Refill.StaysPrivate` | `pkg/encoding/decode.go:94-167` | success or failure, a decode leaves the variable sharing nothing with itself |
| `Refill.RefillRecovers` | `pkg/encoding/decode.go:169-174` | whatever inputs have been unmarshalled into a variable of a flat type before, successfully or not, an input that starts with the encoding of a value is then read into it as that value |
| `Untouched.SkippedNames` | `pkg/encoding/decode.go:133-137` | the fields skipped are those whose name starts with one of the 26 letters a to z |
| `Untouched.IntoKeeps` | `pkg/encoding/decode.go:109-145` | whatever the input, success or failure, a decode into any well-typed variable of any supported type leaves the skipped fields of the variable, and of every object in memory, at every depth, as they were, and keeps every pointer that is not nil |
| `Untouched.BasicIsAllOrNothing` | `pkg/encoding/decode.go:25-108` | a basic value that cannot be read whole leaves its variable and all memory as they were |
| `Untouched.PointerIsSetFirst` | `pkg/encoding/decode.go:113-118` | a pointer is set before anything is decoded through it, and stays set if that fails |
| `Untouched.LengthComesFirst` | `pkg/encoding/decode.go:147-167` | without its length an array is left alone, and a byte slice behind a pointer keeps the bytes that are there |
| `Untouched.StructStopsAtField` | `pkg/encoding/decode.go:129-145` | a struct that fails does so in one field: the fields before it are decoded as if they were the whole struct, those after it are unchanged |
| `Untouched.ArrayStopsAtElement` | `pkg/encoding/decode.go:157-166` | an array that fails does so in one element, and leaves the slice it would leave if it had only the elements before |
| `Decoder.ZeroIsZero` | `pkg/encoding/decode.go:114-116` | a new object is false, 0, empty or nil in every visited part |
| `WireFormat.FindNul` | `pkg/encoding/decode.go:83-93` | the first zero byte at or after the offset, or the end |
| `WireFormat.Decode` | `pkg/encoding/decode.go:25-127` | decoding terminates on every input for every type that recurses through slices only, by bytes left, type rank and elements left; the offset never decreases and never passes the end |
| `Decoder.Into` | `pkg/encoding/decode.go:25-127` | the same for the decoder that acts on memory, whatever the target variable holds |
| `Decoder.Append` | `pkg/encoding/decode.go:163-164` | append adds one element at the end, within the capacity in place and otherwise in a larger copy |
| `WireFormat.DecodeWire` | `pkg/encoding/decode.go:25-167` | decoding undoes encoding for every supported type, wherever in the input the encoding lies |
| `WireFormat.DecodeThenWire` | `pkg/encoding/decode.go:25-167` | what was decoded has the type and is encodable, and its wire form is what was consumed, up to boolean bytes |
| `WireFormat.ReencodeIsIdentity` | `pkg/encoding/decode.go:27-33` | encoding what was decoded reproduces the input exactly when every boolean byte is 0 or 1 |
| `WireFormat.DecodeNeedsAll` | `pkg/encoding/decode.go:25-167` | a success that consumes n bytes depends on those alone, and fails on every shorter prefix |
| `DecodeStates.DecodeState.Decode` | `pkg/encoding/decode.go:25-127` | the running decoder returns what the specification function Into says, and leaves offset, memory and target as it says, on success and on failure |
| `DecodeStates.DecodeState.IndexByte` | `pkg/encoding/decode.go:87-90` | the scan finds the first zero byte from the offset on |
| `DecodeStates.DecodeState.DecodePointer` | `pkg/encoding/decode.go:109-118` | a nil pointer is replaced by a new zero object, a non-nil one is decoded through |
| `DecodeStates.DecodeState.DecodeStruct` | `pkg/encoding/decode.go:129-145` | the field loop stores each exported field in place and stops at the first error |
| `DecodeStates.DecodeState.DecodeArray` | `pkg/encoding/decode.go:147-167` | the array loop resets the slice, reuses one cell, appends in place, and leaves the elements read so far on error |
| `DecodeStates.DecodeState.AppendTo` | `pkg/encoding/decode.go:163-164` | one in-place or growing append |
| `DecodeStates.DecodeState.DecodeByteArray` | `pkg/encoding/decode.go:147-167` | the same loop over a byte slice behind a pointer |
| `DecodeStates.Unmarshal` | `pkg/encoding/decode.go:169-174` | into a zero variable of a flat type: no panic, existing memory untouched, whatever encodable value the input starts with is recovered, and whatever is recovered is what the consumed bytes encode |
| `DecodeStates.UnmarshalFlat` | `pkg/encoding/decode.go:169-174` | the same as a statement about the specification function, for every memory |
| `TypeSafety.IntoTyped` | `pkg/encoding/decode.go:25-167` | decoding into any well-typed variable of any supported type keeps memory well typed, grows it only, and leaves a value of the type |
| `TypeSafety.DecodeIsTypeSafe` | `pkg/encoding/decode.go:109-127` | into any well-typed variable, used or new, of any supported type, flat or not, decode never panics, and succeeds and advances exactly as decoding into fresh variables does |
| `TypeSafety.SuccessNeedsItsBytes` | `pkg/encoding/decode.go:25-167` | the in-place decoder depends only on the bytes it consumed: any input starting with them is consumed as far, every shorter piece of them fails |
| `TypeSafety.UnfoldingHasType` | `pkg/encoding/encode.go:17-32` | a well-typed value unfolds to trees of its type only |
| `Footprint.ZeroTargetExtends` | `pkg/encoding/decode.go:169-174` | for every supported type, flat or not, decoding into a zero variable changes nothing that existed |
| `Footprint.ZeroTargetStaysClosed` | `pkg/encoding/decode.go:169-174` | and invents no reference |
| `Sharing.IntoParses` | `pkg/encoding/decode.go:25-167` | short of a panic, the in-place decoder and the fresh-variable decoder succeed together and stop at the same offset, for every supported type |
| `TypeCheck.CheckIsExact` | `pkg/encoding/types.go:9-53` | a type is accepted exactly when none of its parts, fields and elements in turn, is of an unknown kind or a pointer to something other than a struct |
| `TypeCheck.RegistrationIsExact` | `pkg/encoding/types.go:9-63` | registration accepts exactly the pointers to structs without objectionable parts, and each of its errors has its cause in a part |
| `TypeCheck.RegistrationPreventsPanicsExactlyWhenSound` | `pkg/encoding/types.go:9-63` | an accepted type rules out the panic of encode for all of its values exactly when no int8 and no named basic type occurs in it, and no struct with a field whose name starts neither with an upper-case letter nor with a to z |
| `TypeCheck.BarredFieldIsRegisteredAndPanics` | `pkg/encoding/types.go:37-47` | struct{ _x int32 } is accepted, and encode panics on every pointer to one that is not nil |
| `TypeCheck.RegisteredTypesAreSupported` | `pkg/encoding/types.go:9-63` | accepted types on none of whose parts encode panics are among those the codec theorems speak of |
| `TypeCheck.PointerToSliceIsRefusedNeedlessly` | `pkg/encoding/types.go:21-25` | a pointer to a slice is refused, although the codec supports it and its values survive the round trip exactly when the elements are flat |
| `TypeCheck.RegisteredTypeLosesValues` | `pkg/encoding/types.go:30-34` | an accepted type, a slice of struct pointers in a struct, whose values do not survive the round trip |
| `Frames.HeaderReadsBack` | `pkg/writer/writer.go:29-35` | the id, size and sequence fields read back as written, the size modulo 2^32 |
| `Frames.ParseStream` | `pkg/agent/agent.go:177-218` | acceptable frames are recovered in order, and what follows is read as if it came alone |
| `Frames.ParseSplits` | `pkg/hot/hooks/hooks.go:25-42` | everything delivered came as a complete acceptable frame, and the rest of the stream delivers nothing and stops for the same reason |
| `Frames.ParsePrefix` | `pkg/agent/agent.go:177-206` | a stream cut short delivers a prefix of what the whole one delivers |
| `Frames.TrailingIsDropped` | `pkg/agent/agent.go:190-206` | a cut-off frame and a frame with a refused header are never delivered, and reading stops with the end of the stream or with the error of the header |
| `Reader.Conn.ReadFull` | `pkg/agent/agent.go:180-187` | exactly the next n bytes of the stream whatever the chunks, or failure exactly when fewer are left |
| `Reader.LoopRead` | `pkg/agent/agent.go:169-219` | what reaches the plugin chain, and why the loop stops, is a function of the bytes of the stream and of what each look at the disable flag finds; the body size never underflows |
| `Reader.ForwardedUntilDisabled` | `pkg/agent/agent.go:212-218` | if the flag is found clear d times and set from then on, exactly the first d messages are handed to the chain |
| `Reader.ChunkingIsInvisible` | `pkg/agent/agent.go:176-206` | acceptable frames cut into chunks in any way are delivered as exactly the framed messages |
| `Writers.Writer.constructor` | `pkg/writer/writer.go:16-22` | a new writer has nothing buffered and no error |
| `Writers.Writer.Write` | `pkg/writer/writer.go:24-42` | appends exactly one frame unless the writer has failed; batches popped earlier keep their bytes although the backing array is reused |
| `Writers.Writer.MakeFrame` | `pkg/writer/writer.go:29-35` | ten header bytes, little endian, and the body; the size field wraps at 2^32 |
| `Writers.Writer.AppendBytes` | `pkg/writer/writer.go:39` | in place exactly while the capacity lasts, otherwise in a larger array |
| `Writers.Writer.Pop` | `pkg/writer/writer.go:44-62` | hands out a copy of the buffered bytes in an array of its own and empties the buffer, which keeps its array exactly if that has at most 262144 bytes |
| `Writers.Writer.Flush` | `pkg/writer/writer.go:64-74` | hands the oldest batch to the connection, possibly in part, and remembers an error for good |
| `Writers.StreamSafety` | `pkg/writer/writer.go:24-74` | in every run of Write, Pop and Flush, failed flushes included, the bytes sent are a prefix of the frames in append order; without an error, sent, popped and buffered bytes together are exactly those frames |
| `Writers.PeerReceivesPrefix` | `pkg/writer/writer.go:24-74` | in every run, a peer parsing what was sent has been given a prefix of the messages written, and all of them once everything is flushed |
| `Writers.RunIsItsOperations` | `pkg/writer/writer.go:24-74` | in every run: an error exactly after a flush that failed; until then every frame written is in the log, those since the last pop are in the buffer, every pop has handed out one batch, and as many bytes are sent as the flushes took |
| `Writers.CanBeDrained` | `pkg/writer/writer.go:44-74` | from every state without error, pops and flushes lead to one in which everything written is sent |
| `Notify.NextKeepsInv` | `pkg/agent/agent.go:229-271` | every step of every caller and of the write loop keeps the wake-up invariant |
| `Notify.NoLostWakeUp` | `pkg/agent/agent.go:254-271` | in every interleaving of any number of callers with the loop, a non-empty buffer means a queued token, a caller about to notify, or a loop about to pop; without error flushed, popped and buffered frames are the written ones |
| `Notify.QuietMeansFlushed` | `pkg/agent/agent.go:229-251` | no call under way and the loop waiting on an empty channel: every frame written has been flushed |
| `Notify.QuietPeerHasEverything` | `pkg/agent/agent.go:229-251` | then a peer that reads the bytes sent, in any chunks, has exactly the messages written, in append order |
| `Notify.RunsDry` | `pkg/agent/agent.go:229-271` | without new calls the protocol comes to rest within a bounded number of steps under any scheduling, and a living loop has then flushed everything |
| `Notify.GuardIsExact` | `pkg/agent/agent.go:261-268` | frames are never stranded if and only if a token is discarded only while at least one is queued; the full queue of the comment is more than enough, a bare timeout is not |
| `Notify.ProtocolDrivesWriter` | `pkg/agent/agent.go:229-271` | in every interleaving of the callers with the loop, failed and partly accepted flushes included, the byte-level writer goes through one of its runs |
| `Notify.SentIsPrefix` | `pkg/agent/agent.go:229-271` | so at every moment of every interleaving the bytes put on the connection are a prefix of the frames in append order, and a peer has been given a prefix of the messages |
| `Notify.CallsWriteTheirFrames` | `pkg/agent/agent.go:254-259` | in every interleaving the frames written are those the calls were given, one for each append and in that order |
| `Notify.LoopRunsUntilTheEnd` | `pkg/agent/agent.go:229-251` | the write loop is gone exactly after a cancellation or a failed flush, and only a failed flush leaves an error |
| `Notify.NobodyIsStuck` | `pkg/agent/agent.go:254-271` | what can happen next for each caller and for the loop, with five places in the channel |
| `Admission.Use` | `pkg/interfaces/interfaces.go:42-49` | the backward loop composes the middlewares with the first one outermost |
| `Admission.PluginsMainOrder` | `pkg/hot/plugins/plugins.go:24` | the chain, outermost first: limiter, spawn, end of the limit, stress test, latency log, forward |
| `Admission.RequestStep` | `pkg/hot/plugins/plugins.go:51-148` | every step of a request, early return and panic included, moves the counter exactly as the request enters or leaves flight |
| `Admission.NextKeepsInv` | `pkg/hot/plugins/plugins.go:51-114` | every step keeps the counter equal to the requests in flight |
| `Admission.AdmissionIsCounted` | `pkg/hot/plugins/plugins.go:51-114` | in every interleaving, panics included, the counter is the number of admitted requests whose end has not run, lies within 0 and 11, and each finished request has given back what it took |
| `Admission.AdmittedExactlyBelowLimit` | `pkg/hot/plugins/plugins.go:51-148` | in every interleaving a message that has left the reader was counted and given to a goroutine exactly if the limiter found at most 10 in the counter; and a goroutine that is done has forwarded its message once, or not at all exactly if StressTest answered it |
| `Admission.LimiterReadsCounter` | `pkg/hot/plugins/plugins.go:64-73` | what the limiter finds is the counter at that moment, and it goes on to the add exactly if that is at most 10 |
| `Admission.EveryArrivalIsARequest` | `pkg/agent/agent.go:212-218` | in every interleaving each message that arrives enters the chain |
| `Admission.SomeoneCanMove` | `pkg/hot/plugins/plugins.go:51-114` | in every interleaving the reader can take a message or go on with the last one, and every admitted message can go on until it is done |
| `Admission.EveryStepCounts` | `pkg/hot/plugins/plugins.go:51-148` | and each step brings the goroutine closer to its end |
| `SequenceId.EqualNumbersAreFarApart` | `pkg/hot/plugins/plugins.go:159-163` | under every interleaving of the swaps and adds, from any start and through the uint32 wrap, equal numbers are at least MaxInt32-10000 = 2147473647 adds apart |
| `SequenceId.SerialNumber` | `pkg/hot/plugins/plugins.go:157-163` | one request at a time, the numbers count 1 to MaxInt32-10000 round and round |
| `SequenceId.SerialStaysInRange` | `pkg/hot/plugins/plugins.go:157-163` | one request at a time, all numbers lie in 1 to MaxInt32-10000 |
| `SequenceId.RangeExactlyWhen` | `pkg/hot/plugins/plugins.go:161-162` | a schedule keeps the numbers in 1 to MaxInt32-10000, from every start, if and only if between any add and the one before it there is a swap |
| `SequenceId.OvershootLasts` | `pkg/hot/plugins/plugins.go:161-162` | once the limit has been stepped over no swap sets the counter back, and all numbers stay above it until the uint32 wraps |
| `SequenceId.OverlapLeavesRange` | `pkg/hot/plugins/plugins.go:161-162` | two overlapping requests can step over the limit |
| `Registry.Gateway.constructor` | `pkg/gateway/gateway.go:40-45` | an empty registry |
| `Registry.Gateway.AddAgent` | `pkg/gateway/gateway.go:317-334` | succeeds exactly if the trimmed identifier is neither empty nor registered, and then adds exactly that entry; the error for an empty one is BadUID, for a registered one Duplicated |
| `Registry.Gateway.RemoveAgent` | `pkg/gateway/gateway.go:336-352` | succeeds exactly if the identifier, untrimmed, is registered and not blank, and then removes and returns exactly that entry |
| `Registry.Gateway.GetAgent` | `pkg/gateway/gateway.go:354-368` | finds exactly the entry that removal would remove |
| `Registry.RemoveUndoesAdd` | `pkg/gateway/gateway.go:317-352` | removal under the same identifier undoes an addition exactly when the identifier has no surrounding space |
| `Registry.TrimSpaceCutsSpace` | `pkg/gateway/gateway.go:318` | trimming cuts space from both ends and nothing else, until none is left there |
| `Registry.NextKeepsInv` | `pkg/gateway/gateway.go:260-281` | every step of accepting and finalizing keeps registry and counter in step |
| `Registry.RegistryMatchesCounter` | `pkg/gateway/gateway.go:271-279` | in every interleaving the map size is the connection counter plus agents between add and increment plus agents between decrement and removal, and the counter is never negative |
| `Registry.RemovedOnceAndAlone` | `pkg/agent/agent.go:153-155` | a finalizer removes its own agent and nothing else, and each agent is removed once, even if identifiers were to repeat |
| `Registry.AcceptedExactlyWhenUnused` | `pkg/gateway/gateway.go:260-279` | in every interleaving a generated identifier is registered exactly if it is not empty and no connection that is still there has it |
| `Registry.CounterIsLedger` | `pkg/gateway/gateway.go:271-279` | the connection counter is what was added less what was taken off |
| `Registry.ComesAndGoes` | `pkg/gateway/gateway.go:260-279` | a connection under an unused identifier can come and go, step by step, and leaves registry and counter as they were |
| `Lifecycle.AtMostOneNotice` | `pkg/agent/agent.go:146-166` | at most one disconnect notice per agent, and none before cancellation |
| `Lifecycle.WhileDisabled` | `pkg/agent/agent.go:158-166` | what a set flag means while nobody clears it: no new message passes the check, and an undecided finalizer stays silent |
| `Lifecycle.AtMostOneStraggler` | `pkg/agent/agent.go:212-218` | after Disable at most one more message enters the plugin chain, the one already past the check |
| `Lifecycle.DisableSuppressesNotice` | `pkg/gateway/gateway.go:161-168` | a Disable before the finalizer has looked, not taken back, suppresses the notice for good |
| `Lifecycle.KickIsSilent` | `pkg/gateway/gateway.go:93-94` | so kicking a live agent is never reported as a disconnect |
| `Lifecycle.UnkickedIsReported` | `pkg/agent/agent.go:158-165` | without a Disable every finished finalizer has attempted the notice |
| `Lifecycle.EntersExactlyWhenClear` | `pkg/agent/agent.go:212-218` | in every interleaving exactly the messages that found the flag clear have entered the chain, but for one about to |
| `Lifecycle.EveryMessageEnters` | `pkg/agent/agent.go:212-218` | until the flag is set for the first time every message that arrives enters the chain |
| `Lifecycle.FlagIsLastWrite` | `pkg/agent/agent.go:103-117` | the flag is what Disable, Enable or the finalizer wrote last |
| `Lifecycle.CancelledByCloseOrReader` | `pkg/agent/agent.go:61-101` | the agent is cancelled exactly after a Close or the end of the read loop, which ends once |
| `Lifecycle.FinalCheckDecides` | `pkg/agent/agent.go:157-165` | the flag as the finalizer finds it decides between exactly one notice and none |
| `Lifecycle.NobodyIsStuck` | `pkg/agent/agent.go:61-117` | the read loop, and after a cancellation the finalizer, can always go on |
| `Histogram.P99.constructor` | `pkg/metric/metric.go:47-54` | a histogram without samples |
| `Histogram.P99.Reset` | `pkg/metric/metric.go:56-62` | forgets all samples |
| `Histogram.P99.In` | `pkg/metric/metric.go:64-74` | records the sample, unless it lies above the last bucket |
| `Histogram.P99.Out` | `pkg/metric/metric.go:76-93` | the smallest bucket that at least 99 in 100 of the samples do not exceed, and 0 exactly when there are none |
| `Histogram.InKeepsCounts` | `pkg/metric/metric.go:65-72` | counting a sample in the first bucket at or above it keeps every prefix sum equal to the number of samples at or below its bucket |
| `Histogram.P99IsPercentile` | `pkg/metric/metric.go:84-90` | that bucket is the smallest at or above the ceil(0.99 n)-th smallest sample |
| `Histogram.MillisecondsAreValid` | `pkg/metric/metric.go:36` | the buckets in use are positive and strictly increasing, and exactly the samples above 9999999999 are dropped |
| `Histogram.BucketsAreClose` | `pkg/metric/metric.go:36` | a latency of 1 ms to 10 s is rounded up to at most two and a half times its length |
| `Histogram.ProtoP99.In` | `pkg/metric/metric.go:95-108` | records the sample under its protocol only, making the histogram on first use |
| `Histogram.ProtoP99.Out` | `pkg/metric/metric.go:110-125` | reports exactly the protocols with samples, each with its percentile |
| `Histogram.ProtoP99.Reset` | `pkg/metric/metric.go:127-136` | forgets the samples of every protocol |
| `Crc.KeyIsInvertible` | `pkg/encoding/crc.go:5-22` | the key table is a permutation of the bytes |
| `Crc.KeyByteIsEntry` | `pkg/encoding/crc.go:24-26` | the key byte is the entry of the table at the index modulo 256 |
| `Crc.KeyedCrcIsCrc32` | `pkg/encoding/crc.go:24-26` | the table-driven update, continued over the key byte, is the bitwise CRC-32 of the message followed by the key byte (section 8 of RFC 1952) |
| `Crc.IndexMatters` | `pkg/encoding/crc.go:24-26` | two message indices give the same checksum exactly when they agree modulo 256 |
| `Crc.BurstDetected` | `pkg/encoding/crc.go:24-26` | any change confined to four consecutive bytes changes the checksum |
| `Crc.CheckValue` | `pkg/encoding/crc.go:24-26` | the CRC-32 of the bytes ff ff ff ff 80 is 12477cdf, which fixes polynomial, preset, inversion and bit order |

## Left out

- Notify.NoLostWakeUp: assumes that a token is discarded only when at least `least > 0` tokens are queued, which is what the comment at `pkg/agent/agent.go:261` says and a ticker cannot promise; `Notify.GuardIsExact` shows that the assumption is needed and how much of it.
- Crc.KeyedCrcIsCrc32: words are sequences of 32 booleans, least significant first; that the library's table-driven and slicing implementations equal the one-byte table step is its documented contract.
- WireFormat.Decode: asks for a rank on struct types that ignores slices, as `decode` into a struct type that contains itself through pointers alone does not return; the theorems about `encode` ask for none, but for those that go by way of decoding, such as prefix-freeness. No value of such a type has a finite unfolding without nil pointers, so none can be encoded.
- TypeCheck.CheckIsExact: on struct types that contain themselves, even through slices, the check of the source does not return; the model asks for a finite nesting depth.
- Byte slices are values: the loop that decodes one behind a pointer writes into its old backing array in place, which an alias of that array would see.
- Addresses: distinct objects have distinct addresses, so zero-size objects at one address and pointers into the middle of another object are not covered.
- Interface-typed fields: the type switch goes by what they hold; here they are of the opaque kind, on which `encode` panics.
- Named types of byte slices: written element by element, to the same bytes; a slice of bytes is one type here.
- Decoder.Into: asks for a supported type; on `int8`, named basic types, the opaque kind and barred fields `decode` panics like `encode`, and nothing is claimed.
- Which letters Unicode counts as upper-case: a letter of a name comes with that bit.
- Floats are bit patterns; the conversion of signalling NaNs is not considered.
- Slices of one array at different offsets: every slice starts at the beginning of its backing array.
- The capacity append chooses is an arbitrary function of type and length; all theorems hold for all such functions.
- MarshalToWriter: the same walk as Marshal, with one write to an `io.Writer` and the same pooling.
- Error texts: errors are constructors of a datatype, without the path of fields that the source wraps around them.
- Body lengths of 2^32 - 10 and more: the size field wraps, as in the source; the theorems about readers ask for bodies the reader accepts.
- hookBody: it never refuses anything. PluginsMain: it never returns an error to the read loop, as the end of the chain runs in a goroutine of its own; so the read loop stops only at the stream's end or at a refused header.
- Data races: every access to `err`, `disable` and the counters is one atomic step, and two creations of one `P99` in a race, marked in the source, are left out.
- Histogram.P99.Out: the comparison of the quotient with 0.99 is made on integers, 100 * sum >= 99 * count, not on float64.
- A request without a stored sequence counter, such as the disconnect notice of an agent that never sent anything, carries the number 0.
- GenerateAgentUID: identifiers are arbitrary strings of digits and underscores, not assumed unique; clock and random part are left out.
- Gateway.Close: it sets the map to nil while connections may still be accepted; registry runs end before it.
- HTTP handlers, JSON, base64, the HTTP client, discovery, object storage, alerts, configuration, runtime metrics, deadlines and sleeps, the broadcast interval, and the stress clients.
