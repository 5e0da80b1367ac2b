# Xatu sidecar core, modelled in Dafny

This project models the sequential logic of `XatuSidecarCore`, the part of the
Teku xatu plugin that turns accepted gossip messages into flat events, queues them,
and hands them in batches of at most 100 to the native xatu library. The model is
functional: the core is an immutable record and every entry point is a pure
transition function.

- **Lifecycle.** `Sidecar.Core` holds the `initialized` and `shutdown` flags,
  the scheduler state, the event queue, both transport-peer counters, and a log of
  every native call (`Init`, `SendEventBatch`, `Shutdown`) with its argument.
  `Initialize`, `OnGossipMessageAccepted`, `FlushBatch`, `ScheduledFlush` and
  `Shutdown` are the transitions. The two counter getters read the record's
  `transportPeerPresentCount` and `transportPeerMissingCount` fields.
- **Batch drain.** `Batching.DrainFrom` follows the source loop as written. Each
  round polls the queue before it checks `count < BATCH_SIZE`. With more than 100
  events queued, the drain batches 100 and also removes the 101st, which is never
  sent. The model keeps this behaviour. `Sidecar.FlushOfOverfullQueueLosesOne`
  states the loss. `Sidecar.RunLosesNothing` proves that a single sequential caller
  cannot reach it: the queue is always below 100 before each step, so every accepted
  event is sent or still queued, in order. A queue above 100 needs producers that
  run concurrently with the flush.
- **Topic parser.** `SubnetTopic.ExtractSubnetId` uses `String.indexOf`,
  `substring` and `Long.parseLong`. All three are written out
  (`JavaStrings`, `Decimal`), including overflow and sign handling.
- **Classification.** `Events.ConvertToXatuEvent` maps the five handled message
  kinds to typed event records and maps every other kind to none. Slots are
  `UInt64` values. They are read through `longValue()`, which is a
  two's-complement reinterpretation, and divided by 32 with Java's truncating
  division.
- **Runtime configuration.** `RuntimeConfig.Resolve` builds the document that
  `initialize` passes to the native `Init`. The parsed YAML is a small
  Jackson-like tree (`JsonTree`). The tree comes with the three accessors the
  source uses, with Jackson's conventions: `get` on a non-object gives null,
  `asText` of a null node is `"null"`, and `asBoolean` accepts booleans,
  non-zero integers and a trimmed `"true"`/`"false"`.

Opaque inputs become parameters:
- the parsed user configuration, or a read failure;
- the `XATU_LOG_LEVEL` environment variable;
- the native `Init` result code;
- the node's version string.

`initialize` does not look at the `shutdown` flag. A core that was never initialized
can still call the native `Init` after `shutdown`. It then fails, because the stopped
scheduler rejects the periodic flush (`Sidecar.InitializeAfterShutdownFails`). A core
shut down after a successful start still has `initialized` set, so `initialize`
answers true without doing anything (`Sidecar.InitializeAfterShutdownOfStartedCore`).

## Model

| member | source | states |
|---|---|---|
| JavaNumbers.LongValue | plugins/xatu/src/main/java/tech/pegasys/teku/plugin/xatu/XatuSidecarCore.java:229-232 | `UInt64.longValue()` keeps the value modulo 2^64 and is non-negative exactly for values below 2^63 |
| JavaNumbers.LongInc | plugins/xatu/src/main/java/tech/pegasys/teku/plugin/xatu/XatuSidecarCore.java:198-202 | `incrementAndGet` adds one below `Long.MAX_VALUE` and wraps to `Long.MIN_VALUE` from it |
| JavaStrings.IndexOf | plugins/xatu/src/main/java/tech/pegasys/teku/plugin/xatu/XatuSidecarCore.java:354 | `indexOf(String)` returns the first index where the pattern occurs, and none when it occurs nowhere |
| JavaStrings.IndexOfChar | plugins/xatu/src/main/java/tech/pegasys/teku/plugin/xatu/XatuSidecarCore.java:357-360 | `indexOf('/', start)` returns the first slash at or after `start`, and none when no slash follows |
| Decimal.ParseLong | plugins/xatu/src/main/java/tech/pegasys/teku/plugin/xatu/XatuSidecarCore.java:361-365 | an accepted text is an optional sign followed only by digits, and a negative result needs a leading minus |
| Decimal.ParseFormatRoundTrip | plugins/xatu/src/main/java/tech/pegasys/teku/plugin/xatu/XatuSidecarCore.java:361 | `parseLong` reads every `long` back from its decimal text |
| Decimal.ParseRejectsOverflow | plugins/xatu/src/main/java/tech/pegasys/teku/plugin/xatu/XatuSidecarCore.java:361-365 | digits above `Long.MAX_VALUE` fail to parse; with a minus sign the range reaches exactly `Long.MIN_VALUE` |
| Decimal.DigitsValueIgnoresLeadingZero | plugins/xatu/src/main/java/tech/pegasys/teku/plugin/xatu/XatuSidecarCore.java:361 | one leading zero does not change the value of a digit run |
| Decimal.DigitsValueIgnoresLeadingZeros | plugins/xatu/src/main/java/tech/pegasys/teku/plugin/xatu/XatuSidecarCore.java:361 | any number of leading zeros leaves the value of a digit run unchanged |
| Decimal.ParseSignedDigits | plugins/xatu/src/main/java/tech/pegasys/teku/plugin/xatu/XatuSidecarCore.java:361-365 | `parseLong` accepts every optional `+`/`-` followed by a non-empty digit run, giving the signed value exactly when it lies in the `long` range and failing otherwise |
| Decimal.ParsePaddedNumber | plugins/xatu/src/main/java/tech/pegasys/teku/plugin/xatu/XatuSidecarCore.java:361-365 | a signed number, padded with any number of zeros, parses to itself for every magnitude the sign allows in the `long` range |
| Decimal.ParseExamples | plugins/xatu/src/main/java/tech/pegasys/teku/plugin/xatu/XatuSidecarCore.java:361-365 | `+7` and `007` parse to 7, and `-0` to 0 |
| Decimal.ParseRejectsMalformed | plugins/xatu/src/main/java/tech/pegasys/teku/plugin/xatu/XatuSidecarCore.java:361-365 | the empty text, a bare sign, and text starting with a non-digit that is not a sign are parse failures |
| SubnetTopic.ExtractSubnetId | plugins/xatu/src/main/java/tech/pegasys/teku/plugin/xatu/XatuSidecarCore.java:351-367 | a topic without `beacon_attestation_` yields 0, and a non-zero id implies the marker occurs |
| SubnetTopic.FirstMarkerAt | plugins/xatu/src/main/java/tech/pegasys/teku/plugin/xatu/XatuSidecarCore.java:354 | when no occurrence of the marker starts inside the prefix, `indexOf` finds the marker placed after it, whatever follows |
| SubnetTopic.FirstMarkerAfterPrefix | plugins/xatu/src/main/java/tech/pegasys/teku/plugin/xatu/XatuSidecarCore.java:354 | a prefix shaped like `/eth2/<fork_digest>/` (no underscore, final `/`) hides no earlier occurrence |
| SubnetTopic.SubnetIdOfField | plugins/xatu/src/main/java/tech/pegasys/teku/plugin/xatu/XatuSidecarCore.java:351-367 | for any prefix in which no occurrence of the marker starts, the id is the text between the marker and the next `/` (or end), read as a `long`, and 0 when that text is not a `long` |
| SubnetTopic.SubnetIdOfWellFormedTopic | plugins/xatu/src/main/java/tech/pegasys/teku/plugin/xatu/XatuSidecarCore.java:351-362 | a topic written as `.../beacon_attestation_<n>/...` yields `n` for every `long` `n` |
| SubnetTopic.SubnetIdOverflowIsZero | plugins/xatu/src/main/java/tech/pegasys/teku/plugin/xatu/XatuSidecarCore.java:361-366 | an id above `Long.MAX_VALUE` is a `NumberFormatException` and yields 0 |
| SubnetTopic.SubnetIdEmptyFieldIsZero | plugins/xatu/src/main/java/tech/pegasys/teku/plugin/xatu/XatuSidecarCore.java:356-366 | an empty field after the marker yields 0 |
| SubnetTopic.SubnetIdWithoutMarker | plugins/xatu/src/main/java/tech/pegasys/teku/plugin/xatu/XatuSidecarCore.java:354-366 | a topic in which the marker never occurs yields 0 |
| SubnetTopic.SubnetIdAfterUnderscorePrefix | plugins/xatu/src/main/java/tech/pegasys/teku/plugin/xatu/XatuSidecarCore.java:351-362 | `/a_b/beacon_attestation_3` yields 3: an underscore before the marker does not hide it |
| SubnetTopic.SubnetIdAfterGluedPrefix | plugins/xatu/src/main/java/tech/pegasys/teku/plugin/xatu/XatuSidecarCore.java:351-362 | `xbeacon_attestation_5/ssz_snappy` yields 5: text glued to the front of the marker does not hide it |
| Hex.ToUnprefixedHexString | plugins/xatu/src/main/java/tech/pegasys/teku/plugin/xatu/XatuSidecarCore.java:222 | the message id is two lower-case hex digits per byte |
| Hex.ToHexString | plugins/xatu/src/main/java/tech/pegasys/teku/plugin/xatu/XatuSidecarCore.java:238 | roots, bits and signatures are rendered as `0x` and then two hex digits per byte, so the text is never empty |
| Hex.HexStringRoundTrip | plugins/xatu/src/main/java/tech/pegasys/teku/plugin/xatu/XatuSidecarCore.java:238 | the digits after `0x` read back to the same bytes |
| Hex.HexRoundTrip | plugins/xatu/src/main/java/tech/pegasys/teku/plugin/xatu/XatuSidecarCore.java:222 | the hex rendering reads back to the same bytes |
| JsonTree.Get | plugins/xatu/src/main/java/tech/pegasys/teku/plugin/xatu/XatuSidecarCore.java:93 | `get` finds a field only on an object node that has it |
| JsonTree.AsText | plugins/xatu/src/main/java/tech/pegasys/teku/plugin/xatu/XatuSidecarCore.java:112 | `asText` gives a text node's text, `"null"` for a null node, `""` for containers, `"true"`/`"false"` for booleans (which `asBoolean` reads back), and for a `long`-sized number a text `parseLong` reads back to it |
| JsonTree.AsBoolean | plugins/xatu/src/main/java/tech/pegasys/teku/plugin/xatu/XatuSidecarCore.java:94 | `asBoolean(default)` gives a boolean's value and whether an integer is non-zero; a text trimming to `"true"` gives true and one trimming to `"false"` gives false, and any other text, null or container gives the default |
| RuntimeConfig.NetworkOverride | plugins/xatu/src/main/java/tech/pegasys/teku/plugin/xatu/XatuSidecarCore.java:130-132 | the override is present exactly when the user configuration is an object whose `ethereum` entry is an object with an `overrideNetworkName` entry, and it is that entry |
| RuntimeConfig.ResolveNetworkName | plugins/xatu/src/main/java/tech/pegasys/teku/plugin/xatu/XatuSidecarCore.java:127-137 | the network name is the override's text when present and non-empty, otherwise the name the node supplied |
| RuntimeConfig.Resolve | plugins/xatu/src/main/java/tech/pegasys/teku/plugin/xatu/XatuSidecarCore.java:100-149 | `log_level` defaults to `info` and the processor name to `teku`; `outputs` and `ntpServer` appear only when given; the chain parameters and the fixed `teku` implementation and client name are carried |
| RuntimeConfig.TextOverrideNamesNetwork | plugins/xatu/src/main/java/tech/pegasys/teku/plugin/xatu/XatuSidecarCore.java:129-136 | a non-empty text override wins over the node's name, and an empty one is ignored |
| RuntimeConfig.NullOverrideNamesNetworkNull | plugins/xatu/src/main/java/tech/pegasys/teku/plugin/xatu/XatuSidecarCore.java:132-135 | a YAML `null` override is present and non-empty as text, so it names the network `null` |
| RuntimeConfig.EnabledValues | plugins/xatu/src/main/java/tech/pegasys/teku/plugin/xatu/XatuSidecarCore.java:92-98 | a missing, `null` or `"false"` `enabled` disables the sidecar; `true` and `" true "` enable it |
| Events.ConvertToXatuEvent | plugins/xatu/src/main/java/tech/pegasys/teku/plugin/xatu/XatuSidecarCore.java:217-349 | exactly the five handled kinds give an event, tagged with the matching `event_type`; each event carries the slot through `longValue()`, the timestamp (0 when absent), the peer id (`""` when absent), the topic, the size and the hex message id |
| Events.EpochOf | plugins/xatu/src/main/java/tech/pegasys/teku/plugin/xatu/XatuSidecarCore.java:229-232 | `slot / SLOTS_PER_EPOCH` truncates toward zero: for a non-negative slot the quotient times 32 is at most the slot and within 32 of it, mirrored for negative slots |
| Events.EventEpochIsSlotDiv32 | plugins/xatu/src/main/java/tech/pegasys/teku/plugin/xatu/XatuSidecarCore.java:226-345 | every event's epoch is its slot divided by 32, so a slot below 2^63 lies in that epoch's 32 slots |
| Events.AttestationAttesterFields | plugins/xatu/src/main/java/tech/pegasys/teku/plugin/xatu/XatuSidecarCore.java:264-295 | a single attestation reports its validator index and `""` bits; an aggregated one reports attester 0 and non-empty hex bits; both carry the topic's subnet id and `should_process` |
| Events.DataColumnHeaderFields | plugins/xatu/src/main/java/tech/pegasys/teku/plugin/xatu/XatuSidecarCore.java:336-343 | the proposer, parent and state fields of a data-column event appear exactly when the sidecar has a block header |
| Batching.DrainFrom | plugins/xatu/src/main/java/tech/pegasys/teku/plugin/xatu/XatuSidecarCore.java:374-381 | from `count` batched events, the drain batches the next `min(n, 100 - count)` events and removes `min(n, 101 - count)` from the queue |
| Batching.DrainDropsEventAfterFullBatch | plugins/xatu/src/main/java/tech/pegasys/teku/plugin/xatu/XatuSidecarCore.java:378-381 | with more than 100 queued, the batch is the first 100; the 101st is removed but not batched; the rest keep their order |
| Batching.DrainTakesSmallQueueWhole | plugins/xatu/src/main/java/tech/pegasys/teku/plugin/xatu/XatuSidecarCore.java:378-381 | with at most 100 queued, the whole queue is batched in order |
| Sidecar.Initialize | plugins/xatu/src/main/java/tech/pegasys/teku/plugin/xatu/XatuSidecarCore.java:75-185 | an initialized core answers true unchanged; otherwise success requires a read, enabled config, `Init` returning 0 and a live scheduler; every failure leaves the core uninitialized; `Init` is called, with the resolved config, exactly when an uninitialized core reads an enabled config |
| Sidecar.FlushBatch | plugins/xatu/src/main/java/tech/pegasys/teku/plugin/xatu/XatuSidecarCore.java:369-398 | no change on an empty queue or an uninitialized core; otherwise one native call with the first `min(n,100)` events, and the queue becomes the suffix after `min(n,101)` |
| Sidecar.ScheduledFlush | plugins/xatu/src/main/java/tech/pegasys/teku/plugin/xatu/XatuSidecarCore.java:172-176 | a tick flushes exactly when the periodic task is scheduled; in a reachable core that is exactly from a successful `initialize` until `shutdown`, and otherwise the tick changes nothing |
| Sidecar.OnGossipMessageAccepted | plugins/xatu/src/main/java/tech/pegasys/teku/plugin/xatu/XatuSidecarCore.java:192-215 | ignored unless initialized and not shut down; otherwise exactly one peer counter rises by one, the event is queued, and a queue of 100 or more is flushed |
| Sidecar.Shutdown | plugins/xatu/src/main/java/tech/pegasys/teku/plugin/xatu/XatuSidecarCore.java:401-431 | a repeated call changes nothing; the first stops the scheduler, flushes once, then calls native `Shutdown` only when initialized |
| Sidecar.ShutdownIsIdempotent | plugins/xatu/src/main/java/tech/pegasys/teku/plugin/xatu/XatuSidecarCore.java:402-404 | shutting down twice equals shutting down once |
| Sidecar.ShutdownSilencesCore | plugins/xatu/src/main/java/tech/pegasys/teku/plugin/xatu/XatuSidecarCore.java:193-195 | after shutdown, accepted messages and scheduler ticks change nothing |
| Sidecar.InitializeAfterShutdownFails | plugins/xatu/src/main/java/tech/pegasys/teku/plugin/xatu/XatuSidecarCore.java:172-184 | a core shut down before it was ever initialized cannot be started by `initialize`, because the stopped scheduler rejects the periodic flush |
| Sidecar.InitializeAfterShutdownOfStartedCore | plugins/xatu/src/main/java/tech/pegasys/teku/plugin/xatu/XatuSidecarCore.java:82-85 | a core shut down after a successful start still answers true to `initialize`, unchanged and without a native call |
| Sidecar.FlushOfValidSendsWholeQueue | plugins/xatu/src/main/java/tech/pegasys/teku/plugin/xatu/XatuSidecarCore.java:369-385 | a flush of at most 100 queued events sends them all, in order, and empties the queue |
| Sidecar.FlushOfOverfullQueueLosesOne | plugins/xatu/src/main/java/tech/pegasys/teku/plugin/xatu/XatuSidecarCore.java:374-381 | a flush of more than 100 queued events sends 100, keeps the tail, and loses exactly the 101st |
| Sidecar.StepKeepsValid | plugins/xatu/src/main/java/tech/pegasys/teku/plugin/xatu/XatuSidecarCore.java:172-211 | every sequential step keeps the queue below 100, keeps it empty before initialization, and keeps the periodic flush scheduled exactly while the core is initialized and not shut down |
| Sidecar.StepKeepsValidAndLosesNothing | plugins/xatu/src/main/java/tech/pegasys/teku/plugin/xatu/XatuSidecarCore.java:192-211 | every sequential step keeps the queue below 100; sent events followed by queued events grow by exactly the accepted event |
| Sidecar.RunLosesNothing | plugins/xatu/src/main/java/tech/pegasys/teku/plugin/xatu/XatuSidecarCore.java:192-211 | over any sequential run, every accepted event is sent or still queued, in acceptance order |
| Sidecar.FreshRunLosesNothing | plugins/xatu/src/main/java/tech/pegasys/teku/plugin/xatu/XatuSidecarCore.java:52-59 | starting from a new core, sent and queued events are exactly the accepted events |
| Sidecar.CountersTallyPeers | plugins/xatu/src/main/java/tech/pegasys/teku/plugin/xatu/XatuSidecarCore.java:433-441 | while the core runs, the present and missing counters count the accepted messages with and without a transport peer |

## Left out

- The JNA binding (`XatuNativeLibrary.java`) is a foreign call. `Init` is a result-code parameter. `SendEventBatch` and `Shutdown` are recorded in the native-call log. The `SendEventBatch` result is only logged by the source, so it is not an input.
- `XatuPlugin.java` subscribes to the event bus and registers a JVM shutdown hook. It is plumbing with no logic of its own.
- Concurrency is not modelled: the `ConcurrentLinkedQueue`, the atomics, the `synchronized` flush, and the scheduler's timing and `awaitTermination`. The model is one sequential caller, and the periodic flush is an explicit `Tick` step.
- JSON/YAML serialization of the configuration and of batches, and the NUL-terminated UTF-8 encoding, are library calls. The native-call log records the structured values instead.
- Reading the YAML file is not modelled. A successful read is a `Json` tree, and any exception it throws is `None`. Floating-point YAML nodes and object key order are not modelled.
- SSZ serialization of aggregation bits and signatures is a library call. Messages carry the already-serialized bytes. Only the hex rendering is modelled.
- `System.getenv`, `VersionProvider.IMPLEMENTATION_VERSION` and logging are inputs or output only. The first two are parameters and logging is dropped.
- The source catches `Exception` only. A `java.lang.Error`, such as a failure to load the native library, escapes `initialize` after `initialized` has been set. The model does not represent such errors.
- `JsonProcessingException` from `writeValueAsString` is not modelled. These trees always serialize.
- Decimal.ParseLong: accepts ASCII digits only. Java's `Character.digit` also accepts other Unicode decimal digits, such as Arabic-Indic digits, so the model rejects some topics that Java parses.
- Events.ConvertToXatuEvent: the message datatypes cannot represent a library accessor that throws, such as a single attestation without a validator index. The source catches that case and drops the event after counting the peer.
