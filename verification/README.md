# Verified models of the usage bar

The bar watches provider accounts and shows their limits. This project models the parts of it
that are state machines, codecs, normalisers and storage protocols, and proves what they
promise over all inputs and all runs.

Each source file has a module with its data, its operations and a specification, and mostly a
second module with the theorems. Code that changes objects or buffers step by step is a class or
a method with loops, proved equal to a function; the theorems are about that function. The modules
named `...Meaning` and `CodexOutcomes` say what the functions answer on the fields, characters and
bytes of their input, without the comparisons and tests the functions use.

| part | modules |
|---|---|
| shared ground | `Results`, `Sequences`, `Text`, `Sorting`, `Decimal`, `Bytes`, `Sinks` (Sink.dfy), `AtomicFile` |
| TOON printer | `Json`, `Toon`, `ToonOutline`, `ToonReader`, `ToonRoundTrip`, `ToonMeaning` |
| status components | `Components`, `ComponentForests`, `ComponentNormalizer` |
| reset advisor | `Advisor`, `AdviceProperties`, `AdviceMeaning` |
| frontend presence | `Presence` |
| JSON line codec | `Codec`, `CodecProperties` |
| event witness | `MonitorName`, `EventDecoder` |
| credential frame | `Credential`, `CredentialMeaning`, `CredentialReader` |
| display client and bridge | `Js`, `SnapshotTree`, `Reducer`, `ReducerMeaning`, `ReducerProperties`, `FrameGuard`, `GuardedRuns` |
| Codex accounts | `AccountIdentity`, `CodexAccounts`, `CodexDisk`, `CodexAccountRuns`, `CodexLoginEffects`, `CodexOutcomes` |
| protected credential file | `ProtectedDocument`, `ProtectedEncoding`, `ProtectedFile` |
| redaction | `Redaction` |

## Conventions

- Text is a sequence of Unicode scalar values. Rust orders strings by their UTF-8 bytes, which is
  the order of the scalar values. The display client counts UTF-16 code units; `Js` models those
  and relates them to the UTF-8 length.
- Integer widths are written out: 64-bit ids and durations in `Presence`, the exact range of a
  double in `Reducer`, digit-for-digit 64-bit texts in `SnapshotTree`. Times are nanoseconds.
- Input and output are parameters: a stream has a script of short, interrupted and failing reads,
  a destination has limited room, and every operation on files takes the outcome of each step.
- Serialising is a pair of functions with the laws of compact JSON (`Codec.Lawful`). Numbers of a
  TOON value are known by their printed text.
- The per-provider check inside a snapshot envelope is an arbitrary predicate.

## Where the code does less than one would hope

- The text of a TOON document does not determine arrays inside arrays: `[[1]]` and `[1]` print
  alike (crates/cli/src/output.rs:100-105). `ToonRoundTrip.SameTextExactly` says exactly which values
  share a text, and `ToonRoundTrip.DocumentDeterminesFlatValues` which ones are determined by it.
- An atomic write can report an error after its rename took effect, when the directory sync fails
  (crates/storage/src/atomic_file.rs:142-170). The login code treats every error as "nothing was
  saved" (crates/app/src/codex_accounts.rs:157-163, 259-265): a new account whose configuration is
  saved that way stays listed and active, and its home is deleted.
  `CodexAccountRuns.RunsStayConsistent` shows that this is the only way to break the invariant, and
  `CodexLoginEffects.FailedLoginRestores` says exactly when a login that reports an error has
  changed the configuration or the auth file of another account.
- Activating the ambient account fails without any Codex route in the configuration: the route it
  adds is not put into the provider order, so the configuration is not valid
  (crates/app/src/codex_accounts.rs:286-301; `CodexOutcomes.ActivationSucceedsExactly`).
- The display client acknowledges a snapshot sequence it has already seen even when a
  compatibility error has cleared the display (qml/omarchy-plugin/Protocol.js:505-516, 571-573), so
  a snapshot can be acknowledged with nothing on display
  (`ReducerProperties.SnapshotLostAfterError`). It does not look at the payload of a repeated
  sequence either (`ReducerProperties.AckedPayloadIsShown`).
- The bridge lets a hello of version 0 through, and one of version 1 without display snapshots
  (qml/omarchy-plugin/Protocol.js:541-543); the display client takes both as the end of the
  connection (`GuardedRuns.OnlySuitableHellosGoOn`).
- Putting or deleting a protected credential can report an error for a write that took effect
  (`ProtectedFile.PutIsUpdate`, `ProtectedFile.DeleteIsRemoval`).
- A conversion of 64-bit fields that fails leaves the fields before the error converted
  (crates/app/src/main.rs:391-417); `SnapshotTree.RestoreUndoes` says when this can be undone.
- Two credits of accounts with the same label that expire within one second tie, and the order of
  the accounts decides which is named (`AdviceProperties.SubsecondTieDependsOnOrder`).
- A secret that overlaps the redaction marker, as `]x` does, can come back next to a marker
  (`Redaction.BracketSecretComesBack`), and one that is part of the marker always does.
  `Redaction.HiddenExactlyWhenClear` gives the exact class of secrets that never show.
- A chunk that breaks a JSON line stream loses the messages it completed before the break
  (`CodecProperties.MessageLostBeforeBadLine`). `CodecProperties.BreakingChunkIsLost` says which
  those are, and `CodecProperties.NothingLostExactly` when there are none.

## Model

| member | source | states |
|---|---|---|
| Toon.WriteToon | crates/cli/src/output.rs:52-55 | writing a document leaves exactly its line grammar, cut where the destination fills up, and reports success exactly when it all fits |
| Toon.WriteValue | crates/cli/src/output.rs:57-114 | the recursive printer writes the rendering of the value or a prefix of it that fits |
| Toon.WriteFields | crates/cli/src/output.rs:74-87 | the loop over object fields writes all of them with line feeds between them |
| Toon.WriteItems | crates/cli/src/output.rs:88-111 | the loop over array entries writes all of them with line feeds between them |
| Toon.RenderOfRoot | crates/cli/src/output.rs:52-114 | what the printer emits is the document read as whole lines, for every value |
| ToonOutline.DocumentOfOutline | crates/cli/src/output.rs:52-114 | the text of a value is that of its outline, in which the entries of arrays inside arrays are spliced into the outer list and a list under a key keeps its number of elements |
| ToonRoundTrip.DocumentShowsOutline | crates/cli/src/output.rs:52-144 | a reader recovers the outline of every value from its text |
| ToonRoundTrip.SameTextExactly | crates/cli/src/output.rs:52-144 | any two values print alike if and only if they have the same outline |
| ToonRoundTrip.DocumentDeterminesFlatValues | crates/cli/src/output.rs:52-144 | a reader recovers a value from its text if and only if no array in it has a non-empty array as an element |
| ToonRoundTrip.DocumentIsInjective | crates/cli/src/output.rs:52-144 | two such values with the same text are equal |
| ToonRoundTrip.NestedArraysCollide | crates/cli/src/output.rs:88-111 | every value with a non-empty array inside an array shares its text with a different value |
| ToonRoundTrip.NumberTextsAreReserved | crates/cli/src/output.rs:124-144 | every text that reads as a number is quoted when it is a string |
| ToonRoundTrip.ReadKeyOfText | crates/cli/src/output.rs:116-122 | a printed key, quoted or not, reads back as itself in front of anything that ends it |
| ToonRoundTrip.ReadScalarOfText | crates/cli/src/output.rs:124-144 | a printed scalar reads back as itself: bare strings never read as null, booleans or numbers |
| ToonMeaning.KeysAreWritten | crates/cli/src/output.rs:116-144 | a key is written as it is if and only if it is a word of ASCII letters, digits and the marks _ - . /, and as a JSON string literal otherwise, spelled out character by character |
| ToonMeaning.StringsAreWritten | crates/cli/src/output.rs:124-144 | a string is written as it is if and only if it is such a word and neither true, false, null nor a float text, and as a literal otherwise |
| ToonMeaning.FloatsExactly | crates/cli/src/output.rs:141-144 | the float texts are an optional sign and a decimal with at most one point and an optional power of ten, or one of three names in any case |
| ToonMeaning.SampleList | crates/cli/src/output.rs:88-111 | the text of a list with a scalar and an empty array |
| ToonMeaning.SampleObject | crates/cli/src/output.rs:74-101 | the text of an empty object and an empty array under keys |
| ToonMeaning.SampleEntry | crates/cli/src/output.rs:74-111 | the text of an object in a list |
| Components.NormalizeIsExact | crates/domain/src/status.rs:449-487 | a forest is accepted exactly when all ids are distinct, there are at most 64 nodes and at most 4 levels, and the result is its canonical form |
| Components.ErrorsAreTrue | crates/domain/src/status.rs:458-487 | an error names a limit that the forest does exceed: repeated ids, a 65th component or a fifth level |
| ComponentForests.NormalizeIsCanonical | crates/domain/src/status.rs:449-487 | two forests equal up to the order of siblings at any level are accepted together, and accepted forests normalise alike exactly when they are so related |
| ComponentForests.NormalizeSortsById | crates/domain/src/status.rs:233-242 | the result is the one reordering of siblings in which ids go up by their first difference at every level, and there is one if and only if ids are distinct, components at most 64 and levels at most 4 |
| ComponentForests.NormalizeIsIdempotent | crates/domain/src/status.rs:449-487 | normalising a normalised forest changes nothing |
| ComponentForests.CanonicalReorders | crates/domain/src/status.rs:458-487 | normalising only moves components among their siblings |
| ComponentForests.DistinctSiblingsOrdered | crates/domain/src/status.rs:233-242 | on siblings with distinct ids the component order is total, transitive and antisymmetric |
| ComponentForests.ReorderedKeepsAcceptable | crates/domain/src/status.rs:449-487 | reordering siblings changes neither ids, count nor depth |
| ComponentForests.ReorderedTransitive | crates/domain/src/status.rs:449-487 | reordering siblings composes |
| ComponentForests.ReorderedSymmetric | crates/domain/src/status.rs:449-487 | reordering siblings can be undone |
| ComponentForests.NewComponentIsCanonical | crates/domain/src/status.rs:186-205 | building a component checks its children and then itself; the second pass accepts exactly the acceptable subtrees and keeps them in canonical order |
| ComponentNormalizer.NormalizeComponents | crates/domain/src/status.rs:449-456 | the in-place normaliser succeeds exactly on acceptable forests and leaves the canonical form; after an error every component still lies under its parent |
| ComponentNormalizer.Normalizer.NormalizeLevel | crates/domain/src/status.rs:458-487 | one level with the shared counter and id set ends like the specification walk |
| ComponentNormalizer.Normalizer.VisitEach | crates/domain/src/status.rs:470-484 | the loop over one level ends like the walk of its components in order |
| ComponentNormalizer.Normalizer.Visit | crates/domain/src/status.rs:470-484 | one component is counted, recorded and normalised below, and its neighbours are untouched |
| Advisor.ProjectLanes | crates/domain/src/advisor.rs:82-108 | the loop over the main lanes finds the least remaining percentage, whether any lane is capped, and the earliest future reset of a capped lane |
| Advisor.FromSample | crates/domain/src/advisor.rs:81-127 | a sample is projected unless no lane has a known percentage; the account has the first name there is, the exhaustion of its lanes and the expiries of its redeemable credits |
| AdviceProperties.EvaluateIsBest | crates/domain/src/advisor.rs:184-234 | the advice is refused only for more than 8 accounts and is otherwise the best of every kind: target, redeem, wait, ranking, and as many of the soonest notes as fit |
| AdviceMeaning.EvaluateSays | crates/domain/src/advisor.rs:184-425 | the advice on the fields of the accounts: who has most left, whose credit is spent (reserve, earliest expiry, reset, name), who resets first, and the eight soonest credits in order |
| AdviceProperties.RedeemTargetPicked | crates/domain/src/advisor.rs:355-380 | the redeem target is least in the reserve, expiry, reset, label order among the accounts with credits |
| AdviceProperties.SwitchTargetPicked | crates/domain/src/advisor.rs:333-338 | the switch target has the most remaining capacity among the uncapped accounts |
| AdviceProperties.WaitIsSoonest | crates/domain/src/advisor.rs:340-394 | the wait is an earliest future reset of a capped account and is absent exactly when there is none |
| AdviceProperties.NotesAreSoonest | crates/domain/src/advisor.rs:400-425 | the notes are the at most 8 soonest pending ones, in order, and none left out precedes one kept |
| AdviceProperties.SoonestIsSortedFront | crates/domain/src/advisor.rs:400-425 | any choice of soonest notes is the front of the sorted pending ones, so its size decides which they are |
| AdviceProperties.PendingNotesMembers | crates/domain/src/advisor.rs:400-425 | the pending notes are exactly the credits of capped accounts that expire within the horizon |
| AdviceProperties.OrderMattersOnlyForTies | crates/domain/src/advisor.rs:184-234 | the advice is the same for every order of the accounts if and only if, in case it comes to redeeming, tied targets agree on the credit |
| AdviceProperties.DistinctLabelsDecide | crates/domain/src/advisor.rs:184-234 | with pairwise distinct labels every permutation of the accounts gets the same advice |
| AdviceProperties.SubsecondTieDependsOnOrder | crates/domain/src/advisor.rs:365-380 | with equal labels, credits that expire within one second make the order matter |
| Presence.StatusFollowsHistory | crates/ipc/src/frontend_presence.rs:74-211 | in every reachable state the fallback, the open set and the next id follow from the history of calls, also when the deadline is beyond the range of a duration |
| Presence.AcceptedHistories | crates/ipc/src/frontend_presence.rs:98-192 | a sequence of calls is accepted if and only if time never runs backwards in it and it connects no more often than there are ids |
| Presence.IssuedInOrder | crates/ipc/src/frontend_presence.rs:98-115 | the n-th connection receives the id n |
| Presence.IdsNeverRepeat | crates/ipc/src/frontend_presence.rs:98-115 | over any history no two connections receive the same id |
| Presence.FrontendPresence.constructor | crates/ipc/src/frontend_presence.rs:76-96 | a new policy has an empty history |
| Presence.FrontendPresence.Connect | crates/ipc/src/frontend_presence.rs:98-115 | an accepted connection extends the history and returns the next id; a refused one changes nothing |
| Presence.FrontendPresence.Disconnect | crates/ipc/src/frontend_presence.rs:127-138 | an accepted disconnection extends the history; a refused one changes nothing |
| Presence.FrontendPresence.Advance | crates/ipc/src/frontend_presence.rs:148-151 | an accepted advance extends the history and returns the status |
| Presence.FrontendPresence.CurrentStatus | crates/ipc/src/frontend_presence.rs:155-160 | the tray shows exactly when no compatible connection is open and the grace period has passed since the start or the last one closed |
| Presence.FrontendPresence.NextDeadline | crates/ipc/src/frontend_presence.rs:168-175 | advancing to the deadline shows the tray and no earlier time does; without a deadline no time changes the status |
| Codec.CappedBuffer.Write | crates/ipc/src/codec.rs:72-90 | a piece that fits is appended whole; one that does not leaves the bytes and sets the flag |
| Codec.EncodeJsonLine | crates/ipc/src/codec.rs:37-52 | the encoder returns the text with a line feed exactly when it fits and the serialiser did not fail |
| Codec.DecodeOfEncode | crates/ipc/src/codec.rs:37-124 | decoding an encoded message returns it |
| Codec.JsonLineDecoder.FeedChunk | crates/ipc/src/codec.rs:202-225 | feeding a chunk byte by byte does what the specification of a chunk says, with the poisoned state after an error |
| Codec.JsonLineDecoder.FinishStream | crates/ipc/src/codec.rs:180-189 | finishing reports a partial line or an earlier rejection |
| CodecProperties.FeedDecodesLines | crates/ipc/src/codec.rs:202-225 | a chunk after a buffer yields the line-by-line decoding of both together |
| CodecProperties.LinesDecodeExactly | crates/ipc/src/codec.rs:103-124 | a line is a message if and only if it is at most 64 KiB, ends in its only line feed with no carriage return before it, is not empty, and parses |
| CodecProperties.BadLinesAreTold | crates/ipc/src/codec.rs:103-124 | which of the errors a bad line gives |
| CodecProperties.CarriageReturnBreaks | crates/ipc/src/codec.rs:114-116 | a carriage return before the first line feed breaks the stream for any cut |
| CodecProperties.FinishTells | crates/ipc/src/codec.rs:180-189 | over any chunks finishing tells a partial line from an earlier failure |
| CodecProperties.DecodeConcat | crates/ipc/src/codec.rs:202-225 | decoding a concatenation continues where the first part ends and stays broken once it is broken |
| CodecProperties.ReceiveDecodesLines | crates/ipc/src/codec.rs:164-225 | over any chunks a clean session delivers all lines and keeps the tail; a broken one is poisoned and delivered exactly the messages of the chunks before the one that broke it |
| CodecProperties.BreakingChunkIsLost | crates/ipc/src/codec.rs:202-225 | the messages of the line-by-line decoding are those delivered, followed by those that the breaking chunk completes before it breaks |
| CodecProperties.NothingLostExactly | crates/ipc/src/codec.rs:202-225 | everything is delivered if and only if the breaking chunk completes no message |
| CodecProperties.MessageLostBeforeBadLine | crates/ipc/src/codec.rs:202-225 | any message followed by any bad line in one chunk decodes and is never delivered |
| CodecProperties.AnyMessageCanBeLost | crates/ipc/src/codec.rs:202-225 | any message followed by an empty line in one chunk decodes and is never delivered |
| CodecProperties.ChunksDoNotMatter | crates/ipc/src/codec.rs:164-225 | two ways of cutting the same bytes end in the same state, with the same messages while nothing is wrong and one list a prefix of the other otherwise |
| CodecProperties.BufferStaysBelowLimit | crates/ipc/src/codec.rs:202-225 | the buffer stays below 64 KiB and never holds a line feed |
| CodecProperties.MessagesArrive | crates/ipc/src/codec.rs:37-225 | any messages that fit, encoded, concatenated and cut anywhere, arrive as the same list and finish cleanly |
| CodecProperties.FinishesCleanly | crates/ipc/src/codec.rs:180-189 | over any chunks a session finishes without an error exactly when every line decodes and no partial line is left |
| MonitorName.DecodeEach | crates/app/src/hyprland_events.rs:286-350 | the loop over groups of four digits pushes exactly the decoded bytes or fails |
| MonitorName.DecodeMonitorName | crates/app/src/hyprland_events.rs:286-361 | whatever is accepted is a name, and encoding it gives back the input |
| MonitorName.DecodeNameIsExact | crates/app/src/hyprland_events.rs:286-361 | the decoder accepts exactly the canonical padded base64 of 1 to 4096 bytes without NUL, LF or CR, and returns those bytes |
| MonitorName.NameRoundTrip | crates/app/src/hyprland_events.rs:286-361 | decoding an encoded name returns it |
| MonitorName.EncodeOfDecode | crates/app/src/hyprland_events.rs:286-361 | input that decodes is the encoding of what it decodes to, padding bits included |
| MonitorName.DecodeOfEncode | crates/app/src/hyprland_events.rs:286-361 | encoded bytes decode to themselves |
| MonitorName.TestVectors | crates/app/src/hyprland_events.rs:286-361 | the base64 texts of the test vectors of RFC 4648 and of the ends of the alphabet |
| EventDecoder.EventLineDecoder.FeedBytes | crates/app/src/hyprland_events.rs:202-234 | feeding input into a destination with limited room does what the specification of a chunk says |
| EventDecoder.EventLineDecoder.EmitLine | crates/app/src/hyprland_events.rs:248-265 | a matching line and its line feed are written as far as they fit; other lines write nothing |
| EventDecoder.EventLineDecoder.FinishStream | crates/app/src/hyprland_events.rs:236-246 | finishing reports a partial line or an earlier failure |
| EventDecoder.ReceiveWatches | crates/app/src/hyprland_events.rs:202-276 | written bytes, poisoned flag and buffered line depend only on the concatenated input, also when the destination fills up |
| EventDecoder.FinishTells | crates/app/src/hyprland_events.rs:236-246 | over any chunks finishing is clean if and only if everything fitted, no line was too long and no partial line is left |
| EventDecoder.ScanIsCut | crates/app/src/hyprland_events.rs:202-234 | the lines and the rest are the input cut at its line feeds, with lines of at most 64 KiB |
| EventDecoder.TargetsAreNamed | crates/app/src/hyprland_events.rs:18-19 | the two reported lines are the ASCII event names followed by the name of the monitor |
| EventDecoder.EverythingFits | crates/app/src/hyprland_events.rs:202-276 | with room for it the output is the report of the complete lines before the first over-long one, and only an over-long line poisons |
| EventDecoder.ReportIsMatchingLines | crates/app/src/hyprland_events.rs:248-265 | the report is exactly the lines that equal one of the two target events, in order, each followed by a line feed |
| EventDecoder.ScanConcat | crates/app/src/hyprland_events.rs:202-234 | cutting a concatenation into lines continues where the first part ends |
| Credential.ReadFrameIsExact | crates/ipc/src/credential.rs:337-470 | the accepted streams are exactly canonical decimal length, colon, that many bytes of UTF-8 from 1 to 16384, comma, end of stream |
| CredentialMeaning.CredentialsExactly | crates/ipc/src/credential.rs:337-470 | the accepted streams are the ASCII decimal length, a colon, 1 to 16384 bytes that encode some text in UTF-8, and a comma |
| CredentialMeaning.Utf8IsExact | crates/ipc/src/credential.rs:337-358 | bytes pass as text if and only if they are the encoding of scalar values by RFC 3629 |
| CredentialMeaning.FramesAreTold | crates/ipc/src/credential.rs:337-470 | behind a canonical length, which of the errors is told for which bytes, and in which order |
| CredentialMeaning.LengthsAreTold | crates/ipc/src/credential.rs:360-391 | which streams are cut off among the digits and which have no length |
| Credential.ReadOfNetstring | crates/ipc/src/credential.rs:337-470 | the reader inverts the encoder |
| Credential.NetstringOfRead | crates/ipc/src/credential.rs:337-470 | whatever is accepted is the frame of what is returned |
| CredentialReader.ReadOneFrame | crates/ipc/src/credential.rs:337-358 | while all reads go well the outcome is that of the bytes sent, however they are split and interrupted; otherwise the last read made is the first that timed out or failed, and its error is the outcome |
| CredentialReader.ReadLengthPrefix | crates/ipc/src/credential.rs:360-391 | the digit loop reads the canonical length or fails as the specification does |
| CredentialReader.ReadExact | crates/ipc/src/credential.rs:393-417 | the fill loop takes exactly the wanted bytes over any split of reads, or reports truncation or the error of its last read |
| CredentialReader.ReadTerminator | crates/ipc/src/credential.rs:419-446 | success means the next byte was the comma |
| CredentialReader.RequireEndOfStream | crates/ipc/src/credential.rs:448-470 | success means nothing was left |
| Js.Utf8Length | qml/omarchy-plugin/Protocol.js:216-232 | the counting loop over UTF-16 code units gives the UTF-8 length of the text |
| SnapshotTree.ValidSnapshotTree | qml/omarchy-plugin/Protocol.js:421-467 | the recursive validator with its shared budget and early exits does what the specification walk says |
| SnapshotTree.AcceptedIsExact | qml/omarchy-plugin/Protocol.js:421-467 | a tree is accepted exactly when it is at most 32 deep, has at most 8192 nodes, and every node meets its size, key, number and u64-text rule |
| SnapshotTree.FieldsExactly | qml/omarchy-plugin/Protocol.js:421-467 | which names and which null, boolean, text and number a field may have, spelled out for the fifteen integer fields and all others |
| SnapshotTree.NumbersAreConverted | crates/app/src/main.rs:391-448 | a field that carries an integer becomes the number its text denotes |
| SnapshotTree.DecimalTestsAgree | crates/app/src/main.rs:440-448 | the client's pattern and string comparison accept exactly the texts the bridge parses as 64-bit integers |
| SnapshotTree.ConvertSnapshotU64Fields | crates/app/src/main.rs:391-417 | the loops over items and fields leave what the specification says: the converted tree, or one converted up to the first error |
| SnapshotTree.ConversionIsExact | crates/app/src/main.rs:391-448 | the conversion succeeds if and only if every 64-bit field, wherever it is, holds null or a text that passes the client's decimal test |
| SnapshotTree.RestoreUndoes | crates/app/src/main.rs:391-448 | whether the conversion succeeds or stops half-way, printing the numbers back restores the tree if and only if no 64-bit field held a non-negative number to begin with |
| SnapshotTree.ConversionRoundTrip | crates/app/src/main.rs:391-448 | every tree that is converted can be restored |
| SnapshotTree.AcceptedTreesConvert | crates/app/src/main.rs:391-448 | every tree the client accepts is converted without error and can be restored |
| Reducer.RegisterRequest | qml/omarchy-plugin/Protocol.js:107-134 | the search for a finished request and the splice give the specified table |
| ReducerMeaning.HellosExactly | qml/omarchy-plugin/Protocol.js:530-545 | a JSON message is read as a hello if and only if it has exactly the four fields, a version, a stream id of 32 hex digits and at most 32 different names |
| ReducerMeaning.SnapshotsExactly | qml/omarchy-plugin/Protocol.js:566-581 | a JSON message is read as a snapshot if and only if it has exactly the three fields, an exact positive integer and a valid envelope |
| ReducerMeaning.EnvelopesExactly | qml/omarchy-plugin/Protocol.js:469-489 | an envelope is valid if and only if it has exactly its fields with the stated values, a bounded tree and only valid snapshots |
| ReducerMeaning.ProgressExactly | qml/omarchy-plugin/Protocol.js:583-602 | a JSON message is read as a progress report if and only if it has exactly the three fields, an exact positive integer and one of five states |
| ReducerMeaning.PongsExactly | qml/omarchy-plugin/Protocol.js:604-610 | a JSON message is read as a pong if and only if it has exactly the two fields and an exact positive integer |
| ReducerMeaning.ErrorsExactly | qml/omarchy-plugin/Protocol.js:524-528 | a JSON message is read as a compatibility error if and only if it has exactly the three fields, one of three codes and a version |
| ReducerMeaning.CapabilityNamesExactly | qml/omarchy-plugin/Protocol.js:238-249 | capability names are words of lower-case letters and digits joined by single underscores, of at most 64 characters |
| ReducerMeaning.OneOfThree | qml/omarchy-plugin/Protocol.js:176-190 | of any state and JSON message exactly one holds: accepted, stale or fatal; fatal if and only if an error is told, stale if and only if it is a valid snapshot that is not newer on an open connection |
| ReducerMeaning.OutcomeIsTold | qml/omarchy-plugin/Protocol.js:518-613 | what is accepted, stale, fatal and acknowledged in every state |
| ReducerMeaning.HelloIsKept | qml/omarchy-plugin/Protocol.js:530-558 | an accepted hello opens the connection with the known capabilities in their order and keeps or forgets the stream, or ends it for the right reason |
| ReducerMeaning.AcceptedIsKept | qml/omarchy-plugin/Protocol.js:505-613 | what every other accepted message leaves in all fields of the state, the last progress and the last pong included |
| ReducerProperties.SequenceNeverDecreases | qml/omarchy-plugin/Protocol.js:518-581 | over any run the last sequence never goes down while the stream stays the same |
| ReducerProperties.AckIsLastSequence | qml/omarchy-plugin/Protocol.js:566-581 | every acknowledgement equals the last sequence held after the message |
| ReducerProperties.AcksWereAccepted | qml/omarchy-plugin/Protocol.js:505-581 | over any run every acknowledgement names a sequence whose snapshot was accepted, now or earlier, on a stream that has not changed since, also when the display was cleared in between |
| ReducerProperties.AckedPayloadIsShown | qml/omarchy-plugin/Protocol.js:566-581 | the payload of an acknowledged message is on display if and only if its sequence is new or that payload was on display before |
| ReducerProperties.DisplayFollowsSequence | qml/omarchy-plugin/Protocol.js:505-581 | over any run the display is the snapshot accepted with the last sequence, or nothing if and only if the client was incompatible at some time since |
| ReducerProperties.AckedSnapshotIsShown | qml/omarchy-plugin/Protocol.js:505-581 | over any run the snapshot accepted under an acknowledged sequence is on display, unless the client was incompatible at some time since; then nothing is |
| ReducerProperties.AcceptedInOrder | qml/omarchy-plugin/Protocol.js:566-581 | as long as the stream stays the same, snapshots are accepted in the order of their sequences and none twice |
| ReducerProperties.PhasesAgree | qml/omarchy-plugin/Protocol.js:505-613 | over any run the phase, the failure, the version, the capabilities and the display agree: only a ready client has capabilities, always of major 1 and with display snapshots, and an incompatible one displays nothing |
| ReducerProperties.SnapshotWasAccepted | qml/omarchy-plugin/Protocol.js:505-581 | over any run the snapshot on display is the payload accepted with the last sequence, on a stream that has not changed since |
| ReducerProperties.SnapshotConverts | qml/omarchy-plugin/Protocol.js:469-489 | over any run the snapshot on display passes the bridge's converter |
| ReducerProperties.SnapshotLostAfterError | qml/omarchy-plugin/Protocol.js:505-581 | after an error, a reconnect and the same snapshot again, the snapshot is acknowledged with nothing on display |
| ReducerProperties.TableAlwaysOk | qml/omarchy-plugin/Protocol.js:107-134 | over any run the request order has no duplicates, lists exactly the tracked requests and never more than 128 |
| ReducerProperties.TableIsInOrder | qml/omarchy-plugin/Protocol.js:107-134 | over any run the table lists the requests in the order of their registration, so the oldest finished one was registered first |
| ReducerProperties.RequestsBelongToStream | qml/omarchy-plugin/Protocol.js:99-134 | since a tracked request was registered, the stream has not changed once it was known, and compatibility has not ended |
| ReducerProperties.RegisterEvictsOldestFinished | qml/omarchy-plugin/Protocol.js:107-134 | a new request is refused exactly when the table is full of unfinished ones, and a full table drops its oldest finished request and no other |
| ReducerProperties.TransitionsAreForward | qml/omarchy-plugin/Protocol.js:152-160 | the allowed transitions are exactly the forward ones to a reported state |
| ReducerProperties.ProgressIsRecorded | qml/omarchy-plugin/Protocol.js:583-602 | a progress report is accepted exactly when it moves a tracked request forward on a connection that negotiated it, and changes that request only |
| ReducerProperties.RequestsMoveForward | qml/omarchy-plugin/Protocol.js:152-160 | while tracked, a request moves only forward through issued, queued, running and one final state that stays |
| ReducerProperties.RequestsLeaveOnlyFinished | qml/omarchy-plugin/Protocol.js:99-134 | a request leaves the table only as the oldest finished one of a full table, or when a reset, a compatibility error, an unsuitable hello or a hello of another stream clears it |
| FrameGuard.ServerFrameGuard.Accept | crates/app/src/main.rs:208-242 | a frame is accepted exactly when the guard's transition allows it, and a refused one keeps the state |
| FrameGuard.ParseOfWire | qml/omarchy-plugin/Protocol.js:518-613 | every well-formed frame arrives at the client as what it was, unless a snapshot has an invalid payload |
| GuardedRuns.StepsStayRelated | crates/app/src/main.rs:208-242 | after a suitable hello, a frame the guard lets through keeps guard and client related, and the client rejects it for its content at most |
| GuardedRuns.GuardRefusesWhatClientRejects | crates/app/src/main.rs:208-242 | from related states the guard refuses a frame exactly when the client would reject its place in the connection, or when it is a hello of a later version or another error after the end, which the client takes |
| GuardedRuns.GuardedConnectionIsTaken | crates/app/src/main.rs:201-242 | of a connection the guard lets through, the client takes every frame if and only if the hello is of version 1 and offers display snapshots, or only errors follow it |
| GuardedRuns.OlderHelloStopsClient | crates/app/src/main.rs:210-221 | a hello of version 0 passes the guard and the next frame is rejected by the client |
| GuardedRuns.OnlySuitableHellosGoOn | crates/app/src/main.rs:210-221 | after any hello that passes the guard, a pong is taken if and only if the hello is of version 1 and offers display snapshots |
| AccountIdentity.SameIdentityIsKeyed | crates/app/src/codex_accounts.rs:406-414 | being the same login is both having an email and agreeing on it, trimmed and without case, and on the workspace |
| AccountIdentity.TrimIsExact | crates/app/src/codex_accounts.rs:406-414 | white space around an email does not count |
| CodexDisk.Retain | crates/app/src/codex_accounts.rs:215-221 | the in-place filter keeps the account itself and all that are no duplicates |
| CodexDisk.Enable | crates/app/src/codex_accounts.rs:222-233 | the search enables the first account with the id or appends a new one |
| CodexDisk.Disk.LoadConfig | crates/app/src/codex_accounts.rs:62-75 | a missing file is an empty configuration; an unreadable or invalid one is an error |
| CodexDisk.Disk.SaveConfig | crates/app/src/codex_accounts.rs:85-94 | an invalid configuration is not written; an unsynced write takes effect and reports an error |
| CodexDisk.Disk.AllocateId | crates/app/src/codex_accounts.rs:453-469 | up to 32 drawn ids are tried, and the first without a home is returned |
| CodexDisk.Disk.ArchiveHome | crates/app/src/codex_accounts.rs:505-526 | a home moves to the first free archive name |
| CodexDisk.Disk.CommitLogin | crates/app/src/codex_accounts.rs:245-268 | auth file, configuration and duplicates are written in order, with the old auth file put back when the commit fails |
| CodexDisk.Disk.CompleteLogin | crates/app/src/codex_accounts.rs:208-277 | finishing a login edits the configuration and commits it as specified |
| CodexDisk.Disk.RunLogin | crates/app/src/codex_accounts.rs:167-206 | a login that fails or has no identity stops before the configuration |
| CodexDisk.Disk.LogIn | crates/app/src/codex_accounts.rs:144-165 | a login allocates a home, runs, and cleans the home up unless it became the account |
| CodexDisk.Disk.ActivateAccount | crates/app/src/codex_accounts.rs:286-301 | only ambient or a listed, enabled account is activated |
| CodexDisk.Disk.RemoveAccount | crates/app/src/codex_accounts.rs:303-326 | a listed account is taken off the list and its home archived |
| CodexAccounts.Duplicates | crates/app/src/codex_accounts.rs:392-404 | the duplicates are exactly the listed accounts whose identity can be read and is the same |
| CodexAccountRuns.RelistedIsExact | crates/app/src/codex_accounts.rs:215-237 | after the edit the account is listed, enabled and active, its duplicates are gone and all others are as before |
| CodexAccountRuns.CommitEnds | crates/app/src/codex_accounts.rs:245-268 | a commit ends in one of three ways, whichever of its steps fail |
| CodexAccountRuns.LoginKeepsConsistent | crates/app/src/codex_accounts.rs:144-277 | a login keeps the invariant if and only if it does not strand a new account |
| CodexAccountRuns.LoginCanStrand | crates/app/src/codex_accounts.rs:144-277 | a save that reports an error after the rename lists an active account without a home |
| CodexAccountRuns.ActivationIsExact | crates/app/src/codex_accounts.rs:286-301 | an activation that is written makes exactly the requested account active and changes nothing else |
| CodexAccountRuns.RemovalIsExact | crates/app/src/codex_accounts.rs:303-326 | from any state, a removal takes off exactly one account, falls back to ambient if it was active, and moves its home, if there is one, unchanged to one new archive name |
| CodexOutcomes.RemovalSucceedsExactly | crates/app/src/codex_accounts.rs:303-326 | a removal succeeds if and only if the key is legal and not ambient, the configuration loads and lists it, the write goes through and a home, if any, can be archived; and which error it gives otherwise |
| CodexOutcomes.ActivationSucceedsExactly | crates/app/src/codex_accounts.rs:286-301 | an activation succeeds if and only if the configuration loads and has a Codex route, the account is ambient or listed and enabled, and the write goes through; and which error it gives otherwise |
| CodexOutcomes.FailedRemovalLeaves | crates/app/src/codex_accounts.rs:303-326 | a removal that reports an error changes nothing unless the new configuration is in place, which then takes off that account only |
| CodexOutcomes.FailedActivationLeaves | crates/app/src/codex_accounts.rs:286-301 | an activation that reports an error changes nothing unless the new configuration is in place, which then selects that account only |
| CodexOutcomes.DrawnIdsAreLegal | crates/app/src/codex_accounts.rs:453-469 | every drawn id of lower hex digits is a legal key and not the ambient one |
| CodexOutcomes.ArchivesExactly | crates/app/src/codex_accounts.rs:505-526 | a home is archived if and only if it is movable and a name is free, under the first free of its id and its id with a number |
| CodexAccountRuns.RunsStayConsistent | crates/app/src/codex_accounts.rs:144-326 | over any run from a consistent state with any step failing, listed ids are distinct, every listed account has its home and the active id is ambient or listed and enabled, if and only if no login strands an account |
| CodexAccountRuns.ArchiveAllMoves | crates/app/src/codex_accounts.rs:505-526 | archiving moves homes, each to a fresh name of its own, and drops, merges or overwrites none |
| CodexLoginEffects.FailedCommitRestores | crates/app/src/codex_accounts.rs:245-265 | when the commit fails, the configuration stays if and only if the commit was not reached, was refused or would have changed nothing, and the homes stay if and only if no auth file was swapped without being put back |
| CodexLoginEffects.FailedLoginRestores | crates/app/src/codex_accounts.rs:144-277 | from any state, a login that reports any error leaves configuration, archive and every earlier home as they were if and only if its commit neither put another configuration in place nor left a swapped auth file |
| CodexLoginEffects.UncommittedLoginFails | crates/app/src/codex_accounts.rs:259-265 | a login whose configuration write reports an error reports one itself |
| CodexLoginEffects.FailedLoginCanDisturb | crates/app/src/codex_accounts.rs:144-277 | a commit that reports an error after its rename: the login fails and its configuration is in place |
| CodexLoginEffects.SuccessfulLogin | crates/app/src/codex_accounts.rs:144-277 | from any state, a successful login keeps the id and files of the first listed account of the same person, archives the others of that person, and touches no other account |
| CodexOutcomes.LoginSucceedsExactly | crates/app/src/codex_accounts.rs:144-277 | a login succeeds if and only if an id is drawn, the external login runs and names a person, the configuration loads, has room and is written, an earlier auth file is read and replaced, and the person's other accounts can be archived |
| CodexOutcomes.LoginKeepsFirst | crates/app/src/codex_accounts.rs:208-216 | a successful login is for the first listed account of the person, or for the drawn one if nobody listed is that person |
| CodexOutcomes.LoginReports | crates/app/src/codex_accounts.rs:144-277 | a missing executable, a failed external login and an unknown person are told apart from failures of the storage |
| CodexLoginEffects.NoOtherIsTheSame | crates/app/src/codex_accounts.rs:208-277 | after a successful login nobody else on the list is the person who logged in |
| CodexLoginEffects.StepKeepsHomes | crates/app/src/codex_accounts.rs:144-326 | no call destroys or merges homes that were there before it, whatever state it starts from and whichever of its steps fail: each is still in use with its files or archived under a fresh name of its own |
| CodexLoginEffects.FilesAreNeverLost | crates/app/src/codex_accounts.rs:144-326 | over any run from any state, also one that strands accounts, every home in use or archived has a home of its own with the same files at any later time |
| ProtectedDocument.Validate | crates/auth/src/protected_file.rs:252-268 | the nested loops accept exactly documents of version 1 with at most 64 valid entries and no key twice |
| ProtectedDocument.ValidExactly | crates/auth/src/protected_file.rs:252-268 | which versions, numbers of entries, key parts, secrets and repetitions are valid, spelled out |
| ProtectedDocument.SortIsExact | crates/auth/src/protected_file.rs:97-105 | sorting puts the keys in strict order by provider, account and purpose, each by its first difference, and changes neither the map nor the validity |
| ProtectedEncoding.ValidDocumentsFit | crates/auth/src/protected_file.rs:27-29 | the entry and field bounds keep every encoded document within 8 MiB |
| ProtectedFile.SaveIsExact | crates/auth/src/protected_file.rs:97-113 | saving a valid document never fails on size and leaves it sorted, or leaves the file alone |
| ProtectedFile.GetIsLookup | crates/auth/src/protected_file.rs:115-128 | getting a key is looking it up in the map |
| ProtectedFile.PutIsUpdate | crates/auth/src/protected_file.rs:130-152 | putting updates the map at the key and nowhere else, succeeds exactly when the file reads, has room and the write syncs, and otherwise leaves the file alone or applied |
| ProtectedFile.DeleteIsRemoval | crates/auth/src/protected_file.rs:154-166 | deleting removes the key and nothing else; a key that is not there is not written |
| ProtectedFile.BrokenFileStays | crates/auth/src/protected_file.rs:86-95 | a file that does not load stays as it is and every call reports an error |
| ProtectedFile.RunsBehaveAsMap | crates/auth/src/protected_file.rs:86-166 | from any file that loads, after any calls with any failures, the file loads, is the first one or in strict order, and holds exactly what the calls that took effect made of it |
| ProtectedFile.GetAfterRun | crates/auth/src/protected_file.rs:86-166 | from no file, after any calls with any failures, getting a key finds exactly what the calls that took effect left there |
| ProtectedFile.Store.GetSync | crates/auth/src/protected_file.rs:115-128 | the search over the entries returns the specified secret |
| ProtectedFile.Store.PutSync | crates/auth/src/protected_file.rs:130-152 | the search, the replacement or push and the save give the specified file |
| ProtectedFile.Store.DeleteSync | crates/auth/src/protected_file.rs:154-166 | the retain and the save give the specified file |
| ProtectedFile.Store.SaveDocument | crates/auth/src/protected_file.rs:97-113 | sorting, encoding, the size check and the write give the specified file |
| ProtectedFile.Store.LoadDocument | crates/auth/src/protected_file.rs:86-95 | loading checks existence, size, shape and validity in this order |
| Redaction.RedactText | crates/auth/src/redaction.rs:17-25 | the loop over the secrets leaves no listed secret that is clear of the marker |
| Redaction.ReplaceFirst | crates/auth/src/redaction.rs:17-25 | the text up to the first occurrence stays, the occurrence becomes the marker, and the rest is treated in the same way |
| Redaction.RedactInTurn | crates/auth/src/redaction.rs:17-25 | the secrets are replaced one after the other in their order |
| Redaction.HiddenExactlyWhenClear | crates/auth/src/redaction.rs:17-25 | a secret never shows, whatever text and other secrets there are, if and only if it and the marker do not overlap: neither contains the other and no end of one is a beginning of the other |
| Redaction.RedactionIsExact | crates/auth/src/redaction.rs:17-25 | with any fixed list around it, a listed secret without brackets is absent from every output if and only if it is not part of the word in the marker |
| Redaction.ClearSecretsAreGone | crates/auth/src/redaction.rs:17-25 | whatever the other secrets are, a listed secret that shares no end with the marker does not occur in the output |
| Redaction.MarkerPartsShow | crates/auth/src/redaction.rs:17-25 | a listed secret that is part of the marker occurs in the redaction of itself |
| Redaction.BracketSecretComesBack | crates/auth/src/redaction.rs:17-25 | with a bracket a secret can come back from the end of a marker |
| Redaction.CleanTextIsKept | crates/auth/src/redaction.rs:17-25 | text in which no listed secret occurs is returned as it is |

## Left out

- Sockets, pipes, D-Bus, processes, signals, file permissions, async tasks, cancellation and timeouts: reads and writes are scripted outcomes.
- JSON text beyond string literals and the credential document: serde, duplicate object keys and number syntax are behind the serialise and parse pair.
- Strings with unpaired surrogates in parsed JSON: text is made of scalar values, and only `Js.Utf8Length` covers such code units.
- validProviderSnapshot and everything it calls (qml/omarchy-plugin/Protocol.js:311-419): wide and shallow record checks, an arbitrary predicate here.
- reduceLine (qml/omarchy-plugin/Protocol.js:615-630): raw text checks before the reducer.
- A reducer state that is not an object: the client always passes the state it holds.
- Prototype properties of JavaScript objects: a tracked request is a key of a map.
- Non-finite percentages in the advisor: they are filtered out before it, and percentages are reals here.
- The bounds on advisor labels and credit counts, and names of components: single checks.
- Zeroising of secrets and clearing of buffers: no effect on values.
- Poisoning of the lock in the protected file store after a panic.
- The schema of the configuration beyond the default Codex route: one opaque rest, and one flag for everything else that makes saving fail.
- Other programs that change the configuration or the homes between calls.
- The private lookups of a Codex identity outside the managed home: an identity is read from the auth file or cannot be read.
- The listing of accounts, the ambient identity, and the creation of parent directories.
- The provider tables, credential discovery, command line, HTTP server, tray drawing and QML user interface.
- ValidSnapshotTree: the set of object keys is taken as given; an object that repeats a key cannot come from a parser.
- The binary search in a sorted capability set: membership in a list without duplicates.
- Utf8Length: takes code units, not a script string.
- FromSample: takes the main lanes as a list of used percentage and reset time, and a credit as its availability and expiry; the bounds on names and credit counts hold for every sample.
- ReceiveDecodesLines: says what is delivered, which is less than the line-by-line decoding when a chunk breaks after complete messages, because the code drops those.
- HiddenExactlyWhenClear: takes secrets of at most 16384 characters, because the source accepts no longer ones.
- DocumentDeterminesFlatValues: the reader is part of the proof; the program itself only prints.
- ConvertSnapshotU64Fields: overwrites a local copy and returns it with the outcome, because a JSON tree is a value here.
- SubsecondTieDependsOnOrder: one pair of accounts; the exact condition is OrderMattersOnlyForTies.
- ReadOneFrame: reads that time out depend on a clock; which of them does is part of the script.
