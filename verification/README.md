# Verified model of mlat-bench

A Dafny model of the deterministic core of the MLAT client (`mlatc`), the MLAT server (`mlatd`) and the Mode S
library (`mb-modes`), with proofs over every input, every run or every reachable state. Code that changes things
step by step is a class or a method with loops, proved equal to a specification function; the promises are then
proved of those functions.

| files | part |
|---|---|
| `Common.dfy` | optional values, bytes, sequence helpers |
| `Beast.dfy`, `BeastTheorems.dfy` | the streaming, self-resynchronising Beast decoder |
| `Crc24.dfy` | the Mode S parity register and its polynomial theory |
| `Cpr.dfy` | compact position reporting, encoder and global decoder |
| `Frames.dfy` | altitude fields, downlink frame builders and parsers |
| `Results.dfy` | returned positions on the Beast output, end to end |
| `ClockSync.dfy` | the constant-size pairwise clock model against its batch statistics |
| `Engine.dfy` | the client's traffic engine, and one engine simulating N |
| `Protocol.dfy` | what the engine's messages promise each server over whole runs |
| `Requests.dfy` | the server's request set, and client and server composed over lossy queues |
| `Router.dfy`, `RouterTheorems.dfy` | the adaptive geographic router |
| `Shard.dfy`, `ShardTheorems.dfy` | receiver slots, pair table and sync points of a shard |
| `Publication.dfy` | clustering of converted times, and the gates before a fix is published |
| `Output.dfy` | the output task: territory gate and bounded twin window |

`dafny verify dfyconfig.toml` verifies everything.

## How the source is stated

- Floating-point numbers are exact reals; a gate on a square root is a gate on squares.
- The longitude-zone function (the closed form with cosines) and the distance over ground are parameters; only the
  zone function's range 1..59 is used. The solver is arbitrary: its answer is part of each attempt.
- Clocks are passed in. Queues between tasks are sequences that may lose messages; atomics are plain fields, so a call
  is one step.
- Bytes are 8-bit vectors, the CRC register and addresses 32-bit vectors, tick counters 64-bit vectors whose
  differences, which saturate in the source, are taken on integers. Saturating and wrapping conversions (16-bit cell
  indexes, 64-bit buckets, 32-bit generations) are written out. A union of disjoint bit fields is written as a sum.
- Hash-map order does not appear: lists the source builds by walking a map are sets, and a tie between equal votes may
  go to any of them.
- Hex text of a frame or an address stands for its bytes or its word.

Where comments or documents and code differ, the model follows the code:

- `crates/mb-modes/src/cpr.rs:55-57` says the zone count is taken at the latitude the decoder rebuilds; when the
  rounding reaches 2^17 it is taken one zone lower (`EncoderLatitudeAgreesUnlessSliver`, `SliverMisplacesLongitude`).
- `crates/mb-modes/src/alt.rs:8-9` says the altitude division floors; it truncates, so altitudes from -1024 to -1001 ft
  encode as -1000 ft, and every other altitude does floor (`EncodingFloorsIff`).
- `README.md:214` says a split cell's children always stay on their home shard; a child stays if and only if no
  neighbouring cell's owner has capacity or the home outvotes all that do (`ChildStaysHomeIff`). A full home has no vote
  and loses its child to any neighbour with capacity (`FullHomeKeepsChildIff`, `ChildLeavesHome`); a home with room has
  the votes of its unclaimed siblings and can still be outvoted (`LosingAChildTakesVotes`, `ChildIsOutvoted`).
- `crates/mlatd/src/state.rs:39` calls the counted speed rejections consecutive; they are counted since the last
  published fix, whatever comes between (`TrackRemembersItsHistory`, `RejectionsWithAGap`).
- `crates/mlatd/src/main.rs:161-162` says a twin solved within the same instant is dropped; it is when both stamps fall
  into one 100 ms bucket, and not when a bucket ends between them (`TwinsIff`, `TwinsAcrossABoundary`).
- After a lost notice the client forgets a request that the server's books keep, so the aircraft is not asked for again
  on that connection (`StarvationArises`, `StarvationIsReached`, `AnnouncedAgainInVain`).
- Sync points hold slots without generations: a trained report is the present holder's own if and only if the slot
  was not handed out since it was made (`ReportsAreTheHoldersIff`, `TakeoverTrainsOldTimes`).

## Model

| member | source | states |
|---|---|---|
| Beast.BeastDecoder.Feed | crates/mlatc/src/beast.rs:24-45 | one feed returns what one-shot decoding of buffer and new bytes yields and keeps exactly its leftover |
| Beast.BeastDecoder.ParseAt | crates/mlatc/src/beast.rs:47-96 | the loop over stuffed bytes takes the step the recursive scan describes: consumed, skipped or more needed |
| BeastTheorems.DecodeInTwo | crates/mlatc/src/beast.rs:24-45 | decoding a concatenation is decoding the first part, then its leftover with the rest |
| BeastTheorems.ChunkInvariance | crates/mlatc/src/beast.rs:24-45 | any division of a stream into feeds gives the same receptions and the same leftover as one feed |
| BeastTheorems.LeftoverIsStable | crates/mlatc/src/beast.rs:28-44 | the leftover is empty or an incomplete message starting with 0x1a, and decoding it again changes nothing |
| BeastTheorems.LeftoverBound | crates/mlatc/src/beast.rs:24-96 | at most 43 bytes are ever kept |
| BeastTheorems.Encode | crates/mlatc/src/beast.rs:101-117 | the encoder's loop writes type byte and stuffed payload |
| BeastTheorems.EmitsExactlyEncodings | crates/mlatc/src/beast.rs:47-117 | the decoder emits a reception if and only if the buffer starts with one of its encodings |
| BeastTheorems.CleanStreamRoundTrip | crates/mlatc/src/beast.rs:24-117 | decoding a stream of encoded messages returns exactly those messages and leaves nothing |
| BeastTheorems.ModeAcIsSkipped | crates/mlatc/src/beast.rs:51-85 | a whole Mode A/C message goes by without a reception, and decoding goes on after it |
| BeastTheorems.UnknownTypeIsSkipped | crates/mlatc/src/beast.rs:51-58 | an escape before anything but a message type is skipped alone |
| BeastTheorems.MessageEndsEven | crates/mlatc/src/beast.rs:101-117 | whatever precedes it, an encoded message ends in an even run of 0x1a bytes |
| BeastTheorems.DecodeResynchronises | crates/mlatc/src/beast.rs:28-81 | after garbage ending in an even run of 0x1a the decoder meets the start of the following message |
| BeastTheorems.SelfSynchronisation | crates/mlatc/src/beast.rs:24-117 | after any garbage all messages but the first come out last and in order, and the first too when the garbage ends in an even run |
| BeastTheorems.MessageStartIsMetIff | crates/mlatc/src/beast.rs:28-81 | the decoder begins a step exactly at a following message's start if and only if what it keeps of the bytes before ends in an even run of 0x1a or is only 0x1a |
| BeastTheorems.BufferDecidesLoss | crates/mlatc/src/beast.rs:24-117 | judged by the decoder's own buffer: with such a leftover no message is lost, and with none the output is the earlier output and all the messages |
| BeastTheorems.FirstMessageCanBeLost | crates/mlatc/src/beast.rs:47-81 | three bytes of garbage swallow any short message without 0x1a bytes, so the bound is tight |
| BeastTheorems.ChunkedSelfSynchronisation | crates/mlatc/src/beast.rs:24-117 | the same recovery however the stream is cut into feeds |
| Crc24.Crc24 | crates/mb-modes/src/lib.rs:25-37 | the nested register loop computes the masked register of the specification |
| CrcTheorems.CrcIsPolynomialRemainder | crates/mb-modes/src/lib.rs:21-37 | a polynomial of degree below 24 is the CRC if and only if it is the remainder of message times x^24 by the generator |
| CrcTheorems.CrcIsLinear | crates/mb-modes/src/lib.rs:25-37 | the CRC of a bytewise XOR of equal lengths is the XOR of the CRCs |
| CrcTheorems.ParityCheck | crates/mb-modes/src/lib.rs:25-37 | data with three more bytes checks to zero if and only if those bytes are its CRC |
| CrcTheorems.AppendedParityChecks | crates/mb-modes/src/frames.rs:40-44 | appending the parity gives remainder zero |
| CrcTheorems.BurstChangesCrc | crates/mb-modes/src/lib.rs:25-37 | changing any nonempty pattern within 24 consecutive bits changes the CRC |
| CprTheorems.ModpIsFloorRemainder | crates/mb-modes/src/cpr.rs:38-45 | the truncating remainder with its correction is the floor remainder, in [0, m) |
| CprTheorems.EncoderLatitudeAgreesUnlessSliver | crates/mb-modes/src/cpr.rs:51-58 | the encoder's zone latitude equals the decoder's if and only if the rounding does not carry; otherwise it is one zone width low |
| CprTheorems.RebuiltLatitudeIsClose | crates/mb-modes/src/cpr.rs:51-53 | the decoded latitude is within half a cell of the encoded one |
| CprTheorems.ZoneRecovered | crates/mb-modes/src/cpr.rs:88-118 | one rule for n even and n-1 odd zones: the index of a nearby pair recovers the zone, for latitude and longitude alike |
| CprTheorems.GlobalDecodeRecovers | crates/mb-modes/src/cpr.rs:49-121 | a close even/odd pair is refused exactly for a zone-count straddle, never by the pole check; otherwise the newer latitude returns on its grid line, and the newer longitude within half a cell when encoder and decoder count the same zones |
| CprTheorems.DecodeRefusesIff | crates/mb-modes/src/cpr.rs:88-121 | any pair of cells is refused if and only if one of its latitudes, by the recovered zone index, lies past a pole or their zone counts differ |
| CprTheorems.DecodedPositionReencodes | crates/mb-modes/src/cpr.rs:49-121 | whatever pair decodes, close or not: the position lies within the poles and in [-180, 180), and encoding it gives the newer message back, cell for cell |
| CprTheorems.ZoneCountsAgreeOutsideSliver | crates/mb-modes/src/cpr.rs:55-60 | outside the sliver encoder and decoder count the same longitude zones |
| CprTheorems.SliverMisplacesLongitude | crates/mb-modes/src/cpr.rs:53-60 | one position in the sliver, for any zone function with the standard's values 59, 58, 58 there: an accepted pair decodes more than 90 degrees of longitude away |
| Altitude.Ac12RoundTrip | crates/mb-modes/src/alt.rs:7-16 | an altitude encodes if and only if it lies in (-1025, 50200) and decodes to its 25-ft step |
| Altitude.EncodingFloorsIff | crates/mb-modes/src/alt.rs:8-50 | both fields decode to within less than 25 ft, at or below the altitude if and only if it is at least -1000 ft |
| Altitude.Ac12FieldRoundTrip | crates/mb-modes/src/alt.rs:35-41 | every 12-bit field with its Q bit set is the encoding of its decoded altitude |
| Altitude.Ac13RoundTrip | crates/mb-modes/src/alt.rs:20-50 | the 13-bit field round-trips for the same altitudes |
| Altitude.Ac13FieldRoundTrip | crates/mb-modes/src/alt.rs:44-50 | every 13-bit field that decodes is the encoding of its decoded altitude |
| Frames.FillSquitter | crates/mb-modes/src/frames.rs:32-44 | filling the bytes by index gives head, address, ME field and parity |
| Frames.Df17AirbornePosition | crates/mb-modes/src/frames.rs:11-45 | builds the position squitter, or nothing for an unencodable altitude |
| Frames.Df18PositionPair | crates/mb-modes/src/frames.rs:51-80 | builds the even and odd frames of one position |
| Frames.Df11 | crates/mb-modes/src/frames.rs:85-96 | builds the all-call reply with bare parity |
| Frames.Df4 | crates/mb-modes/src/frames.rs:102-116 | builds the altitude reply with the address overlaid on its parity |
| Frames.Df17RoundTrip | crates/mb-modes/src/decode.rs:19-37 | parsing a built squitter returns its address, format, CPR cells and quantised altitude; its first byte and type code are those asked for |
| Frames.Df11RoundTrip | crates/mb-modes/src/decode.rs:40-47 | parsing a built all-call returns its address, its parity is bare and its first byte holds the capability |
| Frames.Df4RoundTrip | crates/mb-modes/src/decode.rs:51-60 | the address hidden in the parity and the altitude come back; the first byte holds the flight status |
| Frames.ParsesDf17Iff | crates/mb-modes/src/decode.rs:19-37 | a frame parses as an airborne position if and only if it is 14 bytes of DF17 with clean parity whose ME field, bit group by bit group, has a type code from 9 to 18 and the values returned |
| Frames.ParsesDf11Iff | crates/mb-modes/src/decode.rs:40-47 | a frame parses as an all-call if and only if it is 7 bytes of DF11 with that address |
| Frames.ParsesDf4Iff | crates/mb-modes/src/decode.rs:51-61 | a frame parses as an altitude reply if and only if it is 7 bytes of DF4 whose tail is the address laid over the parity; the altitude is that of its low 13 bits |
| Frames.BurstErrorRejected | crates/mb-modes/src/decode.rs:19-22 | a DF17 frame changed within 24 consecutive bits is rejected |
| Results.BeastBytes | crates/mlatc/src/main.rs:515-533 | the output bytes are the Beast encodings of the DF18 pair under the MLAT counter |
| Results.ResultBytesDecode | crates/mlatc/src/main.rs:522-532 | those bytes decode to exactly two receptions with counter 0xFF004D4C4154 |
| Results.ResultBytesFollow | crates/mlatc/src/main.rs:522-532 | the same two receptions follow whatever a reader's decoder emitted before, when it keeps nothing |
| Results.ResultPositionSurvives | crates/mlatc/src/main.rs:515-533 | every encodable position leaves as two parity-correct TIS-B frames, even and odd, of type 18, with the altitude to less than a 25-ft step; their pair, unless refused as a straddle, decodes to its latitude within half a cell, and to its longitude when both sides count the same zones |
| ClockSync.PairModel.Push | crates/mlatd/src/clocksync.rs:44-75 | gate, reject counter, reset and decayed update, as one function of the old fields; the answer says whether the observation was taken in |
| ClockSync.AcceptedIff | crates/mlatd/src/clocksync.rs:47-57 | an observation passes if and only if the model is young (below 8 effective observations, or below a variance of 25/16) or it misses by at most 4 sigma or a microsecond |
| ClockSyncTheorems.RunKeepsBatchStatistics | crates/mlatd/src/clocksync.rs:44-75 | after any run the fields are the weighted count, means and central sums of the observations accepted since the last reset; the counter is below 8 and nonzero only on a usable model |
| ClockSyncTheorems.RunTracksNoise | crates/mlatd/src/clocksync.rs:47-61 | after any run the residual variance is 0.0033 times the sum of the squared misses, weighted by powers of 0.9967 and each against the fit before it, of what was accepted on a ready model since the last reset; rejects counts the refusals in a row |
| ClockSyncTheorems.TotalCountsKept | crates/mlatd/src/clocksync.rs:52-73 | total is the number of observations kept since the last reset |
| ClockSyncTheorems.RunBounds | crates/mlatd/src/clocksync.rs:62-71 | the spread is never negative and the weight stays below 1/(1-0.9967) |
| ClockSyncTheorems.PredictionMinimisesError | crates/mlatd/src/clocksync.rs:77-83 | with positive spread the prediction line is the unique minimiser of the weighted squared error over all lines |
| ClockSyncTheorems.RunPredictsLeastSquares | crates/mlatd/src/clocksync.rs:44-83 | hence after any run the model predicts with the least-squares line of what it kept |
| ClockSyncTheorems.RejectBurst | crates/mlatd/src/clocksync.rs:47-57 | fewer than eight out-of-gate observations leave the fit unchanged; the eighth resets it |
| ClockSyncTheorems.ExactLineIsLearned | crates/mlatd/src/clocksync.rs:44-83 | observations on one line are all accepted and the line is predicted exactly |
| ClockSyncTheorems.ExactLineConverts | crates/mlatd/src/clocksync.rs:100-109 | on such a line every usable model converts every reading exactly |
| ClockSyncTheorems.ConvertsIff | crates/mlatd/src/clocksync.rs:77-109 | a reading converts, to the line through the means, if and only if the model is ready and its widened variance is at most (2e-6)^2, stated without division |
| ClockSyncTheorems.RefusesOnlyFarReadings | crates/mlatd/src/clocksync.rs:84-109 | a refused reading lies farther from the mean than every converted one |
| Engine.TrafficEngine.Hear | crates/mlatc/src/engine.rs:127-190 | one reception: reset detection, classification, touch, pairing and forwarding |
| Engine.TrafficEngine.Pair | crates/mlatc/src/engine.rs:208-249 | the pairing slots, the 4 s limit and the sync messages with their time stamps |
| Engine.TrafficEngine.Announce | crates/mlatc/src/engine.rs:253-301 | one tick: notices, expiry and rate report |
| Engine.TrafficEngine.MarkRequested | crates/mlatc/src/engine.rs:99-107 | start and stop requests for known, parseable addresses only |
| Engine.TrafficEngine.ForgetServer | crates/mlatc/src/engine.rs:111-115 | a restarted connection resets that server's flags on every aircraft |
| Engine.TrafficEngine.ForgetPairings | crates/mlatc/src/engine.rs:119-125 | an input reset drops the counter and all pairing slots |
| EngineSimulation.StepViews | crates/mlatc/src/engine.rs:91-301 | what one server sees of a step is a step of an engine serving it alone, or nothing |
| EngineSimulation.TickSays | crates/mlatc/src/engine.rs:253-301 | all that a tick says to a server, in order: the aircraft new to it, those gone for it after more than 60 s, and every 30 s the rates of all that are kept |
| EngineSimulation.OneEngineIsManyEngines | crates/mlatc/src/engine.rs:1-9 | over every run the messages to a server are those of a one-server engine given the run without other servers' commands |
| EngineProtocol.MlatGoesToTheRequesters | crates/mlatc/src/engine.rs:157-189 | an all-call or reply of an aircraft goes to a server if and only if it has requested that aircraft |
| EngineProtocol.SyncGoesToTheRequesters | crates/mlatc/src/engine.rs:208-249 | a position that completes a pair, 48,000,000 counts apart at most, goes out as a sync to a server if and only if it has requested the aircraft |
| EngineProtocol.TrafficOnlyOnRequest | crates/mlatc/src/engine.rs:127-190 | nothing but clock resets and requested traffic leaves on a reception |
| EngineProtocol.ReceptionSays | crates/mlatc/src/engine.rs:127-249 | all that a reception says to a server, in order: a reset if the counter fell by more than 12,000,000 and less than 2^46, and then the reply, or the pair it completes, when requested |
| EngineProtocol.PositionIff | crates/mlatc/src/engine.rs:140-156 | a frame is taken for a position of an aircraft if and only if it is 14 bytes of CRC-valid DF17 with its address, a type code from 9 to 18 and that format bit |
| EngineProtocol.ReplyIff | crates/mlatc/src/engine.rs:157-176 | a frame is taken for a reply of an aircraft if and only if it is an all-call with an assigned code and its address, or one of six reply formats with the address overlaid |
| EngineProtocol.TrafficHasItsFrame | crates/mlatc/src/engine.rs:145-189 | only replies are forwarded and only positions are synced |
| EngineProtocol.SyncIsStamped | crates/mlatc/src/engine.rs:229-248 | a completed pair stamps the sync time of its requesters and of nobody else |
| EngineProtocol.RequestChangesIff | crates/mlatc/src/engine.rs:91-125 | over every event: what sets and what withdraws a request of a server for an aircraft |
| EngineProtocol.MessagesHaveTheirEvents | crates/mlatc/src/engine.rs:127-301 | traffic and resets come from receptions, notices and rates from ticks, input notices from the input |
| EngineProtocol.InputIsTold | crates/mlatc/src/main.rs:172-187 | every server learns that the input came up or went down, exactly when it does |
| EngineProtocol.OnlyVouchedFramesMakeKnown | crates/mlatc/src/engine.rs:145-176 | an aircraft becomes known if and only if a CRC-valid DF17 or a DF11 with an assigned code names it |
| EngineProtocol.BuiltFramesAreRecognised | crates/mlatc/src/engine.rs:141-176 | the engine recognises every frame the builders make, with its address and format |
| EngineProtocol.NewcomersStartClean | crates/mlatc/src/engine.rs:192-221 | a new aircraft has been heard once, holds at most this frame for pairing, and is requested and announced nowhere |
| EngineProtocol.HearingKeepsAlive | crates/mlatc/src/engine.rs:192-198 | a known aircraft is kept alive and counted by the frames that concern it and by no others |
| EngineProtocol.TickTellsIff | crates/mlatc/src/engine.rs:258-282 | a tick reports an aircraft seen, or lost and forgotten, if and only if it is known, heard within 60 s or not, and not yet or already announced |
| EngineProtocol.TickReportsRates | crates/mlatc/src/engine.rs:283-299 | after 30 s a tick reports every aircraft it keeps with its rate and starts counting again |
| EngineProtocol.RateReportsAreDue | crates/mlatc/src/engine.rs:283-299 | no report comes earlier, is empty or has other rates |
| EngineProtocol.RateIsRounded | crates/mlatc/src/engine.rs:288-290 | a rate is the count over the time to two decimals, halves up |
| EngineProtocol.SeenAndLostAlternate | crates/mlatc/src/engine.rs:253-282 | within every session seen and lost about an aircraft alternate, starting with seen |
| EngineProtocol.ResetsAreAnnouncedIff | crates/mlatc/src/engine.rs:129-138 | over every run a reception sends every server a clock reset if and only if a counter was heard since the last input change and fell by more than 12,000,000 and less than 2^46 |
| EngineProtocol.PairingSlotsAfter | crates/mlatc/src/engine.rs:119-221 | a reception leaves its own frame in its slot, and in every other slot what was there, unless the counter jumped back |
| EngineProtocol.SlotsStayFresh | crates/mlatc/src/engine.rs:119-136 | over every run pairing slots hold only positions of their aircraft and format heard since the counter last jumped back or the input last changed |
| EngineProtocol.SyncsNeverSpanAReset | crates/mlatc/src/engine.rs:119-249 | every sync joins an even and an odd position of one requested aircraft, at most 48,000,000 counts apart, both heard since the counter last jumped back or the input last changed |
| Requests.RequestLedger.ProcessLine | crates/mlatd/src/main.rs:637-675 | a line adds its offers, every named and every rated address, to the request set and asks for exactly the new ones, in order |
| Requests.OffersIff | crates/mlatd/src/main.rs:650-667 | an address is offered if and only if the seen list names it or the rate report rates it |
| Requests.FreshIsWhatIsNew | crates/mlatd/src/main.rs:652-667 | what is asked for has no repeats and is the offers less the request set |
| RequestSessions.LineCarriesOffers | crates/mlatd/src/main.rs:650-667 | in whatever order it is read, the line of a message offers the aircraft the message reports seen or rated |
| RequestSessions.ReadingTakesAllOffers | crates/mlatd/src/main.rs:650-674 | after a line is read the request set has grown by exactly its offers, even when the reply found no room |
| RequestSessions.SessionsStaySound | crates/mlatc/src/main.rs:189-247 | restarts, losses and queue interleavings keep the invariant that ties engine flags, queues and request set together |
| RequestSessions.ActiveImpliesRequested | crates/mlatd/src/main.rs:650-674 | over every run no address is asked for twice on a connection, and what the client sends about has been requested |
| RequestSessions.SessionsFromTheStart | crates/mlatd/src/main.rs:531 | the same for every run from a new engine and an empty request set |
| RequestSessions.DeliveryAgrees | crates/mlatc/src/engine.rs:99-107 | a request takes effect on arrival if and only if the aircraft is known, and both sides then agree |
| RequestSessions.AgreementEndsOnlyByExpiry | crates/mlatc/src/engine.rs:253-266 | within a connection agreement ends if and only if the aircraft expires |
| RequestSessions.StarvationArises | crates/mlatd/src/main.rs:650-674 | the exact steps after which an aircraft stays in the request set but is neither sent nor asked for |
| RequestSessions.StarvedUntilRestart | crates/mlatd/src/main.rs:531 | such an aircraft is never asked for or sent about again before the connection restarts |
| RequestSessions.RestartStartsOver | crates/mlatd/src/main.rs:531 | with a new connection nothing counts as requested, nothing is owed and no aircraft is starved |
| RequestSessions.StarvationIsReached | crates/mlatc/src/engine.rs:253-266 | from the start, an aircraft heard, announced, asked for and delivered is starved for good by 61 s of silence |
| RequestSessions.AnnouncedAgainInVain | crates/mlatd/src/main.rs:652-660 | without any loss, an aircraft that expired and came back is announced again and never requested again |
| Router.GeoRouter.LeafAt | crates/mlatd/src/shard.rs:157-166 | the descent ends, at the deepest unsplit cell around the point |
| Router.GeoRouter.OwnerOf | crates/mlatd/src/shard.rs:171-179 | the owner of the nearest mapped cell from the leaf up |
| Router.GeoRouter.CountVotes | crates/mlatd/src/shard.rs:209-227 | the two loops count the eight neighbours' owners that have capacity |
| Router.GeoRouter.PickWinner | crates/mlatd/src/shard.rs:228-234 | most votes; among those none has a lower rate, nor the same rate and fewer receivers |
| Router.GeoRouter.PickLightest | crates/mlatd/src/shard.rs:243-247 | the first shard with the lowest rate, and the fewest receivers among those |
| Router.GeoRouter.ShardFor | crates/mlatd/src/shard.rs:203-271 | the chosen shard and the whole new state: owner, count, split, counter |
| RouterTheorems.LeafIsUnique | crates/mlatd/src/shard.rs:157-166 | a level is the leaf's if and only if its cell is unsplit and all coarser ones are split |
| RouterTheorems.ClaimKeepsTree | crates/mlatd/src/shard.rs:203-271 | every placement keeps the tree: split cells owned and splittable, owned cells below split ones, counts deciding splits |
| RouterTheorems.AncestorsAreSplit | crates/mlatd/src/shard.rs:142-166 | every proper ancestor of an owned cell is split |
| RouterTheorems.OwnerIsLeafOrParent | crates/mlatd/src/shard.rs:168-179 | the ancestor fallback needs at most one level |
| RouterTheorems.PlacedPointIsOwned | crates/mlatd/src/shard.rs:203-282 | right after a placement within 65,532 degrees the territory gate names the shard just returned, even when the cell split |
| RouterTheorems.PlacedPointIsOwnedIff | crates/mlatd/src/shard.rs:203-282 | for every point: the gate names the chosen shard unless the placement splits the cell and a finer cell around the point is already another's |
| RouterTheorems.PinnedPlacementIsDisowned | crates/mlatd/src/shard.rs:142-149 | a hundred thousand degrees out, where indexes saturate, the gate disowns a placement |
| RouterTheorems.RunsKeepTheTree | crates/mlatd/src/shard.rs:195-271 | over every run owners are write-once, and a point's owner is replaced only by that of a strictly finer cell |
| RouterTheorems.RunsConserveCounts | crates/mlatd/src/shard.rs:252-269 | cell counts add up to the connections; a shard's counter is its connections less its teardowns |
| RouterTheorems.RoutersFromTheStart | crates/mlatd/src/shard.rs:124-131 | the same from an empty router: counts are the connections, counters what is still held |
| RouterTheorems.CountsDecideSplits | crates/mlatd/src/shard.rs:252-260 | a split cell has counted exactly 65, an unsplit splittable one at most 64 |
| RouterTheorems.VoteIff | crates/mlatd/src/shard.rs:182-225 | a position of the block votes for a shard if and only if it is not the middle, the shard owns its centre, and it has fewer receivers than the cap and a rate below 50,000 |
| RouterTheorems.VotedChoiceIff | crates/mlatd/src/shard.rs:228-234 | where somebody votes, the permitted choices are exactly the shards with the most votes that have the lowest rate, and the fewest receivers at that rate |
| RouterTheorems.LoneChoiceIff | crates/mlatd/src/shard.rs:243-247 | with no vote and no ancestor, the choice is exactly the first shard with the lowest rate, and the fewest receivers at that rate |
| RouterTheorems.FullShardsGrowOnlyAlone | crates/mlatd/src/shard.rs:212-247 | new ground goes to a shard at its cap of receivers or a rate of 50,000 only when every neighbour's owner is at one of its limits too |
| RouterTheorems.ChildStaysHomeIff | crates/mlatd/src/shard.rs:228-247 | every permitted choice for an unowned cell is its ancestor's shard if and only if no neighbour's owner has capacity or that shard beats every other voter |
| RouterTheorems.FullHomeKeepsChildIff | crates/mlatd/src/shard.rs:222-247 | a child of a full home stays if and only if no neighbour's owner has capacity |
| RouterTheorems.UnclaimedSiblingVotesHome | crates/mlatd/src/shard.rs:168-227 | each sibling nobody owns votes for the home shard while that has capacity |
| RouterTheorems.LosingAChildTakesVotes | crates/mlatd/src/shard.rs:209-234 | a home with capacity loses a child only to one shard with as many votes as it has unclaimed siblings: three, when none is claimed |
| RouterTheorems.ChildIsOutvoted | README.md:214-215 | a concrete sound partition in which a home with room is outvoted five to three |
| RouterTheorems.ChildLeavesHome | README.md:214-215 | a concrete sound partition in which a split cell's child leaves its home shard |
| Shard.ShardState.AddReceiver | crates/mlatd/src/state.rs:195-235 | displaces the user's old connection, reuses the last freed slot or grows, bumps the generation |
| Shard.ShardState.RemoveReceiver | crates/mlatd/src/state.rs:237-249 | a live reference frees its slot and its pairs; a stale one changes nothing |
| Shard.ShardState.ResetClock | crates/mlatd/src/state.rs:255-260 | a clock reset drops the slot's pairs |
| Shard.ShardState.TakeSync | crates/mlatd/src/state.rs:264-374 | a report trains both directions against every earlier live reporter, up to 15 |
| ShardTheorems.StepKeeps | crates/mlatd/src/state.rs:195-374 | free slots are the dead ones, users and live slots correspond, pairs are symmetric over distinct live slots, points have at most 15 reporters |
| ShardTheorems.ReconnectTakesSlotBack | crates/mlatd/src/state.rs:196-235 | a reconnecting user gets its slot back with the next generation and nobody else is affected |
| ShardTheorems.ZombieTeardownIsHarmless | crates/mlatd/src/state.rs:237-253 | the displaced connection's late teardown changes nothing |
| ShardTheorems.ReferencesRepeatIff | crates/mlatd/src/state.rs:207-234 | two issues give the same reference if and only if they are of one slot, a multiple of 2^32 issues apart |
| ShardTheorems.NoReferenceTwice | crates/mlatd/src/state.rs:207-234 | no reference is issued twice before its counter wraps |
| ShardTheorems.DeadReferencesStayDead | crates/mlatd/src/state.rs:251-253 | a dead reference stays dead through any later events until its counter wraps |
| ShardTheorems.SlotsArePeak | crates/mlatd/src/state.rs:207-224 | over every run the number of slots is the most receivers ever live at once |
| ShardTheorems.PairTableHolds | crates/mlatd/src/state.rs:341-373 | at every reachable state a pair's two models summarise the same shared events seen from either side |
| ShardTheorems.PairsAreTheirLogs | crates/mlatd/src/state.rs:195-374 | over every run each pair is trained by exactly the observations its two slots shared since one of them last changed hands or reset its clock, in order; a pair that shared none is absent |
| ShardTheorems.ResetForgetsPairs | crates/mlatd/src/state.rs:237-260 | a live reset or teardown drops exactly the pairs of its slot; a stale one changes nothing |
| ShardTheorems.ThereAndBack | crates/mlatd/src/clocksync.rs:98-109 | between exactly linear clocks a reading converted to the other receiver and back returns |
| ShardTheorems.SweepDropsTheOld | crates/mlatd/src/state.rs:450-453 | a sweep drops exactly the sync points created 4 s ago or longer |
| ShardTheorems.TwoForEachMeeting | crates/mlatd/src/state.rs:356-373 | two observations are counted for each earlier report of another live slot |
| ShardTheorems.SyncPointsTrainLittle | crates/mlatd/src/state.rs:341-373 | from creation to expiry a sync point counts at most 210 observations |
| ShardTheorems.ReportsAreExplained | crates/mlatd/src/state.rs:341-355 | over every run each report in a sync point comes from one sync event of a reference live then, with its slot and times |
| ShardTheorems.ReportsAreTheHoldersIff | crates/mlatd/src/state.rs:45-49 | a report trained by a sync event is the present holder's own if and only if its slot was not handed out since (beyond 2^32 issues: a multiple of 2^32 times) |
| ShardTheorems.TakeoverTrainsOldTimes | crates/mlatd/src/state.rs:354-373 | a run from the empty state on which a pair is trained with the times of the slot's old holder |
| ShardTheorems.ReusedSlotInheritsReports | crates/mlatd/src/state.rs:195-249 | from any state with one such report: the next receiver takes the slot over and is trained with its old holder's times |
| Clusters.FindClusters | crates/mlatd/src/state.rs:550-561 | the index loops split sorted times into consecutive clusters, each within 2.5 ms of its start and the next beyond |
| Clusters.ClustersFit | crates/mlatd/src/state.rs:550-561 | entries of one cluster are within 2.5 ms of each other, and the next cluster starts later than that |
| Clusters.RangesCover | crates/mlatd/src/state.rs:552-561 | every entry lies in exactly one cluster |
| Clusters.ClustersAreFewest | crates/mlatd/src/state.rs:550-561 | no assignment of the entries to groups spanning at most 2.5 ms uses fewer groups |
| Publication.Publisher.SolveCluster | crates/mlatd/src/state.rs:641-852 | back-off, redundancy, altitude, error, throttle, speed and ADS-B gates, with the track and the statistics they leave: a fix counts as solved, a rejection as rejected |
| Publication.OutcomesIff | crates/mlatd/src/state.rs:641-778 | over every history each of the nine outcomes has its exact condition on the latest fix, the speed rejections since and the time of the last try |
| Publication.TooFastIff | crates/mlatd/src/state.rs:643-721 | an attempt is a speed rejection if and only if the earlier gates are open, the throttle passes, the trusted fix is between 0.05 and 30 s old, and more than 400 m for each of those seconds away |
| Publication.RejectsIff | crates/mlatd/src/state.rs:657-718 | an attempt counts as rejected if and only if it has four receivers too soon, or reaches the solver and passes neither as a fix nor for self-truth |
| Publication.TrackRemembersItsHistory | crates/mlatd/src/state.rs:707-721 | the track holds the latest fix, the speed rejections since, which are at most five, and the last try, all three defined by the gates' conditions; the fifth rejection clears the position |
| Publication.PublishedFixesAreApart | crates/mlatd/src/state.rs:641-778 | consecutive fixes: at least 0.4 s, 30 s for four receivers, throttle and 400 m/s bounds unless five speed rejections came between |
| Publication.PublishedIff | crates/mlatd/src/state.rs:641-778 | over every history an attempt is published if and only if back-off, redundancy, altitude, error and ADS-B gates are open and it is consistent with the latest fix not discredited by five speed rejections |
| Publication.RejectionsWithAGap | crates/mlatd/src/state.rs:39-42 | a run whose two counted speed rejections are not consecutive |
| Publication.TracksAreIndependent | crates/mlatd/src/state.rs:642-662 | an aircraft's track depends on its own attempts only |
| Output.OutputTask.Take | crates/mlatd/src/main.rs:172-203 | a fix from a shard that does not own its point is never published; any other is if and only if its key is not in the window, which stays the last 4096 keys |
| Output.PublishedAtHome | crates/mlatd/src/main.rs:172-186 | over every run each published key is that of a fix whose point nobody owns or its own shard does |
| Output.ForeignFixesChangeNothing | crates/mlatd/src/main.rs:172-182 | fixes from shards that do not own their points change nothing about what is published, wherever they come |
| Output.TwinsIff | crates/mlatd/src/main.rs:183-186 | two fixes share a key if and only if they are of one aircraft and their stamps fall into one 100 ms bucket |
| Output.TwinsAcrossABoundary | crates/mlatd/src/main.rs:161-193 | however close, two fixes with a bucket boundary between them are both published |
| Output.FarFixesAreNoTwins | crates/mlatd/src/main.rs:183-186 | stamps at least 100 ms apart never share a key |
| Output.RepeatsAreFarApart | crates/mlatd/src/main.rs:183-193 | any 4097 consecutive published fixes have distinct keys |
| Output.WindowRefinesFullHistory | crates/mlatd/src/main.rs:161-193 | with no more keys published than the window holds it behaves as a memory of everything |
| Output.OncePublishesEachKey | crates/mlatd/src/main.rs:161-186 | that memory publishes exactly once each key of a fix at an unowned point or one of its shard's |

## Left out

- Rounding of floating-point numbers; every bound is over exact reals.
- Results.ResultPositionSurvives: says nothing of the longitude when encoder and decoder count different zones, which takes a latitude in the rounding sliver.
- CprTheorems.GlobalDecodeRecovers: says nothing of the longitude when encoder and decoder count different zones, which takes a latitude in the rounding sliver.
- RouterTheorems.AncestorsAreSplit: for cells whose index is inside the 16-bit range; at its ends an owned cell can have an unsplit parent (`PinnedCellHasUnsplitParent`).
- RouterTheorems.LosingAChildTakesVotes: for coordinates within 65,532 degrees, beyond which siblings share indexes.
- Engine.TrafficEngine.Announce: lists the notices before it expires aircraft, where the source collects them during one walk.
- Shard.ShardState.AddReceiver: omits the shard's reference receiver, which nothing outside this method reads, and the reset of the slot's bias and sync counters, which are not modelled.
- Shard.ShardState.RemoveReceiver: omits dropping the slot's time-stamp offset, which is not modelled.
- Shard.ShardState.TakeSync: takes decoded frames and corrected times; the hex, frame and CPR checks before them only drop messages. Altitudes, claimed positions and per-receiver counters are not modelled.
- Publication.Publisher.SolveCluster: picking one observation per receiver and the cap at 16 come before it and are not modelled; neither is bias learning.
- Router state changed by another task in the middle of a placement: placements, teardowns and rate updates are single steps.
- The sigma that a conversion returns beside its value; only the gate on it is modelled.
- The engine's and the counters' 32- and 64-bit overflow after 2^32 messages or more.
- Election of a group's reference receiver, two-hop conversion, bias learning, quarantine, time stamping and statistics.
- The solver, the geodesy library, trajectories, the smoothing filter and the closed form of the zone function.
- Tasks, sockets, timers, channels and compression, except as queues and single steps.
- Handshake, JSON, SBS and CSV text, captures, import, fuzzing, scoring, probes and plots.
