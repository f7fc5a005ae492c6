# A verified model of the RTMP relay

The relay reads a live stream, holds its packets in a delay buffer, lets a speech recogniser listen to
the audio, and silences the packets in which a blacklisted word was spoken before they are sent on. Two
threads share the buffer: the reader pushes packets, the recogniser's callbacks mute them in place.

The model has two layers. Classes with fields that methods update (`Delayer`, `Replacer`, `Codec`, `Asr`,
`Relayer`, `Dictionary`, `Stats`, and the allocator `Heap`) follow the program; each method is proved
against functions on values, and the theorems are about those functions, for every input, every codec
answer and every interleaving. `dafny verify dfyconfig.toml` checks everything.

| file | what it models |
|---|---|
| `DelayLine`, `DelayGuarantees` | the delay buffer as a step machine, and what holds over all its runs |
| `MuteAlgebra`, `MuteRuns` | how mutes combine, and which ones a given codec's answers let through |
| `Packets`, `MuteTranscoder`, `DelayBuffer` | packet objects and their allocator, the decode-clear-encode transcoder, the buffer's class |
| `Bytes`, `Substrings`, `Utf8` | white space removal, left-to-right search, UTF-8 (section 3 of RFC 3629) |
| `BlacklistFile`, `WordTimes`, `Blacklist` | the dictionary file, byte positions to times, the lookup of a sentence |
| `TimeBase`, `Recogniser` | the recogniser's time base, sending audio, the sentence callback |
| `RelaySystem`, `Censorship` | both threads as one machine, and the end-to-end promises |
| `Relaying` | the reader's loop and the life of every packet |
| `Splitter`, `SplitterUtf8`, `StartStatistics` | the sentence splitter and the timing statistics of the streaming synthesiser demo |

## What the proofs found

- `flush` never reads the front of an empty list exactly when the delay is not negative
  (`SafeIffDelayNotNegative`); the program takes the delay from the command line unchecked.
- The 32-bit running total equals the buffered duration throughout a run exactly when no push takes that
  duration past the largest int (`TotalExactIffFits`). No packet ever leaves early, even when the total has
  wrapped around (`NeverEarly`), so the configured delay and the end-to-end results hold on every run.
- A packet that is due can be held back when the total wraps around (`OverflowHoldsPacketsBack`). Packets
  leave exactly when they are due, and flushing after each push equals one flush at the end, if and only if
  every push of the run is timely: afterwards the buffered sum fits the int, or not even the front packet is
  due, or, for a packet that by itself does not fit the int, the wrapped total still releases all others
  (`EmittedExactlyWhenDue`, `BufferIsShortestSuffix`, `IncrementalEqualsBatch`, `TimelyShortPush`). With
  durations of at most D no run overflows exactly when limit + 2D fits the int (`NoneOverflowsIffRoom`); the
  total's upper bounds hold in any case (`TotalIsBounded`).
- Muting ends, on any script of codec answers, exactly when each retry loop that is reached meets an answer
  other than EAGAIN on its own pattern of calls (`MutingEndsIff`).
- The relay gets to the end of its input exactly when the output accepts the handshake or no packet is due by
  then (`StartProcess`); a codec's refusals change which packets are silent, never which are sent when
  (`RefusalsKeepPlace`).
- The search for a dictionary word ends exactly when the word is not empty (`ScanEndsIffNotEmpty`), and
  the dictionary contains the empty word exactly when its file has a blank line (`EmptyWordIffBlankLine`).
- Every occurrence of a word is reported, in every text, exactly when the word has no proper border
  (`AllReportedIffBorderless`).
- Word alignment needs no assumption that word texts are not empty (`SpanEnds`).
- A mute window covers the span meant exactly when the base is late by 0 to 200 (`WindowCoversIffBaseWithinMargin`).
- The splitter ends on every text exactly when no delimiter is empty, or every single letter is a
  delimiter listed before the empty one (`SplitEndsIff`).
- The two elapsed-time formulas agree on all valid times in either order (`FormulasAgree`), and are the
  elapsed time exactly when the end is not before the start (`ElapsedIffInOrder`).
- The stored minimum is the true one exactly when no sample is zero or the last one is (`SentinelIsMinimumIff`),
  and the stored average the floor of the mean exactly when the total fits 64 bits (`AverageIffFits`).

## Model

| member | source | states |
|---|---|---|
| DelayLine.PopMoves | processor/delayer.cpp:31-67 | one flush above the limit moves a prefix of the buffer to the output, never empties it or reads past it, stops with more than the limit held but no more if one more packet were popped, and keeps total minus true sum |
| DelayLine.RunConserves | processor/delayer.cpp:15-90 | for every interleaving of pushes and mutes, packet number i has the pts, dts, duration and stream it was pushed with, in push order, and is silent iff it was pushed so or a successful mute whose widened window holds it ran between its push and its emission |
| DelayLine.OutputGrows | processor/delayer.cpp:57-61 | what has been sent is final: a longer run only appends to the output |
| DelayGuarantees.WrapMeans | processor/delayer.cpp:19-58 | the wrapped total is the only 32-bit int that differs from the sum by a multiple of 2^32 |
| DelayGuarantees.TotalIsWrappedSum | processor/delayer.cpp:15-67 | in every reachable state the int total is the wrapped sum of the buffered durations, mutes included, and no flush has read an empty list, even after a wrap-around |
| DelayGuarantees.SafeIffDelayNotNegative | processor/delayer.cpp:33-38 | no run of packets with non-negative durations makes flush read an empty list, if and only if the limit is not negative |
| DelayGuarantees.TotalExactIffFits | processor/delayer.cpp:19-27 | the total is the exact sum at every point of a run iff no push of the run takes the buffered sum past the largest int |
| DelayGuarantees.NeverEarly | processor/delayer.cpp:31-66 | on every run, wrapped total or not, what was pushed after a packet that has been sent lasts longer than the limit |
| DelayGuarantees.DelayIsGuaranteed | processor/delayer.cpp:33-38 | when a packet has been sent, audio or video pushed after it lasts more than 1000 times the delay; on every run |
| DelayGuarantees.OverflowHoldsPacketsBack | processor/delayer.cpp:33 | a concrete run, at a delay of one second, past the largest int in which a packet that is due is not sent |
| DelayGuarantees.TimelyShortPush | processor/delayer.cpp:17-28 | the guard for packets whose own duration fits the int: after the push the sum fits too, or not even the front packet is due |
| DelayGuarantees.NothingDueHeldIffTimely | processor/delayer.cpp:31-66 | throughout a run nothing that is due is held iff every push meets the guard |
| DelayGuarantees.BufferIsShortestSuffix | processor/delayer.cpp:31-67 | after every part of a run the buffer is the shortest suffix of everything pushed that lasts longer than the limit, or everything if none does, iff every push is timely |
| DelayGuarantees.IncrementalEqualsBatch | processor/delayer.cpp:15-67 | flushing after every push has sent the very packets, but for silence, that one flush of everything with an unbounded total would send, iff every push is timely |
| DelayGuarantees.EmittedExactlyWhenDue | processor/delayer.cpp:31-66 | after every part of a run packet i has been sent iff what was pushed after it lasts longer than the limit, never earlier and never blocked by a predecessor; this holds iff every push is timely |
| DelayGuarantees.TotalIsBounded | processor/delayer.cpp:15-67 | with durations at most D the total stays within limit + 2D before a flush and limit + D after it, on every run, overflowing ones included |
| DelayGuarantees.RoomIsEnough | processor/delayer.cpp:15-67 | if limit + 2D fits the int, such a run never overflows, every push is timely and the total is never negative |
| DelayGuarantees.NoneOverflowsIffRoom | processor/delayer.cpp:15-67 | no run with durations at most D overflows iff limit + 2D fits the int; for D within the int the same room is what makes all pushes of all such runs timely |
| MuteAlgebra.MutesCommute | processor/delayer.cpp:74-85 | two mutes, with whatever refusals, may change places |
| MuteAlgebra.MuteIdempotent | processor/delayer.cpp:74-85 | repeating a mute changes nothing |
| MuteAlgebra.MuteEachPointwise | processor/asr.cpp:64-68 | after a list of mutes a held packet is silenced iff one of the windows holds it and was not refused; nothing else changes |
| MuteAlgebra.MuteOrderIrrelevant | processor/asr.cpp:64-68 | when muting succeeds the buffer depends only on the set of windows, not on order or repetition |
| MuteAlgebra.SilencedIffMeant | processor/delayer.cpp:69-90 | when the codec refuses nothing, packet number i is silenced iff some mute between its push and its emission has it in its widened window |
| MuteAlgebra.PlanDetermines | processor/delayer.cpp:15-90 | when the codec refuses nothing, the order of pushes and windows alone determines the output and the buffer |
| MuteAlgebra.RefusalsKeepPlace | processor/delayer.cpp:15-90 | refusals do not change how many packets have been sent, how many are held, or the total |
| MuteRuns.AnswerOfEach | processor/delayer.cpp:74-85 | in one walk the four loops for each audio packet from 200 before the start to the end of the window begin with the calls left over by the packets before it, and their end decides; a refusal does not end the walk, and for other packets the codec is not called |
| MuteRuns.ReliableRefusesNone | processor/replacer.cpp:97-273 | a codec that never fails refuses no packet of the window |
| MuteRuns.PlayIsRun | processor/delayer.cpp:15-90 | with a given codec the pushes and windows in order determine a run of the machine, refusals included |
| MuteRuns.PlaceAsPlanned | processor/delayer.cpp:31-66 | when packets are sent does not depend on the codec |
| MuteRuns.PlayedWindows | processor/asr.cpp:64-68 | a sentence's windows, played with a codec, are the mutes of each window in turn, with nothing refused by a codec that never fails |
| MuteTranscoder.SettleIsFirst | processor/replacer.cpp:104-120 | a retry loop stops at the first answer on its own call pattern that is not EAGAIN |
| MuteTranscoder.ExchangeIs | processor/asr.cpp:301-354 | sending and receiving end in exactly one way: each of the two loops settles at its first answer on its own call pattern that is not EAGAIN, only an ok leads on, and the next free call follows |
| MuteTranscoder.TranscodeIs | processor/replacer.cpp:104-257 | the same of the four loops of muting: it succeeds iff all four settle on ok, whatever EAGAINs come before |
| MuteTranscoder.MutingEndsIff | processor/replacer.cpp:104-257 | the four loops end, on any script of answers, iff each one that is reached meets an answer other than EAGAIN on its own pattern of calls, every one for a send and every second for a receive |
| MuteTranscoder.Codec.Send | processor/replacer.cpp:104-120 | the send loops end after finitely many EAGAINs with the first other answer |
| MuteTranscoder.Codec.Receive | processor/replacer.cpp:123-201 | the receive loops, which send once more with an ignored answer after each EAGAIN, end likewise |
| MuteTranscoder.MemsetZero | processor/replacer.cpp:152 | exactly the given bytes become zero |
| MuteTranscoder.ClearSamples | processor/replacer.cpp:150-154 | the nested loops clear byte b of channel plane c iff c is one of the channels and b < samples * size, and change no other byte |
| MuteTranscoder.ClearedIsSilent | processor/replacer.cpp:150-154 | a frame so cleared is silent in every channel |
| MuteTranscoder.Replacer.DecodeSilent | processor/replacer.cpp:104-201 | the decoding half leaves a live silent frame iff both settled answers are ok, and otherwise no frame |
| MuteTranscoder.Replacer.Encode | processor/replacer.cpp:203-257 | the encoding half frees the frame on every path and leaves a new packet iff both settled answers are ok |
| MuteTranscoder.Replacer.ReplaceAudioToMute | processor/replacer.cpp:97-273 | muting terminates, leaves no frame, and leaves either the untouched input alive or, iff all four loops settle on ok after however many EAGAINs, a new silent packet with the input's pts, dts, duration and the audio stream, the input being freed |
| DelayBuffer.PopStep | processor/delayer.cpp:38-61 | one turn of the flush loop stays on course for the same final state and does not wrap the total |
| DelayBuffer.Delayer.Push | processor/delayer.cpp:15-29 | a push is one step of the machine; the buffer takes over exactly the packet and frees exactly what it sends; the process goes on iff the handshake is accepted or nothing is due yet, and exits with nothing written otherwise |
| DelayBuffer.Delayer.Flush | processor/delayer.cpp:31-67 | the loop computes the machine's flush, within owned memory |
| DelayBuffer.BufferKeepsDelay | processor/delayer.cpp:33-38 | a packet that the buffer has sent was followed by audio or video lasting more than 1000 times its own delaySec, on every run |
| DelayBuffer.BufferSendsWhenDue | processor/delayer.cpp:33-61 | and on timely runs it is sent exactly when what follows lasts more than 2000 times delaySec |
| DelayBuffer.WireMeans | processor/delayer.cpp:39-60 | the output is the header, once, and then the packets in the order sent |
| DelayBuffer.Delayer.EmitFront | processor/delayer.cpp:38-61 | one packet leaves the front, is written after the header and freed |
| DelayBuffer.Delayer.Handshake | processor/delayer.cpp:39-55 | the header is written once, before the first packet; the process exits iff opening an output that has a file fails or writing the header does |
| DelayBuffer.Delayer.ReplaceAudioPacket | processor/delayer.cpp:69-90 | the walk is one mute step of the machine: exactly the audio packets of the widened window for which the codec's answers, taken up packet by packet, are all ok are replaced, nothing is leaked or freed twice |
| DelayBuffer.Delayer.MuteAt | processor/delayer.cpp:80-84 | a list entry is replaced by its silent copy iff the four settled answers from the codec's next call on are ok, else kept, and ownership moves with it |
| DelayBuffer.Delayer.Destroy | processor/delayer.cpp:9-13 | destruction frees every packet held, once, and no other |
| Bytes.RemoveSpaces | utils/utils.cpp:3-8 | the in-place compaction leaves exactly the bytes that are not white space, in order |
| Bytes.StripHasNoSpace | utils/utils.cpp:6 | what is left are exactly the other bytes of the text |
| Bytes.StripKeepsOrder | utils/utils.cpp:6 | every byte kept lands right behind those kept before it |
| Bytes.StripComesFrom | utils/utils.cpp:6 | and every place of the result is that of a byte kept |
| Substrings.FindIsFirst | processor/asr.cpp:378 | `find` yields the first occurrence at or after the start position, or none if there is none |
| Substrings.ScanSound | processor/asr.cpp:376-380 | the reported positions are occurrences, in order, that do not overlap |
| Substrings.ScanCovers | processor/asr.cpp:376-380 | every occurrence starts inside a reported one |
| Substrings.ScanIsLargest | processor/asr.cpp:376-380 | no set of occurrences that do not overlap is larger than the reported one |
| Substrings.ScanIsPacking | processor/asr.cpp:376-380 | the reported positions are such a set, so their number is the maximum |
| Substrings.AllReportedIffBorderless | processor/asr.cpp:376-380 | all occurrences are reported in every text iff the word has no proper border |
| Substrings.ScanEndsIffNotEmpty | processor/asr.cpp:378-380 | the search loop ends, on any text, iff the word is not empty |
| Utf8.DecodeEncode | dict.txt:1-31 | UTF-8 encoding of a scalar value loses nothing |
| Utf8.EncodeIsShortest | dict.txt:1-31 | the encoding is well-shaped by the table of section 3 of RFC 3629, and the shortest and only such form of its length, so overlong forms are excluded |
| Utf8.LeadIsBoundary | dict.txt:1-31 | self-synchronisation: a byte that is not a continuation byte starts a code point |
| Utf8.ByteMatchIsAligned | processor/asr.cpp:378-380 | in UTF-8 text every byte match of a UTF-8 word starts and ends on a code point boundary and is a code point match |
| Utf8.ScanAligned | processor/asr.cpp:376-380 | the byte scan reports exactly the positions of the code point scan |
| Utf8.StripAligned | utils/utils.cpp:3-8 | removing white space bytes from UTF-8 removes exactly the white space code points |
| Utf8.StrippedScanAligned | processor/asr.cpp:374-380 | both together: after white space removal the byte scan still reports exactly the code point scan |
| BlacklistFile.LinesRoundTrip | censor/dictionary.cpp:27-30 | loading a file of newline-ended words yields exactly those words in order |
| BlacklistFile.UnendedRoundTrip | censor/dictionary.cpp:27-30 | a last line without a newline is loaded too |
| BlacklistFile.EmptyWordIffBlankLine | censor/dictionary.cpp:27-30 | the empty word is loaded iff the file begins with a newline or has two in a row |
| BlacklistFile.GetLine | censor/dictionary.cpp:27 | the line at the read position and the position after it, a final newline opening no further line |
| BlacklistFile.Dictionary.LoadFromFile | censor/dictionary.cpp:18-31 | every line becomes a key; a file that cannot be opened changes nothing |
| WordTimes.Walk | processor/asr.cpp:382-400 | the walk yields the start time of the last word starting by the hit's first byte and the end time of the last word starting before its end; zeros without words |
| WordTimes.SpanEnds | processor/asr.cpp:382-400 | when the texts cover the hit these are the words holding its first and its last byte |
| WordTimes.SpanIsExact | processor/asr.cpp:382-403 | with ordered times the span contains every word the hit touches, and every other word with text lies entirely outside it |
| Blacklist.ScanWord | processor/asr.cpp:376-404 | one word's loop appends the segment of each position of its scan, in order |
| Blacklist.HitDict | processor/asr.cpp:370-408 | the result is the concatenation of all words' segments on the stripped sentence |
| Blacklist.HitIff | processor/asr.cpp:375-404 | a segment is reported iff it is that of a reported occurrence of a dictionary word |
| Blacklist.OrderIrrelevant | processor/asr.cpp:375 | which segments are reported does not depend on enumeration order or repetition of the words |
| Blacklist.HitContainsWord | processor/asr.cpp:382-403 | the segment of a hit contains the time of every word it touches |
| Blacklist.SegmentEnds | processor/asr.cpp:382-403 | whatever the word list, the segment runs from the start of the last word starting by the first byte of the hit to the end of the last word starting by its last byte |
| Blacklist.SegmentIsExact | processor/asr.cpp:382-403 | when the words spell the sentence in order, the segment contains every word the hit touches and lies entirely outside every other word with text |
| Blacklist.SpacedWordNeverHit | processor/asr.cpp:374-378 | a word containing white space is never found |
| TimeBase.BaseIsFirstCounting | processor/asr.cpp:330-334 | the base is the pts of the first accepted packet with non-zero pts since the last reset, 0 iff there is none |
| Recogniser.EnumerationIrrelevant | processor/asr.cpp:63-70 | when muting succeeds the buffer after a sentence does not depend on the hash table's enumeration of the dictionary |
| Recogniser.PlayedEnumerationIrrelevant | processor/asr.cpp:63-70 | the same for the mutes of a given codec that never fails |
| Recogniser.LineOrderIrrelevant | censor/dictionary.cpp:27-30 | two dictionary files with the same lines, whatever their order and repetitions and however they are enumerated, leave the same buffer after a sentence when muting succeeds |
| Recogniser.SentenceSilences | processor/asr.cpp:43-73 | with a codec that never fails and nothing in between, a sentence silences exactly the held audio from 200 before the span of a reported occurrence of a dictionary word to its end |
| Recogniser.Asr.ResetAsrTimeBase | processor/asr.h:81-83 | a reset step of the base |
| Recogniser.Asr.SendAudio | processor/asr.cpp:298-361 | the base moves as by one send event, accepted iff decoding, resampling and sending worked; the decoder is called as its loops need; the packet stays alive and no frame does |
| Recogniser.QuietPlan | processor/asr.cpp:64-68 | when the other threads do nothing meanwhile, a sentence is the mutes of its hits at the base as it is |
| Recogniser.SentencePlanHolds | processor/asr.cpp:64-68 | the plan of a sentence pushes what the reader pushes, and mutes the span of each hit in turn, moved by the base read for it |
| Recogniser.SentencePlanAt | processor/asr.cpp:64-68 | each hit is muted after exactly the pushes that come before it and the hits before it |
| Recogniser.Asr.OnSentenceEnd | processor/asr.cpp:43-73 | while the reader pushes any packets and the base moves between the hits, the buffer and the codec end where these pushes and one mute for each hit, at the base read for it and as the codec answers, in this order, take them; the process exits iff a push calls for a handshake that is refused |
| RelaySystem.LineFollowsMachine | processor/relayer.cpp:120-153 | inside any interleaving of both threads' steps the buffer is in the state its own machine reaches on the run's buffer events |
| RelaySystem.BaseFollowsHistory | processor/asr.cpp:12-26 | and the base is what the run's sends and resets make it |
| RelaySystem.BaseIsFirstSent | processor/asr.cpp:330-334 | in any run the base is the pts of the first audio packet accepted with non-zero pts since the last reset, 0 iff there is none |
| RelaySystem.NeverStuck | processor/relayer.cpp:120-153 | a run can always be continued, by either thread, without waiting for the other |
| RelaySystem.PendingIsServed | processor/asr.cpp:64-70 | a hit still to be muted is muted later or still pending, whatever the reader does |
| RelaySystem.PendingHasOrigin | processor/asr.cpp:62-64 | every pending hit was found in a sentence that ended before |
| RelaySystem.ReadSinceSentence | processor/asr.cpp:64-68 | the base a hit is muted by was the base at some moment since its sentence ended, though it may move before the lock is taken |
| Censorship.PushedIsRead | processor/relayer.cpp:120-153 | what has been pushed is what the reader has read, in order, but for the packet in hand |
| Censorship.OnlySpokenWordsAreSilenced | processor/asr.cpp:62-70 | over every run, a packet is silenced only if it is audio in the widened time span of a reported occurrence of a dictionary word in a sentence of the run; if the words spell that sentence, its time lies from 200 before the word holding the first byte of the occurrence to the end of the word holding its last byte |
| Censorship.MutedStepSilences | processor/delayer.cpp:69-90 | a packet that a mute puts before the codec, being held and in its window, and that is not refused, is silent for ever after |
| Censorship.InTimeIsHeld | processor/delayer.cpp:31-66 | while the stream pushed after a packet lasts no longer than the limit it has not been sent |
| Censorship.InTimeIsHeardAndHeld | processor/delayer.cpp:31-66 | so audio pushed before a sentence ended is still held when its hits have been muted, if the answer came within the delay |
| Censorship.SpokenWordsAreSilenced | processor/asr.cpp:43-73 | end to end: audio heard during a word that overlaps a reported blacklist hit, pushed before the mutes and still held after them, goes out silent if the codec did not refuse it when it was offered and the base was late by at most the margin whenever it was read, for every interleaving |
| Censorship.BorderlessWordsAreSilenced | processor/asr.cpp:370-408 | for dictionary words without a proper border the same holds of every occurrence in the sentence |
| Censorship.NothingRefusedSuffices | processor/delayer.cpp:81-84 | a run in which the codec refused nothing held in any window has refused no packet it was offered |
| Censorship.ReliableNeverRefuses | processor/replacer.cpp:97-273 | nor has one whose mutes are answered by a codec that never fails |
| Censorship.RelayKeepsItsPromise | processor/asr.cpp:43-73 | with a codec that never fails and an answer within the delay, audio heard during a word that overlaps a reported hit goes out silent |
| Censorship.WindowCoversIffBaseWithinMargin | processor/delayer.cpp:80 | the widened window covers the intended span iff the base is late by 0 to 200 |
| Relaying.Relayer.Interfere | processor/delayer.cpp:69-90 | mutes that get the lock between two reader steps silence what the given windows in order and the codec's answers make silent, and keep the ownership of every packet |
| Relaying.Relayer.Send | processor/relayer.cpp:130-135 | audio is sent to the recogniser: its base and its decoder move as by this frame |
| Relaying.Relayer.Route | processor/relayer.cpp:127-152 | after the given mutes video and audio are pushed, audio, and only audio, after being sent to the recogniser; anything else is freed; the process goes on iff the handshake is accepted or nothing is due yet |
| Relaying.RoutedAt | processor/relayer.cpp:127-147 | every audio or video frame is relayed right behind those before it |
| Relaying.RoutedComesFrom | processor/relayer.cpp:127-152 | and nothing else is relayed |
| Relaying.PlanPushesRouted | processor/relayer.cpp:127-152 | the events an input stands for push exactly its audio and video frames, in order |
| Relaying.PlanAt | processor/relayer.cpp:127-152 | each of them is pushed after exactly the frames before it and the mutes given with it or before |
| Relaying.PlanMutesAll | processor/delayer.cpp:69-90 | and the mutes are exactly those given, in order |
| Relaying.HearsAudioOnly | processor/relayer.cpp:128-136 | the recogniser is sent exactly the audio frames, in order, with the resets in their places |
| Relaying.HearCalls | processor/asr.cpp:301-354 | its decoder is called for audio frames only, each going on where the one before left off |
| Relaying.BaseIsFirstAccepted | processor/asr.cpp:330-334 | in terms of the input, the base is the pts of the first audio frame accepted with non-zero pts since the last reset, 0 iff there is none |
| Relaying.Relayer.StartProcess | processor/relayer.cpp:110-154 | the relay gets to the end of the input iff the output accepts the handshake or nothing is due by then; the buffer, the codec and the base are then where the frames, windows, resets and the codecs' answers, in the given order, take them, the base being, from 0, the pts of the first accepted audio frame with non-zero pts since the last reset; and every live packet is in the buffer, once |
| Relaying.Relayer.WholeIsRun | processor/relayer.cpp:110-154 | that is a run of the machine whose pushes are exactly the audio and video frames in input order, and in which a codec that never fails refuses nothing |
| Relaying.Relayer.SentWhenDue | processor/delayer.cpp:33-61 | with frames short enough for the int, a relayed frame has been sent iff the frames after it last more than 2000 times the delay |
| Relaying.Relayer.SilentIsInWindow | processor/delayer.cpp:80 | a relayed frame that is silent is audio in one of the given windows, widened by 200 |
| Relaying.Relayer.RunToEnd | processor/relayer.cpp:110-154 | under the same exact condition, at the end of the stream and the buffer's life no packet and no frame is alive; the output is the header and then the relayed frames in order with their times, each sent only once audio or video after it lasts more than the delay, silent as the machine on exactly those frames, windows and codec answers says |
| Splitter.FindNearest | alibabacloud-nls-cpp-sdk/demo/Linux/flowingSynthesizerDemo.cpp:325-337 | the inner loop computes the search over all delimiters |
| Splitter.NearestIsNearest | alibabacloud-nls-cpp-sdk/demo/Linux/flowingSynthesizerDemo.cpp:328-337 | it finds the first position where any delimiter occurs, and the first delimiter in the list that occurs there |
| Splitter.SplitString | alibabacloud-nls-cpp-sdk/demo/Linux/flowingSynthesizerDemo.cpp:318-351 | it terminates for non-empty delimiters, and the parts, in order, are the texts of pieces cut by the rule that rejoin to the text; no part holds a delimiter and none is an empty rest |
| Splitter.RuleDetermines | alibabacloud-nls-cpp-sdk/demo/Linux/flowingSynthesizerDemo.cpp:324-348 | the pieces are the only ones cut by the rule: nearest first, ties to the earlier in the list |
| Splitter.RejoinRebuilds | alibabacloud-nls-cpp-sdk/demo/Linux/flowingSynthesizerDemo.cpp:339-347 | putting the consumed delimiters back gives the text exactly |
| Splitter.SplitKeepsItsPromise | alibabacloud-nls-cpp-sdk/demo/Linux/flowingSynthesizerDemo.cpp:318-351 | no part holds any delimiter, no empty part follows a final delimiter, and rejoining rebuilds the text |
| Splitter.SplitEndsIff | alibabacloud-nls-cpp-sdk/demo/Linux/flowingSynthesizerDemo.cpp:324-348 | a list of delimiters makes the loop end on every text iff none is empty or every single letter comes before the empty one |
| SplitterUtf8.SplitAligned | alibabacloud-nls-cpp-sdk/demo/Linux/flowingSynthesizerDemo.cpp:1129-1132 | on UTF-8 text and delimiters the byte parts are the encoded code point parts |
| StartStatistics.FormulasAgree | alibabacloud-nls-cpp-sdk/demo/Linux/flowingSynthesizerDemo.cpp:430-439 | the branching formula equals the flat one, both being the elapsed microseconds modulo 2^64, over 1000 |
| StartStatistics.ElapsedIffInOrder | alibabacloud-nls-cpp-sdk/demo/Linux/flowingSynthesizerDemo.cpp:522-526 | the result is the floor of the elapsed microseconds over 1000 iff the end is not before the start |
| StartStatistics.Stats.OnStarted | alibabacloud-nls-cpp-sdk/demo/Linux/flowingSynthesizerDemo.cpp:426-475 | every field describes the samples seen so far, the new one included |
| StartStatistics.BucketsPartition | alibabacloud-nls-cpp-sdk/demo/Linux/flowingSynthesizerDemo.cpp:446-459 | the six buckets add up to the number of samples |
| StartStatistics.SentinelIsMinimumIff | alibabacloud-nls-cpp-sdk/demo/Linux/flowingSynthesizerDemo.cpp:461-468 | the stored minimum is the true one iff no sample is zero or the last one is |
| StartStatistics.AverageIffFits | alibabacloud-nls-cpp-sdk/demo/Linux/flowingSynthesizerDemo.cpp:471-475 | the wrapped total divided by the count is the floor of the true mean iff the total fits 64 bits |
| StartStatistics.BucketsMean | alibabacloud-nls-cpp-sdk/demo/Linux/flowingSynthesizerDemo.cpp:446-459 | each bucket is the number of samples in its own range |
| StartStatistics.FieldsMean | alibabacloud-nls-cpp-sdk/demo/Linux/flowingSynthesizerDemo.cpp:441-475 | while the count fits 64 bits the fields are the count, the true maximum, each bucket's own count, the floor of the mean iff the total fits too, and the true minimum iff no sample is zero or the last one is |

## Left out

- Decoding, encoding, resampling, demuxing and muxing themselves: the codec is an arbitrary script of answers, payloads are original or silent, and the encoder yields silence exactly for an all-zero frame.
- Frames are planar, as the clearing loops presume; with packed samples of more than one channel they would address planes that do not exist.
- Allocation failure, and the return code of `av_interleaved_write_frame`, which the program ignores.
- Overflow of 64-bit times and of the product of delay and 2000; only the 32-bit total is modelled with its wrap-around.
- The data race on the time base: each read and write of it is one atomic step here.
- Token handling, the recogniser's set-up and reconnection, and the gRPC notifications sent beside the mutes.
- Real time, pacing by `usleep`, printing, the command line, and locales other than C for `isspace`.
- `pushVideoFrame` and `pushAudioFrame` have the same body and are one method here; `Dictionary::exists` is a plain lookup.
- Censorship.SpokenWordsAreSilenced: assumes the recogniser's word texts spell the stripped sentence with ordered times; nothing in the program enforces it, and `WordTimes.Walk` says what happens otherwise.
- The other statistics of the demo (first packet, completion, closing) repeat the same maximum, minimum and average.
- The other demos, the test programs and the rest of the vendored SDK.
