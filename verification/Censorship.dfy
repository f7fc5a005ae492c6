/** What the relay promises: over every run of its two threads, spoken blacklist words go out silent
    if the recogniser answers within the delay, and nothing else is silenced. */
module Censorship {
  import opened Bytes
  import opened Substrings
  import opened Packets
  import opened DelayLine
  import opened DelayGuarantees
  import opened MuteTranscoder
  import opened MuteAlgebra
  import opened MuteRuns
  import opened WordTimes
  import opened Blacklist
  import opened RelaySystem

  /** Step number `n` of a run put this event on the buffer's trace. */
  ghost predicate Caused(r: Relay, acts: seq<Act>, states: seq<Sys>, n: nat, e: Event)
    requires IsRun(r, acts, states)
  {
    n < |acts| && Stepped(r, acts, states, n) && LineEvent(states[n], acts[n]) == Some(e)
  }

  lemma {:induction false} EventHasCause(r: Relay, acts: seq<Act>, states: seq<Sys>, n: nat, k: nat)
    requires IsRun(r, acts, states) && n <= |acts| && k < |Trace(r, acts, states, n)|
    ensures exists m: nat :: m < n && Caused(r, acts, states, m, Trace(r, acts, states, n)[k])
  {
    assert n > 0 && Stepped(r, acts, states, n - 1);
    if k < |Trace(r, acts, states, n - 1)| {
      EventHasCause(r, acts, states, n - 1, k);
      var m: nat :| m < n - 1 && Caused(r, acts, states, m, Trace(r, acts, states, n - 1)[k]);
      assert Caused(r, acts, states, m, Trace(r, acts, states, n)[k]);
    } else {
      assert Caused(r, acts, states, n - 1, Trace(r, acts, states, n)[k]);
    }
  }

  /** The packets pushed during the first `n` steps. */
  ghost function PushedBy(r: Relay, acts: seq<Act>, states: seq<Sys>, n: nat): seq<Packet>
    requires IsRun(r, acts, states) && n <= |acts|
  {
    Pushed(Trace(r, acts, states, n))
  }

  function InHand(s: Sys): seq<Packet> {
    if s.hand.Some? then [s.hand.value] else []
  }

  lemma PushedByStep(r: Relay, acts: seq<Act>, states: seq<Sys>, n: nat)
    requires IsRun(r, acts, states) && n < |acts|
    ensures PushedBy(r, acts, states, n + 1) == PushedBy(r, acts, states, n) +
              match acts[n] case PushVideo(p) => [p] case PushAudio => InHand(states[n]) case _ => []
  {
    assert Stepped(r, acts, states, n);
    var before, now := Trace(r, acts, states, n), Trace(r, acts, states, n + 1);
    match LineEvent(states[n], acts[n])
    case None => assert now == before;
    case Some(e) => assert now == before + [e] && now[..|now| - 1] == before;
  }

  lemma ReadStep(r: Relay, s: Sys, a: Act, pushed: seq<Packet>, read: seq<Packet>)
    requires r.Valid() && Enabled(s, a) && pushed + InHand(s) == read
    ensures pushed + (match a case PushVideo(p) => [p] case PushAudio => InHand(s) case _ => []) + InHand(Next(r, s, a))
         == read + ReadOf(a)
  {
  }

  /** What was pushed during the first `n` steps is what the reader has read, in order, but for the packet
      that it has in hand. */
  lemma {:induction false} PushedIsRead(r: Relay, acts: seq<Act>, states: seq<Sys>, n: nat)
    requires IsRun(r, acts, states) && n <= |acts|
    ensures PushedBy(r, acts, states, n) + InHand(states[n]) == ReadBy(acts, n)
  {
    if n == 0 {
    } else {
      var k := n - 1;
      PushedIsRead(r, acts, states, k);
      PushedByStep(r, acts, states, k);
      assert Stepped(r, acts, states, k);
      ReadStep(r, states[k], acts[k], PushedBy(r, acts, states, k), ReadBy(acts, k));
    }
  }

  /** The reason why packet `p` was silenced: sentence number `k` had the dictionary word `w` at byte
      `at`, and step number `m` muted the time span of that hit, widened, with `p` inside it; the base
      was the one at step `b`, after the sentence. */
  datatype Reason = Reason(k: nat, b: nat, m: nat, w: seq<byte>, at: nat, hit: AudioSegment)

  ghost predicate Justifies(r: Relay, acts: seq<Act>, states: seq<Sys>, why: Reason, p: Packet)
    requires IsRun(r, acts, states)
  {
    && why.k < why.b < why.m < |acts| && acts[why.k].SentenceEnd? && why.w in r.dict
    && Reports(why.hit, Strip(acts[why.k].sentence), acts[why.k].words, why.w, why.at)
    && MutedAt(r, acts, states, why.m, why.hit)
    && InWindow(r.cfg.audio, p, states[why.b].base + why.hit.start, states[why.b].base + why.hit.end)
    && (Joined(acts[why.k].words) == Strip(acts[why.k].sentence) ==>
          HeardNear(r, acts[why.k].words, why.w, why.at, states[why.b].base, p))
  }

  /** Audio from at most 200 before the word that holds the first byte of the occurrence began to the end
      of the word that holds its last byte. */
  ghost predicate HeardNear(r: Relay, words: seq<Word>, w: seq<byte>, at: nat, base: int, p: Packet) {
    exists a: nat, b: nat ::
      && Holds(words, a, at) && Holds(words, b, at + |w| - 1)
      && p.stream == r.cfg.audio && base + words[a].startTime - 200 <= p.pts <= base + words[b].endTime
  }

  /** Nothing is silenced without cause: a packet that was not pushed silent and is silent now is audio,
      and lies in the widened time span of an occurrence of a blacklist word in a sentence of the run; if
      the words spell that sentence, it was heard while the occurrence was spoken, or up to 200 before. */
  lemma OnlySpokenWordsAreSilenced(r: Relay, acts: seq<Act>, states: seq<Sys>, i: nat)
    requires IsRun(r, acts, states) && i < |PushedBy(r, acts, states, |acts|)|
    requires PushedBy(r, acts, states, |acts|)[i].payload != Silent
    ensures |states[|acts|].line.All()| == |PushedBy(r, acts, states, |acts|)|
    ensures states[|acts|].line.All()[i].payload == Silent ==>
              exists why :: Justifies(r, acts, states, why, PushedBy(r, acts, states, |acts|)[i])
  {
    var evs := Trace(r, acts, states, |acts|);
    LineFollowsMachine(r, acts, states, |acts|);
    RunConserves(r.cfg, evs);
    if states[|acts|].line.All()[i].payload == Silent {
      assert Expected(r.cfg, evs, i).payload == Silent;
      var k: nat :| SilencedBy(r.cfg, evs, i, k);
      var why := MuteHasReason(r, acts, states, i, k);
    }
  }

  lemma MuteHasReason(r: Relay, acts: seq<Act>, states: seq<Sys>, i: nat, k: nat) returns (why: Reason)
    requires IsRun(r, acts, states) && SilencedBy(r.cfg, Trace(r, acts, states, |acts|), i, k)
    ensures i < |PushedBy(r, acts, states, |acts|)| && Justifies(r, acts, states, why, PushedBy(r, acts, states, |acts|)[i])
  {
    var evs := Trace(r, acts, states, |acts|);
    PushedGrows(evs, k);
    assert Pushed(evs[..k])[i] == Pushed(evs)[i];
    EventHasCause(r, acts, states, |acts|, k);
    var m: nat :| m < |acts| && Caused(r, acts, states, m, evs[k]);
    why := HitHasReason(r, acts, states, m);
  }

  lemma HitHasReason(r: Relay, acts: seq<Act>, states: seq<Sys>, m: nat) returns (why: Reason)
    requires IsRun(r, acts, states) && m < |acts| && acts[m].MuteNext? && states[m].pending != [] && states[m].read.Some?
    ensures why.m == m && why.hit == states[m].pending[0]
    ensures forall p :: InWindow(r.cfg.audio, p, states[m].read.value + why.hit.start, states[m].read.value + why.hit.end) ==>
                        Justifies(r, acts, states, why, p)
  {
    var hit := states[m].pending[0];
    PendingHasOrigin(r, acts, states, m, hit);
    var s: nat :| s < m && FromSentence(r, acts, s, hit);
    HitIff(Strip(acts[s].sentence), acts[s].words, r.dict, hit);
    var w, at: nat :| w in r.dict && Reports(hit, Strip(acts[s].sentence), acts[s].words, w, at);
    ReadSinceSentence(r, acts, states, s, m);
    var b: nat :| s < b < m && states[b].base == states[m].read.value;
    why := Reason(s, b, m, w, at, hit);
    forall p | InWindow(r.cfg.audio, p, states[b].base + hit.start, states[b].base + hit.end)
      ensures Joined(acts[s].words) == Strip(acts[s].sentence) ==> HeardNear(r, acts[s].words, w, at, states[b].base, p)
    {
      HitIsNear(r, Strip(acts[s].sentence), acts[s].words, w, at, states[b].base, hit, p);
    }
  }

  lemma HitIsNear(r: Relay, text: seq<byte>, words: seq<Word>, w: seq<byte>, at: nat, base: int, hit: AudioSegment, p: Packet)
    requires Reports(hit, text, words, w, at) && InWindow(r.cfg.audio, p, base + hit.start, base + hit.end)
    ensures Joined(words) == text ==> HeardNear(r, words, w, at, base, p)
  {
    if Joined(words) == text {
      var a, b := SegmentHolds(text, words, w, at);
    }
  }

  /** Step number `m` puts packet `i` before the codec: it mutes a window that holds the packet, which has
      been pushed and not yet sent. */
  ghost predicate Offers(r: Relay, acts: seq<Act>, states: seq<Sys>, m: nat, i: nat)
    requires IsRun(r, acts, states)
  {
    && m < |acts| && acts[m].MuteNext? && states[m].pending != [] && states[m].read.Some?
    && |states[m].line.out| <= i < |PushedBy(r, acts, states, m)|
    && var hit, base := states[m].pending[0], states[m].read.value;
       InWindow(r.cfg.audio, PushedBy(r, acts, states, m)[i], base + hit.start, base + hit.end)
  }

  /** A packet that is put before the codec and not refused is silent for ever after. */
  lemma MutedStepSilences(r: Relay, acts: seq<Act>, states: seq<Sys>, m: nat, i: nat)
    requires IsRun(r, acts, states) && Offers(r, acts, states, m, i) && i in acts[m].done
    ensures i < |states[|acts|].line.All()| && states[|acts|].line.All()[i].payload == Silent
  {
    var evs, part := Trace(r, acts, states, |acts|), Trace(r, acts, states, m);
    TraceOfMute(r, acts, states, m, |acts|);
    LineFollowsMachine(r, acts, states, m);
    LineFollowsMachine(r, acts, states, |acts|);
    PushedGrows(evs, |part|);
    assert SilencedBy(r.cfg, evs, i, |part|);
    assert Silenced(r.cfg, evs, i);
    RunConserves(r.cfg, evs);
    assert states[|acts|].line.All()[i] == Expected(r.cfg, evs, i);
  }

  /** Where a mute stands in the trace, and what comes before it. */
  lemma TraceOfMute(r: Relay, acts: seq<Act>, states: seq<Sys>, m: nat, n: nat)
    requires IsRun(r, acts, states) && m < n <= |acts|
    requires acts[m].MuteNext? && states[m].pending != [] && states[m].read.Some?
    ensures var evs, part := Trace(r, acts, states, n), Trace(r, acts, states, m);
            var hit, base := states[m].pending[0], states[m].read.value;
            && |part| < |evs| && evs[..|part|] == part
            && evs[|part|] == Mute(base + hit.start, base + hit.end, acts[m].done)
  {
    var evs, part := Trace(r, acts, states, n), Trace(r, acts, states, m);
    var hit, base := states[m].pending[0], states[m].read.value;
    var e := Mute(base + hit.start, base + hit.end, acts[m].done);
    assert Stepped(r, acts, states, m);
    assert Trace(r, acts, states, m + 1) == part + [e];
    TraceGrows(r, acts, states, m + 1, n);
    assert evs[|part|] == (part + [e])[|part|] == e;
    assert evs[..|part|] == (part + [e])[..|part|] == part;
  }

  /** The recogniser's answer is in time for packet `i`: when step `n` is reached, the stream pushed
      after that packet lasts no longer than the limit. */
  ghost predicate InTime(r: Relay, acts: seq<Act>, states: seq<Sys>, n: nat, i: nat)
    requires IsRun(r, acts, states) && n <= |acts|
  {
    && r.cfg.Valid() && NonNegative(PushedBy(r, acts, states, n))
    && i < |PushedBy(r, acts, states, n)|
    && Sum(PushedBy(r, acts, states, n)[i + 1..]) <= r.cfg.limit
  }

  /** Then it has not been sent yet, at that step or before; also when the total has wrapped around. */
  lemma InTimeIsHeld(r: Relay, acts: seq<Act>, states: seq<Sys>, m: nat, n: nat, i: nat)
    requires IsRun(r, acts, states) && m <= n <= |acts| && InTime(r, acts, states, n, i)
    ensures |states[m].line.out| <= i
  {
    var evs := Trace(r, acts, states, n);
    if i < |Run(r.cfg, evs).out| {
      NeverEarly(r.cfg, evs, i);
    }
    LineFollowsMachine(r, acts, states, m);
    TraceGrows(r, acts, states, m, n);
    var part := Trace(r, acts, states, m);
    assert evs[..|part|] == part;
    OutputGrows(r.cfg, evs, |part|);
  }

  /** Whenever the base was read between steps `k` and `n`, it was not early, and late by at most the margin. */
  ghost predicate BaseWithinMargin(acts: seq<Act>, states: seq<Sys>, k: nat, n: nat, trueBase: int) {
    n <= |acts| && n <= |states| && forall m :: k < m < n && acts[m].ReadBase? ==> 0 <= states[m].base - trueBase <= 200
  }

  /** Whenever packet `i` was put before the codec between steps `k` and `n`, it was not refused. */
  ghost predicate NeverRefused(r: Relay, acts: seq<Act>, states: seq<Sys>, k: nat, n: nat, i: nat)
    requires IsRun(r, acts, states)
  {
    n <= |acts| && forall m: nat :: k < m < n && Offers(r, acts, states, m, i) ==> i in acts[m].done
  }

  /** Audio heard during word number `j`, by the true base. */
  ghost predicate HeardDuring(r: Relay, words: seq<Word>, j: nat, trueBase: int, p: Packet) {
    && j < |words| && p.stream == r.cfg.audio
    && trueBase + words[j].startTime <= p.pts <= trueBase + words[j].endTime
  }

  /** Sentence `k` was looked up and all its hits had been muted when step `n` was reached. */
  ghost predicate SentenceDone(acts: seq<Act>, states: seq<Sys>, k: nat, n: nat) {
    k < n < |states| && n <= |acts| && acts[k].SentenceEnd? && states[n].pending == []
  }

  /** The recogniser's word list spells the sentence, and its times are in order. */
  ghost predicate WordsSpell(a: Act) {
    a.SentenceEnd? && Joined(a.words) == Strip(a.sentence) && Ordered(a.words)
  }

  /** Word number `j` of the sentence overlaps the reported occurrence of the blacklist word `w` at `at`. */
  ghost predicate Blacklisted(r: Relay, a: Act, w: seq<byte>, at: nat, j: nat) {
    && WordsSpell(a) && w != [] && w in r.dict && at in Scan(Strip(a.sentence), w, 0)
    && j < |a.words| && Meets(a.words, j, at, at + |w|)
  }

  /** Packet `i` is audio heard during word number `j` of sentence `k`. It was pushed before any hit of the
      sentence was muted, and was still held when all of them had been, at step `n`. */
  ghost predicate HeardAndHeld(r: Relay, acts: seq<Act>, states: seq<Sys>, k: nat, n: nat, i: nat, j: nat, trueBase: int)
    requires IsRun(r, acts, states)
  {
    && SentenceDone(acts, states, k, n) && |states[n].line.out| <= i < |PushedBy(r, acts, states, n)|
    && HeardDuring(r, acts[k].words, j, trueBase, PushedBy(r, acts, states, n)[i])
    && forall m: nat :: k < m < n && acts[m].MuteNext? ==> i < |PushedBy(r, acts, states, m)|
  }

  lemma ReportedHitIsMuted(r: Relay, acts: seq<Act>, states: seq<Sys>, k: nat, n: nat, w: seq<byte>, at: nat) returns (m: nat)
    requires IsRun(r, acts, states) && SentenceDone(acts, states, k, n)
    requires w != [] && w in r.dict && at in Scan(Strip(acts[k].sentence), w, 0)
    ensures k < m < n && MutedAt(r, acts, states, m, SegmentAt(acts[k].words, w, at))
  {
    var text, words := Strip(acts[k].sentence), acts[k].words;
    var hit := SegmentAt(words, w, at);
    assert Reports(hit, text, words, w, at);
    HitIff(text, words, r.dict, hit);
    assert Stepped(r, acts, states, k);
    PendingIsServed(r, acts, states, k + 1, n, hit);
    m :| k + 1 <= m < n && MutedAt(r, acts, states, m, hit);
  }

  lemma PushedStays(r: Relay, acts: seq<Act>, states: seq<Sys>, k: nat, m: nat)
    requires IsRun(r, acts, states) && k <= m <= |acts|
    ensures PushedBy(r, acts, states, k) <= PushedBy(r, acts, states, m)
  {
    TraceGrows(r, acts, states, k, m);
    var early, late := Trace(r, acts, states, k), Trace(r, acts, states, m);
    assert late[..|early|] == early;
    PushedGrows(late, |early|);
  }

  lemma HeldBefore(r: Relay, acts: seq<Act>, states: seq<Sys>, m: nat, n: nat)
    requires IsRun(r, acts, states) && m <= n <= |acts|
    ensures |states[m].line.out| <= |states[n].line.out|
  {
    LineFollowsMachine(r, acts, states, m);
    LineFollowsMachine(r, acts, states, n);
    TraceGrows(r, acts, states, m, n);
    var part, evs := Trace(r, acts, states, m), Trace(r, acts, states, n);
    assert evs[..|part|] == part;
    OutputGrows(r.cfg, evs, |part|);
  }

  /** The hit is muted at a step that puts the packet before the codec. */
  lemma SpokenWordIsOffered(r: Relay, acts: seq<Act>, states: seq<Sys>, k: nat, n: nat, i: nat,
                            w: seq<byte>, at: nat, j: nat, trueBase: int) returns (m: nat)
    requires IsRun(r, acts, states) && HeardAndHeld(r, acts, states, k, n, i, j, trueBase)
    requires Blacklisted(r, acts[k], w, at, j) && BaseWithinMargin(acts, states, k, n, trueBase)
    ensures k < m < n && Offers(r, acts, states, m, i)
  {
    m := ReportedHitIsMuted(r, acts, states, k, n, w, at);
    HitContainsWord(Strip(acts[k].sentence), acts[k].words, w, at, j);
    ReadSinceSentence(r, acts, states, k, m);
    var b: nat :| k < b < m && acts[b].ReadBase? && states[b].base == states[m].read.value;
    assert 0 <= states[m].read.value - trueBase <= 200;
    PushedStays(r, acts, states, m, n);
    HeldBefore(r, acts, states, m, n);
  }

  /** End to end. Take any word of sentence `k` that overlaps a reported occurrence of a blacklist word,
      and any audio packet heard during that word that was pushed before the sentence's hits were muted
      and still held afterwards. If re-encoding did not fail when the packet was put before the codec, it
      is silent from then on, and so goes out silent; whatever the reader did meanwhile, and though the
      base may have been late by up to the margin whenever it was read. */
  lemma SpokenWordsAreSilenced(r: Relay, acts: seq<Act>, states: seq<Sys>, k: nat, n: nat, i: nat,
                               w: seq<byte>, at: nat, j: nat, trueBase: int)
    requires IsRun(r, acts, states) && HeardAndHeld(r, acts, states, k, n, i, j, trueBase)
    requires Blacklisted(r, acts[k], w, at, j) && BaseWithinMargin(acts, states, k, n, trueBase)
    requires NeverRefused(r, acts, states, k, n, i)
    ensures i < |states[|acts|].line.All()| && states[|acts|].line.All()[i].payload == Silent
  {
    var m := SpokenWordIsOffered(r, acts, states, k, n, i, w, at, j, trueBase);
    MutedStepSilences(r, acts, states, m, i);
  }

  /** For a blacklist word that has no proper border, this covers every occurrence in the sentence. */
  lemma BorderlessWordsAreSilenced(r: Relay, acts: seq<Act>, states: seq<Sys>, k: nat, n: nat, i: nat,
                                   w: seq<byte>, at: nat, j: nat, trueBase: int)
    requires IsRun(r, acts, states) && HeardAndHeld(r, acts, states, k, n, i, j, trueBase)
    requires w in r.dict && !(exists b :: HasBorder(w, b)) && OccursAt(Strip(acts[k].sentence), w, at)
    requires WordsSpell(acts[k]) && j < |acts[k].words| && Meets(acts[k].words, j, at, at + |w|)
    requires BaseWithinMargin(acts, states, k, n, trueBase) && NeverRefused(r, acts, states, k, n, i)
    ensures i < |states[|acts|].line.All()| && states[|acts|].line.All()[i].payload == Silent
  {
    assert w != [];
    AllReportedIffBorderless(w);
    SpokenWordsAreSilenced(r, acts, states, k, n, i, w, at, j, trueBase);
  }

  // ----- When the hypotheses hold

  /** An answer in time: audio that was pushed before sentence `k` ended is held to the end of its mutes. */
  lemma InTimeIsHeardAndHeld(r: Relay, acts: seq<Act>, states: seq<Sys>, k: nat, n: nat, i: nat, j: nat, trueBase: int)
    requires IsRun(r, acts, states) && SentenceDone(acts, states, k, n) && InTime(r, acts, states, n, i)
    requires i < |PushedBy(r, acts, states, k)| && HeardDuring(r, acts[k].words, j, trueBase, PushedBy(r, acts, states, k)[i])
    ensures HeardAndHeld(r, acts, states, k, n, i, j, trueBase)
  {
    InTimeIsHeld(r, acts, states, n, n, i);
    PushedStays(r, acts, states, k, n);
    forall m: nat | k < m < n && acts[m].MuteNext? ensures i < |PushedBy(r, acts, states, m)| {
      PushedStays(r, acts, states, k, m);
    }
  }

  /** When the mute at step `m` refuses nothing that is held in its window, it does not refuse a packet that
      it puts before the codec. */
  lemma OfferedIsReached(r: Relay, acts: seq<Act>, states: seq<Sys>, m: nat, i: nat)
    requires IsRun(r, acts, states) && Offers(r, acts, states, m, i)
    requires var hit, base, line := states[m].pending[0], states[m].read.value, states[m].line;
             NoneRefused(r.cfg.audio, line.buf, |line.out|, base + hit.start, base + hit.end, acts[m].done)
    ensures i in acts[m].done
  {
    var line, evs := states[m].line, Trace(r, acts, states, m);
    LineFollowsMachine(r, acts, states, m);
    RunConserves(r.cfg, evs);
    assert line.buf[i - |line.out|] == line.All()[i] == Expected(r.cfg, evs, i);
  }

  /** If nothing was refused in the run, no packet was. */
  lemma NothingRefusedSuffices(r: Relay, acts: seq<Act>, states: seq<Sys>, k: nat, n: nat, i: nat)
    requires IsRun(r, acts, states) && n <= |acts| && AllReached(r.cfg, Trace(r, acts, states, n))
    ensures NeverRefused(r, acts, states, k, n, i)
  {
    forall m: nat | k < m < n && Offers(r, acts, states, m, i) ensures i in acts[m].done {
      TraceOfMute(r, acts, states, m, n);
      LineFollowsMachine(r, acts, states, m);
      assert ReachedAt(r.cfg, Trace(r, acts, states, n), |Trace(r, acts, states, m)|);
      OfferedIsReached(r, acts, states, m, i);
    }
  }

  /** A mute in this state re-encodes what the codec's answers from this call on let through. */
  ghost predicate AnsweredFrom(codec: Codec, calls: nat, r: Relay, s: Sys, done: set<nat>)
    requires codec.Valid() && s.pending != [] && s.read.Some?
  {
    var hit, base := s.pending[0], s.read.value;
    var answers := AnswersTo(codec, calls, r.cfg.audio, s.line.buf, base + hit.start, base + hit.end);
    done == Numbered(|s.line.out|, answers.oks)
  }

  ghost predicate AnsweredAt(codec: Codec, r: Relay, acts: seq<Act>, states: seq<Sys>, m: nat)
    requires codec.Valid() && m < |acts| && m < |states|
  {
    acts[m].MuteNext? && states[m].pending != [] && states[m].read.Some? ==>
      exists calls :: AnsweredFrom(codec, calls, r, states[m], acts[m].done)
  }

  /** All mutes between two steps were answered by this codec. */
  ghost predicate AnsweredBy(codec: Codec, r: Relay, acts: seq<Act>, states: seq<Sys>, k: nat, n: nat)
    requires codec.Valid() && n <= |acts| && n <= |states|
  {
    forall m: nat :: k < m < n ==> AnsweredAt(codec, r, acts, states, m)
  }

  lemma ReliableRefusesNoOffer(codec: Codec, calls: nat, r: Relay, acts: seq<Act>, states: seq<Sys>, m: nat, i: nat)
    requires codec.Valid() && codec.AlwaysOk()
    requires IsRun(r, acts, states) && Offers(r, acts, states, m, i) && AnsweredFrom(codec, calls, r, states[m], acts[m].done)
    ensures i in acts[m].done
  {
    var hit, base, line := states[m].pending[0], states[m].read.value, states[m].line;
    ReliableRefusesNone(codec, calls, r.cfg.audio, line.buf, |line.out|, base + hit.start, base + hit.end);
    OfferedIsReached(r, acts, states, m, i);
  }

  lemma ReliableNeverRefuses(codec: Codec, r: Relay, acts: seq<Act>, states: seq<Sys>, k: nat, n: nat, i: nat)
    requires codec.Valid() && codec.AlwaysOk()
    requires IsRun(r, acts, states) && n <= |acts| && AnsweredBy(codec, r, acts, states, k, n)
    ensures NeverRefused(r, acts, states, k, n, i)
  {
    forall m: nat | k < m < n && Offers(r, acts, states, m, i) ensures i in acts[m].done {
      assert AnsweredAt(codec, r, acts, states, m);
      var calls :| AnsweredFrom(codec, calls, r, states[m], acts[m].done);
      ReliableRefusesNoOffer(codec, calls, r, acts, states, m, i);
    }
  }

  /** What the relay is for: with a codec that never fails and an answer within the delay, audio heard
      during a word that overlaps a reported hit goes out silent. */
  lemma RelayKeepsItsPromise(codec: Codec, r: Relay, acts: seq<Act>, states: seq<Sys>, k: nat, n: nat, i: nat,
                             w: seq<byte>, at: nat, j: nat, trueBase: int)
    requires codec.Valid() && codec.AlwaysOk()
    requires IsRun(r, acts, states) && SentenceDone(acts, states, k, n) && AnsweredBy(codec, r, acts, states, k, n)
    requires Blacklisted(r, acts[k], w, at, j) && BaseWithinMargin(acts, states, k, n, trueBase)
    requires i < |PushedBy(r, acts, states, k)| && HeardDuring(r, acts[k].words, j, trueBase, PushedBy(r, acts, states, k)[i])
    requires InTime(r, acts, states, n, i)
    ensures i < |states[|acts|].line.All()| && states[|acts|].line.All()[i].payload == Silent
  {
    InTimeIsHeardAndHeld(r, acts, states, k, n, i, j, trueBase);
    ReliableNeverRefuses(codec, r, acts, states, k, n, i);
    SpokenWordsAreSilenced(r, acts, states, k, n, i, w, at, j, trueBase);
  }

  /** The margin is exactly what a late base may cost: the widened window holds every audio packet of
      the span if and only if the base is late by no more than the margin, and not early. */
  lemma WindowCoversIffBaseWithinMargin(audio: int, start: int, end: int, trueBase: int, base: int)
    requires start <= end
    ensures (forall p: Packet :: p.stream == audio && trueBase + start <= p.pts <= trueBase + end ==>
                                 InWindow(audio, p, base + start, base + end))
            <==> 0 <= base - trueBase <= 200
  {
    var first := Packet(trueBase + start, 0, 0, audio, Original);
    var last := Packet(trueBase + end, 0, 0, audio, Original);
    assert InWindow(audio, first, base + start, base + end) && InWindow(audio, last, base + start, base + end)
      <==> 0 <= base - trueBase <= 200;
  }
}
