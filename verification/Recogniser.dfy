/** The speech recogniser's side: sending audio, keeping the time base, and muting what a finished
    sentence said. The service itself is outside the model; its answers are parameters. */
module Recogniser {
  import opened Bytes
  import opened Packets
  import opened Substrings
  import opened DelayLine
  import opened MuteTranscoder
  import opened DelayBuffer
  import opened MuteAlgebra
  import opened MuteRuns
  import opened WordTimes
  import opened Blacklist
  import opened TimeBase
  import opened BlacklistFile

  /** The stream times a list of hits stands for. */
  function WindowsOf(base: int, hits: seq<AudioSegment>): (r: seq<Window>)
    ensures |r| == |hits|
  {
    seq(|hits|, i requires 0 <= i < |hits| => Window(base + hits[i].start, base + hits[i].end))
  }

  lemma WindowsUpTo(base: int, hits: seq<AudioSegment>, i: nat)
    requires i < |hits|
    ensures WindowsOf(base, hits[..i + 1])
         == WindowsOf(base, hits[..i]) + [Window(base + hits[i].start, base + hits[i].end)]
  {
  }

  lemma SameHitsSameWindows(base: int, one: seq<AudioSegment>, other: seq<AudioSegment>)
    requires forall h :: h in one ==> h in other
    ensures forall w :: w in WindowsOf(base, one) ==> w in WindowsOf(base, other)
  {
    forall w | w in WindowsOf(base, one) ensures w in WindowsOf(base, other) {
      var i :| 0 <= i < |one| && WindowsOf(base, one)[i] == w;
      assert one[i] in other;
      var j :| 0 <= j < |other| && other[j] == one[i];
      assert WindowsOf(base, other)[j] == w;
    }
  }

  /** The buffer after a sentence does not depend on the order in which the hash table enumerates the
      dictionary, nor on repeated words, when muting succeeds. */
  lemma EnumerationIrrelevant(cfg: Config, st: State, base: int, text: seq<byte>, words: seq<Word>,
      one: seq<seq<byte>>, dones: seq<set<nat>>, other: seq<seq<byte>>, others: seq<set<nat>>)
    requires NoEmptyWord(one) && NoEmptyWord(other) && forall w :: w in one <==> w in other
    requires var ws := WindowsOf(base, Hits(text, words, one)); |ws| == |dones| && NothingRefused(cfg, st, ws, dones)
    requires var vs := WindowsOf(base, Hits(text, words, other)); |vs| == |others| && NothingRefused(cfg, st, vs, others)
    ensures MuteEach(cfg, st, WindowsOf(base, Hits(text, words, one)), dones)
         == MuteEach(cfg, st, WindowsOf(base, Hits(text, words, other)), others)
  {
    OrderIrrelevant(text, words, one, other);
    SameHitsSameWindows(base, Hits(text, words, one), Hits(text, words, other));
    SameHitsSameWindows(base, Hits(text, words, other), Hits(text, words, one));
    MuteOrderIrrelevant(cfg, st, WindowsOf(base, Hits(text, words, one)), dones, WindowsOf(base, Hits(text, words, other)), others);
  }

  /** The buffer's state and the codec's next call after the mutes of these hits. */
  ghost function PlayHits(codec: Codec, cfg: Config, st: State, n: nat, base: int, hits: seq<AudioSegment>): Played
    requires codec.Valid()
  {
    Play(codec, cfg, st, n, MutesOf(WindowsOf(base, hits)))
  }

  /** So it is with the codec's own mutes, if it never fails. */
  lemma PlayedEnumerationIrrelevant(codec: Codec, cfg: Config, st: State, n: nat, base: int, text: seq<byte>, words: seq<Word>,
      one: seq<seq<byte>>, other: seq<seq<byte>>)
    requires codec.Valid() && codec.AlwaysOk()
    requires NoEmptyWord(one) && NoEmptyWord(other) && forall w :: w in one <==> w in other
    ensures PlayHits(codec, cfg, st, n, base, Hits(text, words, one)).st == PlayHits(codec, cfg, st, n, base, Hits(text, words, other)).st
  {
    var dones := PlayedWindows(codec, cfg, st, n, WindowsOf(base, Hits(text, words, one)));
    var others := PlayedWindows(codec, cfg, st, n, WindowsOf(base, Hits(text, words, other)));
    EnumerationIrrelevant(cfg, st, base, text, words, one, dones, other, others);
  }

  /** Packet `p` is audio from at most 200 before a hit's time span to its end. */
  ghost predicate NearHit(audio: int, p: Packet, base: int, hit: AudioSegment) {
    p.stream == audio && base + hit.start - 200 <= p.pts <= base + hit.end
  }

  lemma InSomeHit(cfg: Config, p: Packet, base: int, hits: seq<AudioSegment>)
    ensures InSome(cfg, p, WindowsOf(base, hits)) <==> exists hit :: hit in hits && NearHit(cfg.audio, p, base, hit)
  {
    var ws := WindowsOf(base, hits);
    if InSome(cfg, p, ws) {
      var w :| w in ws && InWindow(cfg.audio, p, w.start, w.end);
      var i :| 0 <= i < |ws| && ws[i] == w;
      assert hits[i] in hits && NearHit(cfg.audio, p, base, hits[i]);
    }
    if hit :| hit in hits && NearHit(cfg.audio, p, base, hit) {
      var i :| 0 <= i < |hits| && hits[i] == hit;
      assert ws[i] in ws && InWindow(cfg.audio, p, ws[i].start, ws[i].end);
    }
  }

  /** Packet `p` is near the time span of a reported occurrence of a dictionary word. */
  ghost predicate NearWord(audio: int, p: Packet, base: int, text: seq<byte>, words: seq<Word>, order: seq<seq<byte>>) {
    exists w, at: nat :: w in order && NearOccurrence(audio, p, base, text, words, w, at)
  }

  ghost predicate NearOccurrence(audio: int, p: Packet, base: int, text: seq<byte>, words: seq<Word>, w: seq<byte>, at: nat) {
    w != [] && at in Scan(text, w, 0) && NearHit(audio, p, base, SegmentAt(words, w, at))
  }

  lemma NearHitIsNearWord(audio: int, p: Packet, base: int, text: seq<byte>, words: seq<Word>, order: seq<seq<byte>>)
    requires NoEmptyWord(order)
    ensures (exists hit :: hit in Hits(text, words, order) && NearHit(audio, p, base, hit)) <==> NearWord(audio, p, base, text, words, order)
  {
    if hit :| hit in Hits(text, words, order) && NearHit(audio, p, base, hit) {
      HitIff(text, words, order, hit);
      var w, at: nat :| w in order && Reports(hit, text, words, w, at);
      assert NearOccurrence(audio, p, base, text, words, w, at);
    }
    if NearWord(audio, p, base, text, words, order) {
      var w, at: nat :| w in order && NearOccurrence(audio, p, base, text, words, w, at);
      var hit := SegmentAt(words, w, at);
      assert Reports(hit, text, words, w, at);
      HitIff(text, words, order, hit);
    }
  }

  /** What a sentence does to the buffer, with a codec that never fails and nothing in between: exactly the
      held audio near a reported occurrence of a dictionary word becomes silent. */
  lemma SentenceSilences(codec: Codec, cfg: Config, st: State, n: nat, base: int, text: seq<byte>, words: seq<Word>,
                         order: seq<seq<byte>>, k: nat)
    requires codec.Valid() && codec.AlwaysOk() && NoEmptyWord(order) && k < |st.buf|
    ensures var r := PlayHits(codec, cfg, st, n, base, Hits(text, words, order)).st;
            && r == st.(buf := r.buf) && |r.buf| == |st.buf|
            && r.buf[k] == if NearWord(cfg.audio, st.buf[k], base, text, words, order) then st.buf[k].(payload := Silent) else st.buf[k]
  {
    var ws := WindowsOf(base, Hits(text, words, order));
    var dones := PlayedWindows(codec, cfg, st, n, ws);
    MuteAllPointwise(cfg, st, ws, dones);
    InSomeHit(cfg, st.buf[k], base, Hits(text, words, order));
    NearHitIsNearWord(cfg.audio, st.buf[k], base, text, words, order);
  }

  /** A possible enumeration of the dictionary loaded from this file. */
  ghost predicate EnumeratesFile(order: seq<seq<byte>>, file: seq<byte>) {
    forall w :: w in order <==> w in Loaded(file)
  }

  lemma EnumeratesLines(order: seq<seq<byte>>, file: seq<byte>)
    requires EnumeratesFile(order, file)
    ensures forall w :: w in order <==> w in Lines(file)
    ensures NoEmptyWord(order) <==> !HasBlankLine(file, 0)
  {
    EmptyWordIffBlankLine(file);
    forall w ensures w in order <==> w in Lines(file) {
      assert w in order <==> w in Loaded(file);
    }
    if [] in order {
      var i :| 0 <= i < |order| && order[i] == [];
    }
  }

  /** Two dictionary files with the same lines, in any order and with any repetitions, leave the same
      buffer after a sentence, however the hash tables enumerate them, when muting succeeds. */
  lemma LineOrderIrrelevant(cfg: Config, st: State, base: int, text: seq<byte>, words: seq<Word>,
      file: seq<byte>, one: seq<seq<byte>>, dones: seq<set<nat>>, copy: seq<byte>, other: seq<seq<byte>>, others: seq<set<nat>>)
    requires EnumeratesFile(one, file) && EnumeratesFile(other, copy) && !HasBlankLine(file, 0)
    requires forall line :: line in Lines(file) <==> line in Lines(copy)
    ensures NoEmptyWord(one) && NoEmptyWord(other)
    ensures var ws, vs := WindowsOf(base, Hits(text, words, one)), WindowsOf(base, Hits(text, words, other));
            |ws| == |dones| && NothingRefused(cfg, st, ws, dones) && |vs| == |others| && NothingRefused(cfg, st, vs, others) ==>
              MuteEach(cfg, st, ws, dones) == MuteEach(cfg, st, vs, others)
  {
    EnumeratesLines(one, file);
    EnumeratesLines(other, copy);
    EmptyWordIffBlankLine(file);
    EmptyWordIffBlankLine(copy);
    var ws, vs := WindowsOf(base, Hits(text, words, one)), WindowsOf(base, Hits(text, words, other));
    if |ws| == |dones| && NothingRefused(cfg, st, ws, dones) && |vs| == |others| && NothingRefused(cfg, st, vs, others) {
      EnumerationIrrelevant(cfg, st, base, text, words, one, dones, other, others);
    }
  }

  /** What the other threads do before a hit is muted: where they have taken the base when it is read, and
      the packets the reader reads and pushes before the lock is taken. */
  datatype Gap = Gap(base: int, pushes: seq<Packet>)

  ghost predicate Sensible(gaps: seq<Gap>) {
    forall i :: 0 <= i < |gaps| ==> NonNegative(gaps[i].pushes)
  }

  /** The mutes of the first `i` hits, among the reader's pushes. */
  function SentencePlan(hits: seq<AudioSegment>, gaps: seq<Gap>, i: nat): seq<Event>
    requires i <= |hits| == |gaps|
  {
    if i == 0 then []
    else
      SentencePlan(hits, gaps, i - 1) + PushAll(gaps[i - 1].pushes) + [MuteOf(hits[i - 1], gaps[i - 1].base)]
  }

  function MuteOf(hit: AudioSegment, base: int): Event {
    Mute(base + hit.start, base + hit.end, {})
  }

  lemma PlanStep(hits: seq<AudioSegment>, gaps: seq<Gap>, i: nat, hit: AudioSegment, gap: Gap, pushed: seq<Event>)
    requires i < |hits| == |gaps| && hit == hits[i] && gap == gaps[i]
    requires pushed == SentencePlan(hits, gaps, i) + PushAll(gap.pushes)
    ensures SentencePlan(hits, gaps, i + 1) == pushed + [MuteOf(hit, gap.base)]
  {
  }

  /** What the reader pushes before the first `i` hits are muted. */
  function PushedBefore(gaps: seq<Gap>, i: nat): seq<Packet>
    requires i <= |gaps|
  {
    if i == 0 then [] else PushedBefore(gaps, i - 1) + gaps[i - 1].pushes
  }

  function SpansOf(hits: seq<AudioSegment>, gaps: seq<Gap>, i: nat): (r: seq<Window>)
    requires i <= |hits| == |gaps|
    ensures |r| == i
  {
    seq(i, j requires 0 <= j < i => Window(gaps[j].base + hits[j].start, gaps[j].base + hits[j].end))
  }

  /** The plan of a sentence, without its making: it pushes what the reader pushes, and mutes the span of
      each hit in turn, moved by the base that was read for it. */
  lemma {:induction false} SentencePlanHolds(hits: seq<AudioSegment>, gaps: seq<Gap>, i: nat)
    requires i <= |hits| == |gaps|
    ensures Pushed(SentencePlan(hits, gaps, i)) == PushedBefore(gaps, i)
    ensures WindowsIn(SentencePlan(hits, gaps, i)) == SpansOf(hits, gaps, i)
  {
    if i == 0 {
    } else {
      var k := i - 1;
      var plan, pushes, mute := SentencePlan(hits, gaps, k), PushAll(gaps[k].pushes), MuteOf(hits[k], gaps[k].base);
      SentencePlanHolds(hits, gaps, k);
      PushAllPushes(gaps[k].pushes);
      WindowsInPushes(gaps[k].pushes);
      PushedAppend(plan, pushes);
      WindowsInAppend(plan, pushes);
      assert (plan + pushes + [mute])[..|plan + pushes|] == plan + pushes;
      assert SpansOf(hits, gaps, i) == SpansOf(hits, gaps, k) + [Window(gaps[k].base + hits[k].start, gaps[k].base + hits[k].end)];
    }
  }

  /** Where hit number `i` is muted: after exactly the pushes that come before it. */
  lemma SentencePlanAt(hits: seq<AudioSegment>, gaps: seq<Gap>, i: nat) returns (k: nat)
    requires i < |hits| == |gaps|
    ensures var plan := SentencePlan(hits, gaps, |hits|);
            && k < |plan| && plan[k] == Mute(gaps[i].base + hits[i].start, gaps[i].base + hits[i].end, {})
            && Pushed(plan[..k]) == PushedBefore(gaps, i + 1) && WindowsIn(plan[..k]) == SpansOf(hits, gaps, i)
  {
    var plan, pushes := SentencePlan(hits, gaps, i), PushAll(gaps[i].pushes);
    k := |plan + pushes|;
    SentencePlanGrows(hits, gaps, i + 1, |hits|);
    assert SentencePlan(hits, gaps, i + 1) == plan + pushes + [MuteOf(hits[i], gaps[i].base)];
    assert SentencePlan(hits, gaps, |hits|)[..k] == plan + pushes;
    SentencePlanHolds(hits, gaps, i);
    PushAllPushes(gaps[i].pushes);
    WindowsInPushes(gaps[i].pushes);
    PushedAppend(plan, pushes);
    WindowsInAppend(plan, pushes);
    assert SpansOf(hits, gaps, i) + [] == SpansOf(hits, gaps, i);
  }

  lemma {:induction false} SentencePlanGrows(hits: seq<AudioSegment>, gaps: seq<Gap>, i: nat, j: nat)
    requires i <= j <= |hits| == |gaps|
    ensures SentencePlan(hits, gaps, i) <= SentencePlan(hits, gaps, j)
  {
    if i == j {
    } else {
      SentencePlanGrows(hits, gaps, i, j - 1);
    }
  }

  lemma NothingBetween(plan: seq<Event>, pushes: seq<Event>, mutes: seq<Event>)
    requires pushes == []
    ensures plan + pushes + mutes == plan + mutes
  {
  }

  /** If the others do nothing meanwhile, these are the mutes of the hits at the base as it is. */
  lemma {:induction false} QuietPlan(hits: seq<AudioSegment>, base: int, gaps: seq<Gap>, i: nat)
    requires i <= |hits| == |gaps| && forall j :: 0 <= j < |gaps| ==> gaps[j] == Gap(base, [])
    ensures SentencePlan(hits, gaps, i) == MutesOf(WindowsOf(base, hits[..i]))
  {
    if i == 0 {
    } else {
      var k := i - 1;
      QuietPlan(hits, base, gaps, k);
      NothingBetween(SentencePlan(hits, gaps, k), PushAll(gaps[k].pushes), [MuteOf(hits[k], base)]);
      WindowsUpTo(base, hits, k);
      MutesOfMore(WindowsOf(base, hits[..k]), Window(base + hits[k].start, base + hits[k].end));
    }
  }

  lemma PushAllMore(plan: seq<Event>, ps: seq<Packet>)
    ensures ps == [] ==> plan + PushAll(ps) == plan
    ensures ps != [] ==> plan + PushAll(ps) == plan + PushAll(ps[..|ps| - 1]) + [Push(ps[|ps| - 1])]
  {
  }

  class Asr {
    const heap: Heap
    const codec: Codec
    const delayer: Delayer
    const dict: Dictionary
    var firstAudioPts: int

    constructor (codec: Codec, delayer: Delayer, dict: Dictionary)
      ensures this.codec == codec && this.delayer == delayer && this.dict == dict && heap == delayer.heap
      ensures firstAudioPts == 0
    {
      this.codec, this.delayer, this.dict, this.heap := codec, delayer, dict, delayer.heap;
      firstAudioPts := 0;
    }

    /** `order` is how the hash table happens to enumerate the dictionary. */
    ghost predicate Enumerates(order: seq<seq<byte>>)
      reads dict
    {
      forall w :: w in order <==> w in dict.data
    }

    function GetTimeBase(): int
      reads this
    {
      firstAudioPts
    }

    method ResetAsrTimeBase()
      modifies this`firstAudioPts
      ensures firstAudioPts == BaseStep(old(firstAudioPts), Reset)
    {
      firstAudioPts := 0;
    }

    /** Decode, resample (`resampled` is the answer) and send (`sentBytes` is the answer). The packet
        stays the caller's, no frame is left behind, and the base moves as one step of its history. */
    method SendAudio(pkt: AVPacket, resampled: int, sentBytes: int) returns (r: int)
      requires codec.Valid()
      modifies this`firstAudioPts, heap, codec
      ensures heap.packets == old(heap.packets) && heap.frames == old(heap.frames)
      ensures r == 0 || r == -1
      ensures Outcome(r == 0, codec.calls) == Exchange(codec.script, codec.calm, old(codec.calls))
      ensures firstAudioPts == BaseStep(old(firstAudioPts), Sent(pkt.pts, r == 0 && resampled >= 0 && sentBytes > 0))
    {
      var reply := codec.Send();
      if reply != Ok { return -1; }
      var frame := heap.AllocFrame();
      reply := codec.Receive();
      if reply != Ok {
        heap.FreeFrame(frame);
        return -1;
      }
      codec.Fill(frame);
      if resampled >= 0 {
        if firstAudioPts == 0 && sentBytes > 0 {
          firstAudioPts := pkt.pts;
        }
      }
      heap.FreeFrame(frame);
      return 0;
    }

    /** How far things have come since state `st` and call number `n`: the buffer and the codec are where
        the plan takes them, and nothing else is alive but what was. */
    ghost predicate Amid(st: State, n: nat, plan: seq<Event>, others: set<AVPacket>, frames: set<AVFrame>)
      reads delayer, delayer.heap, delayer.packets, delayer.replacer.codec
    {
      && delayer.Valid() && delayer.IsAt(Play(delayer.replacer.codec, delayer.Cfg(), st, n, plan))
      && delayer.Elsewhere() == others && delayer.heap.frames == frames
    }

    /** The output accepts the handshake, or the plan has not called for it. */
    ghost predicate GoesOn(st: State, n: nat, plan: seq<Event>)
      requires delayer.replacer.codec.Valid()
    {
      delayer.sink.Accepts() || Play(delayer.replacer.codec, delayer.Cfg(), st, n, plan).st.out == []
    }

    lemma GoesOnBefore(st: State, n: nat, part: seq<Event>, whole: seq<Event>)
      requires delayer.replacer.codec.Valid() && part <= whole
      ensures GoesOn(st, n, whole) ==> GoesOn(st, n, part)
    {
      assert whole[..|part|] == part;
      PlayGrows(delayer.replacer.codec, delayer.Cfg(), st, n, whole, |part|);
    }

    /** The reader reads a packet. */
    method ReaderReads(p: Packet, ghost st: State, ghost n: nat, ghost plan: seq<Event>,
                       ghost others: set<AVPacket>, ghost frames: set<AVFrame>) returns (pkt: AVPacket)
      requires Amid(st, n, plan, others, frames)
      modifies delayer.heap
      ensures fresh(pkt) && pkt !in others && pkt.Value() == p && Amid(st, n, plan, others + {pkt}, frames)
    {
      ghost var held := View(delayer.packets);
      pkt := delayer.heap.AllocPacket();
      pkt.pts, pkt.dts, pkt.duration, pkt.stream, pkt.payload := p.pts, p.dts, p.duration, p.stream, p.payload;
      assert View(delayer.packets) == held;
    }

    /** The reader reads a packet and pushes it. */
    method ReaderPushes(p: Packet, ghost st: State, ghost n: nat, ghost plan: seq<Event>, ghost more: seq<Event>,
                        ghost others: set<AVPacket>, ghost frames: set<AVFrame>) returns (ok: bool)
      requires Amid(st, n, plan, others, frames) && p.duration >= 0 && more == plan + [Push(p)]
      modifies delayer, delayer.heap
      ensures delayer.replacer.codec.Valid() && (ok <==> GoesOn(st, n, more))
      ensures ok ==> Amid(st, n, more, others, frames)
      ensures !ok ==> delayer.wire == []
    {
      PlayPush(delayer.replacer.codec, delayer.Cfg(), st, n, plan, p, more);
      var pkt := ReaderReads(p, st, n, plan, others, frames);
      ok := delayer.Push(pkt);
    }

    method ReaderPushesAll(ps: seq<Packet>, ghost st: State, ghost n: nat, ghost plan: seq<Event>, ghost more: seq<Event>,
                           ghost others: set<AVPacket>, ghost frames: set<AVFrame>) returns (ok: bool)
      requires Amid(st, n, plan, others, frames) && NonNegative(ps) && more == plan + PushAll(ps)
      modifies delayer, delayer.heap
      ensures delayer.replacer.codec.Valid() && (ok <==> GoesOn(st, n, more))
      ensures ok ==> Amid(st, n, more, others, frames)
      ensures !ok ==> delayer.wire == []
      decreases |ps|
    {
      PushAllMore(plan, ps);
      if ps == [] {
        return true;
      }
      ghost var part := plan + PushAll(ps[..|ps| - 1]);
      ok := ReaderPushesAll(ps[..|ps| - 1], st, n, plan, part, others, frames);
      GoesOnBefore(st, n, part, more);
      if ok {
        ok := ReaderPushes(ps[|ps| - 1], st, n, part, more, others, frames);
      }
    }

    /** A finished sentence: look it up and mute the time span of every hit, in turn. Meanwhile the reader
        pushes packets and the base may move, as `gaps` tells. The process exits exactly if a push calls for
        the handshake and the output refuses it. Otherwise the buffer and the codec are where these pushes
        and mutes, in this order, take them. */
    method OnSentenceEnd(sentence: seq<byte>, words: seq<Word>, order: seq<seq<byte>>, gaps: seq<Gap>) returns (ok: bool)
      requires delayer.Valid() && Enumerates(order) && [] !in dict.data
      requires NoEmptyWord(order) && |gaps| == |Hits(Strip(sentence), words, order)|
      requires Sensible(gaps)
      modifies delayer, delayer.heap, delayer.replacer.codec, this`firstAudioPts
      ensures delayer.replacer.codec.Valid()
      ensures var hits, st, n := Hits(Strip(sentence), words, order), old(delayer.Abs()), old(delayer.replacer.codec.calls);
              if ok then HitsMuted(hits, gaps, |hits|, old(firstAudioPts), st, n, old(delayer.Elsewhere()), old(delayer.heap.frames))
              else !GoesOn(st, n, SentencePlan(hits, gaps, |hits|)) && delayer.wire == []
    {
      var hits := HitDict(sentence, words, order);
      NoneMutedYet(hits, gaps);
      ok := MuteHits(hits, gaps, firstAudioPts, delayer.Abs(), delayer.replacer.codec.calls, delayer.Elsewhere(), delayer.heap.frames);
    }

    /** The first `i` hits have been muted, no refused handshake has been called for, and the base is where
        it was for the last of these hits. */
    ghost predicate HitsMuted(hits: seq<AudioSegment>, gaps: seq<Gap>, i: nat, first: int, st: State, n: nat,
                              others: set<AVPacket>, frames: set<AVFrame>)
      reads this, delayer, delayer.heap, delayer.packets, delayer.replacer.codec
    {
      && i <= |hits| == |gaps|
      && Amid(st, n, SentencePlan(hits, gaps, i), others, frames) && GoesOn(st, n, SentencePlan(hits, gaps, i))
      && firstAudioPts == if i == 0 then first else gaps[i - 1].base
    }

    lemma NoneMutedYet(hits: seq<AudioSegment>, gaps: seq<Gap>)
      requires delayer.Valid() && |gaps| == |hits|
      ensures HitsMuted(hits, gaps, 0, firstAudioPts, delayer.Abs(), delayer.replacer.codec.calls, delayer.Elsewhere(), delayer.heap.frames)
    {
    }

    method MuteHits(hits: seq<AudioSegment>, gaps: seq<Gap>, ghost first: int, ghost st: State, ghost n: nat,
                    ghost others: set<AVPacket>, ghost frames: set<AVFrame>) returns (ok: bool)
      requires Sensible(gaps) && HitsMuted(hits, gaps, 0, first, st, n, others, frames)
      modifies delayer, delayer.heap, delayer.replacer.codec, this`firstAudioPts
      ensures delayer.replacer.codec.Valid()
      ensures if ok then HitsMuted(hits, gaps, |hits|, first, st, n, others, frames)
              else !GoesOn(st, n, SentencePlan(hits, gaps, |hits|)) && delayer.wire == []
    {
      var i := 0;
      while i < |hits|
        invariant i <= |hits| && HitsMuted(hits, gaps, i, first, st, n, others, frames)
      {
        ok := HitTurn(hits, gaps, i, first, st, n, others, frames);
        if !ok { return; }
        i := i + 1;
      }
      return true;
    }

    /** One hit; a refused handshake is refused for the whole sentence. */
    method HitTurn(hits: seq<AudioSegment>, gaps: seq<Gap>, i: nat, ghost first: int, ghost st: State, ghost n: nat,
                   ghost others: set<AVPacket>, ghost frames: set<AVFrame>) returns (ok: bool)
      requires Sensible(gaps) && i < |hits| && HitsMuted(hits, gaps, i, first, st, n, others, frames)
      modifies delayer, delayer.heap, delayer.replacer.codec, this`firstAudioPts
      ensures delayer.replacer.codec.Valid()
      ensures if ok then HitsMuted(hits, gaps, i + 1, first, st, n, others, frames)
              else !GoesOn(st, n, SentencePlan(hits, gaps, |hits|)) && delayer.wire == []
    {
      ghost var plan, next := SentencePlan(hits, gaps, i), SentencePlan(hits, gaps, i + 1);
      ghost var pushed := plan + PushAll(gaps[i].pushes);
      PlanStep(hits, gaps, i, hits[i], gaps[i], pushed);
      ok := MuteHit(hits[i], gaps[i], st, n, plan, pushed, next, others, frames);
      RefusedForAll(hits, gaps, i + 1, st, n);
    }

    lemma RefusedForAll(hits: seq<AudioSegment>, gaps: seq<Gap>, i: nat, st: State, n: nat)
      requires delayer.replacer.codec.Valid() && i <= |hits| == |gaps|
      ensures GoesOn(st, n, SentencePlan(hits, gaps, |hits|)) ==> GoesOn(st, n, SentencePlan(hits, gaps, i))
    {
      SentencePlanGrows(hits, gaps, i, |hits|);
      GoesOnBefore(st, n, SentencePlan(hits, gaps, i), SentencePlan(hits, gaps, |hits|));
    }

    /** The base is read anew for every hit; the lock may come later. */
    method MuteHit(hit: AudioSegment, gap: Gap, ghost st: State, ghost n: nat, ghost plan: seq<Event>, ghost pushed: seq<Event>,
                   ghost next: seq<Event>, ghost others: set<AVPacket>, ghost frames: set<AVFrame>) returns (ok: bool)
      requires Amid(st, n, plan, others, frames) && NonNegative(gap.pushes)
      requires pushed == plan + PushAll(gap.pushes) && next == pushed + [MuteOf(hit, gap.base)]
      modifies delayer, delayer.heap, delayer.replacer.codec, this`firstAudioPts
      ensures delayer.replacer.codec.Valid() && (ok <==> GoesOn(st, n, next))
      ensures ok ==> Amid(st, n, next, others, frames) && firstAudioPts == gap.base
      ensures !ok ==> delayer.wire == []
    {
      firstAudioPts := gap.base;
      var base := GetTimeBase();
      ok := ReaderPushesAll(gap.pushes, st, n, plan, pushed, others, frames);
      GoesOnBefore(st, n, pushed, next);
      if ok {
        MuteAtBase(hit, base, st, n, pushed, next, others, frames);
      }
    }

    method MuteAtBase(hit: AudioSegment, base: int, ghost st: State, ghost n: nat, ghost plan: seq<Event>, ghost more: seq<Event>,
                      ghost others: set<AVPacket>, ghost frames: set<AVFrame>)
      requires Amid(st, n, plan, others, frames) && more == plan + [MuteOf(hit, base)]
      modifies delayer`packets, delayer.heap, delayer.replacer.codec
      ensures delayer.replacer.codec.Valid() && Amid(st, n, more, others, frames) && GoesOn(st, n, more)
    {
      var start, end := base + hit.start, base + hit.end;
      PlayMute(delayer.replacer.codec, delayer.Cfg(), st, n, plan, start, end, more);
      delayer.ReplaceAudioPacket(start, end);
    }
  }
}
