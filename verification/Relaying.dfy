/** The reader's loop: allocate, read, route by stream, send to the recogniser, push, until the input
    ends. Between any two of its steps the recogniser's thread may mute; each input frame comes with
    the mutes that get the lock before it is pushed. */
module Relaying {
  import opened Substrings
  import opened Packets
  import opened DelayLine
  import opened DelayGuarantees
  import opened MuteTranscoder
  import opened MuteAlgebra
  import opened MuteRuns
  import opened DelayBuffer
  import opened TimeBase
  import opened Recogniser

  /** What `av_read_frame` delivers, how resampling and sending it to the recogniser turn out, and what
      the recogniser's thread does meanwhile: whether it resets the base, and the windows it mutes. */
  datatype Input = Input(pts: int, dts: int, duration: nat, stream: int, resampled: int, sentBytes: int,
                         reset: bool, mutes: seq<Window>) {
    function AsPacket(): Packet { Packet(pts, dts, duration, stream, Original) }
  }

  /** The frames that are relayed: audio and video, in input order. */
  function Routed(inputs: seq<Input>, audio: int, video: int): seq<Packet> {
    if inputs == [] then []
    else
      var n := |inputs| - 1;
      Routed(inputs[..n], audio, video) +
      if inputs[n].stream == video || inputs[n].stream == audio then [inputs[n].AsPacket()] else []
  }

  /** What one frame means for the buffer: the mutes that come first, and its push if it is relayed. */
  function PlanOf(input: Input, audio: int, video: int): seq<Event> {
    MutesOf(input.mutes) + if input.stream == video || input.stream == audio then [Push(input.AsPacket())] else []
  }

  lemma PlanOfIs(plan: seq<Event>, input: Input, audio: int, video: int)
    ensures plan + PlanOf(input, audio, video) ==
              if input.stream == video || input.stream == audio then plan + MutesOf(input.mutes) + [Push(input.AsPacket())]
              else plan + MutesOf(input.mutes)
  {
  }

  /** What the whole input means for the buffer. */
  function Plan(inputs: seq<Input>, audio: int, video: int): seq<Event> {
    if inputs == [] then []
    else
      var n := |inputs| - 1;
      Plan(inputs[..n], audio, video) + PlanOf(inputs[n], audio, video)
  }

  lemma {:induction false} MutesPushNothing(ws: seq<Window>)
    ensures Pushed(MutesOf(ws)) == []
  {
    if ws == [] {
    } else {
      var n := |ws| - 1;
      MutesPushNothing(ws[..n]);
      assert MutesOf(ws)[..n] == MutesOf(ws[..n]);
    }
  }

  /** The plan pushes exactly the routed frames, in input order. */
  lemma {:induction false} PlanPushesRouted(inputs: seq<Input>, audio: int, video: int)
    ensures Pushed(Plan(inputs, audio, video)) == Routed(inputs, audio, video)
  {
    if inputs == [] {
    } else {
      var n := |inputs| - 1;
      var mutes := MutesOf(inputs[n].mutes);
      var pushes := if inputs[n].stream == video || inputs[n].stream == audio then [Push(inputs[n].AsPacket())] else [];
      PlanPushesRouted(inputs[..n], audio, video);
      PushedAppend(Plan(inputs[..n], audio, video), mutes + pushes);
      PushedAppend(mutes, pushes);
      MutesPushNothing(inputs[n].mutes);
      if pushes != [] { assert pushes[..0] == []; }
    }
  }

  lemma {:induction false} PlanIsPlan(inputs: seq<Input>, audio: int, video: int)
    ensures IsPlan(Plan(inputs, audio, video))
  {
    if inputs == [] {
    } else {
      PlanIsPlan(inputs[..|inputs| - 1], audio, video);
    }
  }

  function AllMutes(inputs: seq<Input>): seq<Window> {
    if inputs == [] then [] else AllMutes(inputs[..|inputs| - 1]) + inputs[|inputs| - 1].mutes
  }

  predicate IsRouted(input: Input, audio: int, video: int) {
    input.stream == audio || input.stream == video
  }

  /** The plan mutes exactly the inputs' windows, in order. */
  lemma {:induction false} PlanMutesAll(inputs: seq<Input>, audio: int, video: int)
    ensures WindowsIn(Plan(inputs, audio, video)) == AllMutes(inputs)
  {
    if inputs == [] {
    } else {
      var n := |inputs| - 1;
      var mutes := MutesOf(inputs[n].mutes);
      var pushes := if IsRouted(inputs[n], audio, video) then [Push(inputs[n].AsPacket())] else [];
      PlanMutesAll(inputs[..n], audio, video);
      WindowsInAppend(Plan(inputs[..n], audio, video), mutes + pushes);
      WindowsInAppend(mutes, pushes);
      WindowsInMutes(inputs[n].mutes);
      if pushes != [] { assert pushes[..0] == []; }
    }
  }

  /** Where a routed frame is pushed: after exactly the routed frames before it, and after exactly the
      windows that come with it or with an earlier frame. */
  lemma PlanAt(inputs: seq<Input>, audio: int, video: int, i: nat) returns (k: nat)
    requires i < |inputs| && IsRouted(inputs[i], audio, video)
    ensures k < |Plan(inputs, audio, video)| && Plan(inputs, audio, video)[k] == Push(inputs[i].AsPacket())
    ensures Pushed(Plan(inputs, audio, video)[..k]) == Routed(inputs[..i], audio, video)
    ensures WindowsIn(Plan(inputs, audio, video)[..k]) == AllMutes(inputs[..i + 1])
  {
    var before, mutes := Plan(inputs[..i], audio, video), MutesOf(inputs[i].mutes);
    k := |before| + |mutes|;
    PlanGrows(inputs, audio, video, i + 1);
    assert inputs[..i + 1][..i] == inputs[..i];
    assert Plan(inputs[..i + 1], audio, video) == before + mutes + [Push(inputs[i].AsPacket())];
    assert Plan(inputs, audio, video)[..k] == before + mutes;
    PushedAppend(before, mutes);
    MutesPushNothing(inputs[i].mutes);
    PlanPushesRouted(inputs[..i], audio, video);
    WindowsInAppend(before, mutes);
    PlanMutesAll(inputs[..i], audio, video);
    WindowsInMutes(inputs[i].mutes);
  }

  /** A routed frame lands right behind those before it. */
  lemma {:induction false} RoutedAt(inputs: seq<Input>, audio: int, video: int, i: nat)
    requires i < |inputs| && IsRouted(inputs[i], audio, video)
    ensures var k := |Routed(inputs[..i], audio, video)|;
            k < |Routed(inputs, audio, video)| && Routed(inputs, audio, video)[k] == inputs[i].AsPacket()
  {
    var n := |inputs| - 1;
    if i == n {
    } else {
      RoutedAt(inputs[..n], audio, video, i);
      assert inputs[..n][..i] == inputs[..i];
    }
  }

  /** And nothing else is routed. */
  lemma {:induction false} RoutedComesFrom(inputs: seq<Input>, audio: int, video: int, k: nat) returns (i: nat)
    requires k < |Routed(inputs, audio, video)|
    ensures i < |inputs| && IsRouted(inputs[i], audio, video) && k == |Routed(inputs[..i], audio, video)|
    ensures Routed(inputs, audio, video)[k] == inputs[i].AsPacket()
  {
    var n := |inputs| - 1;
    if k < |Routed(inputs[..n], audio, video)| {
      i := RoutedComesFrom(inputs[..n], audio, video, k);
      assert inputs[..n][..i] == inputs[..i];
    } else {
      i := n;
    }
  }

  lemma {:induction false} PlanGrows(inputs: seq<Input>, audio: int, video: int, i: nat)
    requires i <= |inputs|
    ensures Plan(inputs[..i], audio, video) <= Plan(inputs, audio, video)
  {
    if i == |inputs| {
      assert inputs[..i] == inputs;
    } else {
      var n := |inputs| - 1;
      PlanGrows(inputs[..n], audio, video, i);
      assert inputs[..n][..i] == inputs[..i];
    }
  }

  /** What the recogniser has been told: the base's history, and the number of its decoder's next call. */
  datatype Heard = Heard(history: seq<BaseEvent>, calls: nat)

  ghost function HearReset(before: Heard, input: Input): Heard {
    if input.reset then before.(history := before.history + [Reset]) else before
  }

  ghost function HearSent(codec: Codec, before: Heard, input: Input): Heard
    requires codec.Valid()
  {
    var reply := Exchange(codec.script, codec.calm, before.calls);
    Heard(before.history + [Sent(input.pts, reply.ok && input.resampled >= 0 && input.sentBytes > 0)], reply.next)
  }

  /** A reset that comes meanwhile, and the frame if it is audio. */
  ghost function HearOne(codec: Codec, before: Heard, input: Input, audio: int, video: int): Heard
    requires codec.Valid()
  {
    var soFar := HearReset(before, input);
    if input.stream != video && input.stream == audio then HearSent(codec, soFar, input) else soFar
  }

  ghost function Hear(codec: Codec, n: nat, inputs: seq<Input>, audio: int, video: int): Heard
    requires codec.Valid()
  {
    if inputs == [] then Heard([], n)
    else
      var k := |inputs| - 1;
      HearOne(codec, Hear(codec, n, inputs[..k], audio, video), inputs[k], audio, video)
  }

  predicate IsAudio(input: Input, audio: int, video: int) {
    input.stream == audio && input.stream != video
  }

  /** What the recogniser should be told, as marks in a row: nothing for a reset, a time for a frame sent. */
  function Marks(inputs: seq<Input>, audio: int, video: int): seq<Option<int>> {
    if inputs == [] then []
    else
      var n := |inputs| - 1;
      Marks(inputs[..n], audio, video) + (if inputs[n].reset then [None] else [])
      + if IsAudio(inputs[n], audio, video) then [Some(inputs[n].pts)] else []
  }

  function MarkOf(e: BaseEvent): Option<int> {
    match e
    case Sent(pts, _) => Some(pts)
    case Reset => None
  }

  function MarksOf(history: seq<BaseEvent>): (r: seq<Option<int>>)
    ensures |r| == |history|
  {
    seq(|history|, i requires 0 <= i < |history| => MarkOf(history[i]))
  }

  /** The recogniser is sent exactly the audio frames, in order, with the resets in their places. */
  lemma {:induction false} HearsAudioOnly(codec: Codec, n: nat, inputs: seq<Input>, audio: int, video: int)
    requires codec.Valid()
    ensures MarksOf(Hear(codec, n, inputs, audio, video).history) == Marks(inputs, audio, video)
  {
    if inputs == [] {
    } else {
      HearsAudioOnly(codec, n, inputs[..|inputs| - 1], audio, video);
    }
  }

  /** The decoder's calls for frame number `i` are the next ones: its two loops begin where those of the
      frames before it ended. A frame that is not audio takes none. */
  lemma HearCalls(codec: Codec, n: nat, inputs: seq<Input>, audio: int, video: int, i: nat) returns (ok: bool)
    requires codec.Valid() && i < |inputs|
    ensures Hear(codec, n, inputs[..0], audio, video).calls == n
    ensures var from, next := Hear(codec, n, inputs[..i], audio, video).calls, Hear(codec, n, inputs[..i + 1], audio, video).calls;
            if IsAudio(inputs[i], audio, video) then EndWith(codec.script, from, EXCHANGE, Outcome(ok, next)) else next == from
  {
    assert inputs[..i + 1][..i] == inputs[..i];
    var reply := Exchange(codec.script, codec.calm, Hear(codec, n, inputs[..i], audio, video).calls);
    ExchangeIs(codec.script, codec.calm, Hear(codec, n, inputs[..i], audio, video).calls, reply);
    ok := reply.ok;
  }

  /** Frame number `i` is audio that was decoded, resampled and sent. */
  ghost predicate Accepted(codec: Codec, n: nat, inputs: seq<Input>, audio: int, video: int, i: nat)
    requires codec.Valid() && i < |inputs|
  {
    && IsAudio(inputs[i], audio, video) && inputs[i].resampled >= 0 && inputs[i].sentBytes > 0
    && exists next: nat :: EndWith(codec.script, Hear(codec, n, inputs[..i], audio, video).calls, EXCHANGE, Outcome(true, next))
  }

  /** Frame number `i` could set the base: it is accepted, its time is not zero, and no reset comes later. */
  ghost predicate Sets(codec: Codec, n: nat, inputs: seq<Input>, audio: int, video: int, i: nat)
    requires codec.Valid()
  {
    && i < |inputs| && Accepted(codec, n, inputs, audio, video, i) && inputs[i].pts != 0
    && forall j :: i < j < |inputs| ==> !inputs[j].reset
  }

  ghost predicate FirstSets(codec: Codec, n: nat, inputs: seq<Input>, audio: int, video: int, i: nat)
    requires codec.Valid()
  {
    Sets(codec, n, inputs, audio, video, i) && forall j: nat :: j < i ==> !Sets(codec, n, inputs, audio, video, j)
  }

  lemma {:induction false} FirstSetting(codec: Codec, n: nat, inputs: seq<Input>, audio: int, video: int, i: nat) returns (first: nat)
    requires codec.Valid() && Sets(codec, n, inputs, audio, video, i)
    ensures FirstSets(codec, n, inputs, audio, video, first)
    decreases i
  {
    first := i;
    if j: nat :| j < i && Sets(codec, n, inputs, audio, video, j) {
      first := FirstSetting(codec, n, inputs, audio, video, j);
    }
  }

  lemma SetsExtends(codec: Codec, n: nat, inputs: seq<Input>, audio: int, video: int, i: nat)
    requires codec.Valid() && i + 1 < |inputs|
    ensures var last := |inputs| - 1;
            Sets(codec, n, inputs, audio, video, i) <==> Sets(codec, n, inputs[..last], audio, video, i) && !inputs[last].reset
  {
    var before := inputs[..|inputs| - 1];
    assert before[..i] == inputs[..i];
    if Sets(codec, n, before, audio, video, i) && !inputs[|inputs| - 1].reset {
      forall j | i < j < |inputs| ensures !inputs[j].reset {
        if j < |before| { assert !before[j].reset; }
      }
    }
    if Sets(codec, n, inputs, audio, video, i) {
      forall j | i < j < |before| ensures !before[j].reset { assert !inputs[j].reset; }
    }
  }

  /** What the last input makes of the base. */
  lemma BaseMoves(codec: Codec, n: nat, inputs: seq<Input>, audio: int, video: int)
    requires codec.Valid() && inputs != []
    ensures var last := |inputs| - 1;
            var before := if inputs[last].reset then 0 else BaseRun(Hear(codec, n, inputs[..last], audio, video).history);
            BaseRun(Hear(codec, n, inputs, audio, video).history)
              == if before == 0 && Accepted(codec, n, inputs, audio, video, last) then inputs[last].pts else before
  {
    var last := |inputs| - 1;
    var heard := Hear(codec, n, inputs[..last], audio, video);
    var soFar := HearReset(heard, inputs[last]);
    var reply := Exchange(codec.script, codec.calm, heard.calls);
    AcceptedIff(codec, n, inputs, audio, video, last);
    BaseFromMore(0, heard.history, Reset);
    BaseFromMore(0, soFar.history, Sent(inputs[last].pts, reply.ok && inputs[last].resampled >= 0 && inputs[last].sentBytes > 0));
  }

  lemma AcceptedIff(codec: Codec, n: nat, inputs: seq<Input>, audio: int, video: int, i: nat)
    requires codec.Valid() && i < |inputs|
    ensures Accepted(codec, n, inputs, audio, video, i) <==>
              && IsAudio(inputs[i], audio, video) && inputs[i].resampled >= 0 && inputs[i].sentBytes > 0
              && Exchange(codec.script, codec.calm, Hear(codec, n, inputs[..i], audio, video).calls).ok
  {
    var from := Hear(codec, n, inputs[..i], audio, video).calls;
    var reply := Exchange(codec.script, codec.calm, from);
    ExchangeIs(codec.script, codec.calm, from, reply);
    forall next: nat ensures EndWith(codec.script, from, EXCHANGE, Outcome(true, next)) <==> Outcome(true, next) == reply {
      ExchangeIs(codec.script, codec.calm, from, Outcome(true, next));
    }
    if reply.ok { assert EndWith(codec.script, from, EXCHANGE, Outcome(true, reply.next)); }
  }

  /** The base, in terms of the inputs: the time of the first audio frame accepted with a time other than
      zero since the last reset, and zero when there is none. */
  lemma {:induction false} BaseIsFirstAccepted(codec: Codec, n: nat, inputs: seq<Input>, audio: int, video: int)
    requires codec.Valid()
    ensures BaseRun(Hear(codec, n, inputs, audio, video).history) == 0 <==> forall i: nat :: !Sets(codec, n, inputs, audio, video, i)
    ensures forall i: nat :: FirstSets(codec, n, inputs, audio, video, i) ==>
                             BaseRun(Hear(codec, n, inputs, audio, video).history) == inputs[i].pts
  {
    if inputs == [] {
    } else {
      var last := |inputs| - 1;
      BaseIsFirstAccepted(codec, n, inputs[..last], audio, video);
      BaseMoves(codec, n, inputs, audio, video);
      BaseStepsOn(codec, n, inputs, audio, video, BaseRun(Hear(codec, n, inputs[..last], audio, video).history),
                  BaseRun(Hear(codec, n, inputs, audio, video).history));
    }
  }

  /** No frame before the last one can set the base any more. */
  lemma BaseStepsFresh(codec: Codec, n: nat, inputs: seq<Input>, audio: int, video: int, now: int)
    requires codec.Valid() && inputs != []
    requires var last := |inputs| - 1;
             && (inputs[last].reset || forall i: nat :: !Sets(codec, n, inputs[..last], audio, video, i))
             && now == if Accepted(codec, n, inputs, audio, video, last) then inputs[last].pts else 0
    ensures now == 0 <==> forall i: nat :: !Sets(codec, n, inputs, audio, video, i)
    ensures forall i: nat :: FirstSets(codec, n, inputs, audio, video, i) ==> now == inputs[i].pts
  {
    var last := |inputs| - 1;
    forall i: nat | i != last ensures !Sets(codec, n, inputs, audio, video, i) {
      if i < last { SetsExtends(codec, n, inputs, audio, video, i); }
    }
    assert Sets(codec, n, inputs, audio, video, last) <==> Accepted(codec, n, inputs, audio, video, last) && inputs[last].pts != 0;
  }

  /** Some frame before the last one has set the base, and there is no reset. */
  lemma BaseStepsKept(codec: Codec, n: nat, inputs: seq<Input>, audio: int, video: int, first: nat, i: nat)
    requires codec.Valid() && inputs != [] && !inputs[|inputs| - 1].reset
    requires FirstSets(codec, n, inputs[..|inputs| - 1], audio, video, first)
    ensures first < |inputs| && Sets(codec, n, inputs, audio, video, first)
    ensures FirstSets(codec, n, inputs, audio, video, i) ==> i == first
  {
    SetsExtends(codec, n, inputs, audio, video, first);
    if FirstSets(codec, n, inputs, audio, video, i) && i < first {
      SetsExtends(codec, n, inputs, audio, video, i);
      assert false;
    }
  }

  lemma BaseStepsOn(codec: Codec, n: nat, inputs: seq<Input>, audio: int, video: int, was: int, now: int)
    requires codec.Valid() && inputs != []
    requires var before := inputs[..|inputs| - 1];
             && (was == 0 <==> forall i: nat :: !Sets(codec, n, before, audio, video, i))
             && forall i: nat :: FirstSets(codec, n, before, audio, video, i) ==> was == before[i].pts
    requires var last := |inputs| - 1;
             var kept := if inputs[last].reset then 0 else was;
             now == if kept == 0 && Accepted(codec, n, inputs, audio, video, last) then inputs[last].pts else kept
    ensures now == 0 <==> forall i: nat :: !Sets(codec, n, inputs, audio, video, i)
    ensures forall i: nat :: FirstSets(codec, n, inputs, audio, video, i) ==> now == inputs[i].pts
  {
    var last := |inputs| - 1;
    var before := inputs[..last];
    if was == 0 || inputs[last].reset {
      BaseStepsFresh(codec, n, inputs, audio, video, now);
    } else {
      var some: nat :| Sets(codec, n, before, audio, video, some);
      var first := FirstSetting(codec, n, before, audio, video, some);
      forall i: nat ensures FirstSets(codec, n, inputs, audio, video, i) ==> i == first {
        BaseStepsKept(codec, n, inputs, audio, video, first, i);
      }
      BaseStepsKept(codec, n, inputs, audio, video, first, first);
    }
  }

  class Relayer {
    const heap: Heap
    const delayer: Delayer
    const asr: Asr
    const audioIndex: int
    const videoIndex: int

    constructor (delayer: Delayer, asr: Asr, videoIndex: int)
      requires asr.delayer == delayer && delayer.heap == asr.heap
      ensures this.delayer == delayer && this.asr == asr && heap == delayer.heap
      ensures this.videoIndex == videoIndex && audioIndex == delayer.replacer.audioIndex
    {
      this.delayer, this.asr, this.heap := delayer, asr, delayer.heap;
      this.videoIndex, this.audioIndex := videoIndex, delayer.replacer.audioIndex;
    }

    /** The parts belong together; the recogniser decodes for itself. */
    ghost predicate Wired() {
      && heap == delayer.heap == asr.heap && audioIndex == delayer.replacer.audioIndex
      && asr.codec.Valid() && delayer.replacer.codec.Valid() && asr.codec != delayer.replacer.codec
    }

    /** Where a plan takes the buffer, with the codec's answers from call number `n` on. */
    ghost function After(n: nat, plan: seq<Event>): Played
      requires Wired()
    {
      Play(delayer.replacer.codec, delayer.Cfg(), INIT, n, plan)
    }

    /** The buffer and the codec are where the plan takes them, and the buffer holds every live packet
        but `hand`. */
    ghost predicate Follows(n: nat, plan: seq<Event>, hand: set<AVPacket>)
      requires Wired()
      reads delayer, delayer.heap, delayer.packets, delayer.replacer.codec
    {
      && delayer.Valid() && delayer.IsAt(After(n, plan))
      && delayer.Elsewhere() == hand && delayer.heap.frames == {}
    }

    /** The output accepts the handshake, or the plan has not called for it. */
    ghost predicate GoesOn(n: nat, plan: seq<Event>)
      requires Wired()
    {
      delayer.sink.Accepts() || After(n, plan).st.out == []
    }

    /** The recogniser's base and decoder are where what it has heard takes them. */
    ghost predicate HasHeard(base: int, heard: Heard)
      reads asr, asr.codec
    {
      asr.firstAudioPts == BaseFrom(base, heard.history) && asr.codec.calls == heard.calls
    }

    /** The other thread takes the lock a few times. */
    method Interfere(mutes: seq<Window>, ghost n: nat, ghost plan: seq<Event>, ghost hand: set<AVPacket>)
      requires Wired() && Follows(n, plan, hand)
      modifies delayer`packets, delayer.heap, delayer.replacer.codec
      ensures Follows(n, plan + MutesOf(mutes), hand)
    {
      if mutes == [] {
        assert plan + MutesOf(mutes) == plan;
      } else {
        var k := |mutes| - 1;
        Interfere(mutes[..k], n, plan, hand);
        MutesOfLast(plan, mutes);
        MuteOnce(mutes[k], n, plan + MutesOf(mutes[..k]), plan + MutesOf(mutes), hand);
      }
    }

    method MuteOnce(w: Window, ghost n: nat, ghost plan: seq<Event>, ghost more: seq<Event>, ghost hand: set<AVPacket>)
      requires Wired() && Follows(n, plan, hand) && more == plan + [Mute(w.start, w.end, {})]
      modifies delayer`packets, delayer.heap, delayer.replacer.codec
      ensures Follows(n, more, hand)
    {
      PlayMute(delayer.replacer.codec, delayer.Cfg(), INIT, n, plan, w.start, w.end, more);
      delayer.ReplaceAudioPacket(w.start, w.end);
    }

    /** Push the packet in hand. */
    method PushHand(pkt: AVPacket, ghost n: nat, ghost plan: seq<Event>) returns (ok: bool)
      requires Wired() && Follows(n, plan, {pkt}) && pkt.duration >= 0
      modifies delayer, delayer.heap
      ensures ok <==> GoesOn(n, plan + [Push(old(pkt.Value()))])
      ensures ok ==> Follows(n, plan + [Push(old(pkt.Value()))], {})
      ensures !ok ==> delayer.wire == []
    {
      PlayPush(delayer.replacer.codec, delayer.Cfg(), INIT, n, plan, pkt.Value(), plan + [Push(pkt.Value())]);
      assert pkt in delayer.Elsewhere();
      ok := delayer.Push(pkt);
    }

    /** Push the packet in hand after these mutes. */
    method PushAmid(pkt: AVPacket, mutes: seq<Window>, ghost n: nat, ghost plan: seq<Event>) returns (ok: bool)
      requires Wired() && Follows(n, plan, {pkt}) && pkt.duration >= 0
      modifies delayer, delayer.heap, delayer.replacer.codec
      ensures ok <==> GoesOn(n, plan + MutesOf(mutes) + [Push(old(pkt.Value()))])
      ensures ok ==> Follows(n, plan + MutesOf(mutes) + [Push(old(pkt.Value()))], {})
      ensures !ok ==> delayer.wire == []
    {
      Interfere(mutes, n, plan, {pkt});
      ok := PushHand(pkt, n, plan + MutesOf(mutes));
    }

    /** Free the packet in hand after these mutes. */
    method DropAmid(pkt: AVPacket, mutes: seq<Window>, ghost n: nat, ghost plan: seq<Event>)
      requires Wired() && Follows(n, plan, {pkt})
      modifies delayer`packets, delayer.heap, delayer.replacer.codec
      ensures Follows(n, plan + MutesOf(mutes), {})
    {
      Interfere(mutes, n, plan, {pkt});
      heap.FreePacket(pkt);
    }

    /** The other thread may have reset the base. */
    method ResetMeanwhile(input: Input, ghost base: int, ghost before: Heard)
      requires Wired() && HasHeard(base, before)
      modifies asr`firstAudioPts
      ensures HasHeard(base, HearReset(before, input))
    {
      if input.reset {
        BaseFromMore(base, before.history, Reset);
        asr.ResetAsrTimeBase();
      }
    }

    /** Send the packet in hand to the recogniser. */
    method Send(pkt: AVPacket, input: Input, ghost n: nat, ghost plan: seq<Event>, ghost base: int, ghost before: Heard)
      requires Wired() && Follows(n, plan, {pkt}) && HasHeard(base, before) && pkt.Value() == input.AsPacket()
      modifies delayer.heap, asr`firstAudioPts, asr.codec
      ensures Follows(n, plan, {pkt}) && HasHeard(base, HearSent(asr.codec, before, input))
    {
      ghost var reply := Exchange(asr.codec.script, asr.codec.calm, before.calls);
      BaseFromMore(base, before.history, Sent(pkt.pts, reply.ok && input.resampled >= 0 && input.sentBytes > 0));
      var _ := asr.SendAudio(pkt, input.resampled, input.sentBytes);
    }

    /** One turn of the loop, with a packet that has been read: audio is sent to the recogniser, then audio
        and video are pushed, and anything else is freed. */
    method Route(pkt: AVPacket, input: Input, ghost n: nat, ghost plan: seq<Event>, ghost base: int, ghost before: Heard)
        returns (ok: bool)
      requires Wired() && Follows(n, plan, {pkt}) && HasHeard(base, before) && pkt.Value() == input.AsPacket()
      modifies delayer, delayer.heap, delayer.replacer.codec, asr`firstAudioPts, asr.codec
      ensures HasHeard(base, HearOne(asr.codec, before, input, audioIndex, videoIndex))
      ensures ok <==> GoesOn(n, plan + PlanOf(input, audioIndex, videoIndex))
      ensures ok ==> Follows(n, plan + PlanOf(input, audioIndex, videoIndex), {})
      ensures !ok ==> delayer.wire == []
    {
      PlanOfIs(plan, input, audioIndex, videoIndex);
      ResetMeanwhile(input, base, before);
      if pkt.stream == videoIndex {
        ok := PushAmid(pkt, input.mutes, n, plan);
      } else if pkt.stream == audioIndex {
        Send(pkt, input, n, plan, base, HearReset(before, input));
        ok := PushAmid(pkt, input.mutes, n, plan);
      } else {
        DropAmid(pkt, input.mutes, n, plan);
        ok := true;
      }
    }

    /** Allocate a packet and read into it; at the end of the input it stays blank. */
    method ReadFrame(input: Option<Input>, ghost n: nat, ghost plan: seq<Event>) returns (pkt: AVPacket)
      requires Wired() && Follows(n, plan, {})
      modifies heap
      ensures fresh(pkt) && Follows(n, plan, {pkt})
      ensures input.Some? ==> pkt.Value() == input.value.AsPacket()
    {
      ghost var held := View(delayer.packets);
      pkt := heap.AllocPacket();
      if input.Some? {
        var read := input.value;
        pkt.pts, pkt.dts, pkt.duration, pkt.stream, pkt.payload := read.pts, read.dts, read.duration, read.stream, Original;
      }
      assert View(delayer.packets) == held;
    }

    method Turn(inputs: seq<Input>, i: nat, ghost n: nat, ghost base: int, ghost m: nat) returns (ok: bool)
      requires i < |inputs| && Wired() && Follows(n, Plan(inputs[..i], audioIndex, videoIndex), {})
      requires HasHeard(base, Hear(asr.codec, m, inputs[..i], audioIndex, videoIndex))
      modifies delayer, delayer.heap, delayer.replacer.codec, asr`firstAudioPts, asr.codec
      ensures HasHeard(base, Hear(asr.codec, m, inputs[..i + 1], audioIndex, videoIndex))
      ensures ok <==> GoesOn(n, Plan(inputs[..i + 1], audioIndex, videoIndex))
      ensures ok ==> Follows(n, Plan(inputs[..i + 1], audioIndex, videoIndex), {})
      ensures !ok ==> delayer.wire == []
    {
      assert inputs[..i + 1][..i] == inputs[..i];
      ghost var plan, before := Plan(inputs[..i], audioIndex, videoIndex), Hear(asr.codec, m, inputs[..i], audioIndex, videoIndex);
      var pkt := ReadFrame(Some(inputs[i]), n, plan);
      ok := Route(pkt, inputs[i], n, plan, base, before);
    }

    /** The last turn of the loop: the packet allocated for a frame that does not come is freed. */
    method ReadEnd(last: seq<Window>, ghost n: nat, ghost plan: seq<Event>)
      requires Wired() && Follows(n, plan, {})
      modifies heap, delayer`packets, delayer.replacer.codec
      ensures Follows(n, plan + MutesOf(last), {})
    {
      var blank := ReadFrame(None, n, plan);
      DropAmid(blank, last, n, plan);
    }

    /** What the whole input and the windows muted after its last frame mean for the buffer. */
    function Whole(inputs: seq<Input>, last: seq<Window>): seq<Event> {
      Plan(inputs, audioIndex, videoIndex) + MutesOf(last)
    }

    /** The handshake is called for somewhere on the way exactly if it is by the end. */
    lemma GoesOnToEnd(inputs: seq<Input>, last: seq<Window>, n: nat, i: nat)
      requires Wired() && i <= |inputs|
      ensures GoesOn(n, Whole(inputs, last)) <==> delayer.sink.Accepts() || Run(delayer.Cfg(), Whole(inputs, last)).out == []
      ensures GoesOn(n, Whole(inputs, last)) ==> GoesOn(n, Plan(inputs[..i], audioIndex, videoIndex))
    {
      var whole, part := Whole(inputs, last), Plan(inputs[..i], audioIndex, videoIndex);
      PlanIsPlan(inputs, audioIndex, videoIndex);
      PlaceAsPlanned(delayer.replacer.codec, delayer.Cfg(), n, whole);
      PlanGrows(inputs, audioIndex, videoIndex, i);
      assert whole[..|part|] == part;
      PlaceAsPlanned(delayer.replacer.codec, delayer.Cfg(), n, part);
      OutputGrows(delayer.Cfg(), whole, |part|);
    }

    /** The base is the time of the first audio frame accepted with a time other than zero since the last
        reset, and zero when there is none. */
    ghost predicate IsBaseOf(inputs: seq<Input>, m: nat, base: int)
      requires asr.codec.Valid()
    {
      && (base == 0 <==> forall i: nat :: !Sets(asr.codec, m, inputs, audioIndex, videoIndex, i))
      && forall i: nat :: FirstSets(asr.codec, m, inputs, audioIndex, videoIndex, i) ==> base == inputs[i].pts
    }

    /** The whole input; `last` are the windows muted after the last frame. The relay gets to the end of
        the input exactly if the output accepts the handshake or no packet is due by then; otherwise
        it has exited with nothing written. At the end the buffer, its codec and the base are where the
        frames, the windows and the codecs' answers, in the given order, take them, and every live packet
        is in the buffer, each once. */
    method StartProcess(inputs: seq<Input>, last: seq<Window>) returns (ok: bool)
      requires Wired() && Follows(delayer.replacer.codec.calls, [], {})
      modifies delayer, delayer.heap, delayer.replacer.codec, asr`firstAudioPts, asr.codec
      ensures ok <==> delayer.sink.Accepts() || Run(delayer.Cfg(), Whole(inputs, last)).out == []
      ensures ok ==> Follows(old(delayer.replacer.codec.calls), Whole(inputs, last), {})
      ensures ok ==> HasHeard(old(asr.firstAudioPts), Hear(asr.codec, old(asr.codec.calls), inputs, audioIndex, videoIndex))
      ensures ok && old(asr.firstAudioPts) == 0 ==> IsBaseOf(inputs, old(asr.codec.calls), asr.firstAudioPts)
      ensures !ok ==> delayer.wire == []
    {
      HeardIsBase(inputs, asr.codec.calls);
      ok := ReadLoop(inputs, last);
    }

    lemma HeardIsBase(inputs: seq<Input>, m: nat)
      requires asr.codec.Valid()
      ensures IsBaseOf(inputs, m, BaseFrom(0, Hear(asr.codec, m, inputs, audioIndex, videoIndex).history))
    {
      BaseIsFirstAccepted(asr.codec, m, inputs, audioIndex, videoIndex);
    }

    method ReadLoop(inputs: seq<Input>, last: seq<Window>) returns (ok: bool)
      requires Wired() && Follows(delayer.replacer.codec.calls, [], {})
      modifies delayer, delayer.heap, delayer.replacer.codec, asr`firstAudioPts, asr.codec
      ensures ok <==> delayer.sink.Accepts() || Run(delayer.Cfg(), Whole(inputs, last)).out == []
      ensures ok ==> Follows(old(delayer.replacer.codec.calls), Whole(inputs, last), {})
      ensures ok ==> HasHeard(old(asr.firstAudioPts), Hear(asr.codec, old(asr.codec.calls), inputs, audioIndex, videoIndex))
      ensures !ok ==> delayer.wire == []
    {
      ghost var n, base, m := delayer.replacer.codec.calls, asr.firstAudioPts, asr.codec.calls;
      ok := true;
      var i := 0;
      while i < |inputs|
        invariant i <= |inputs| && Follows(n, Plan(inputs[..i], audioIndex, videoIndex), {})
        invariant HasHeard(base, Hear(asr.codec, m, inputs[..i], audioIndex, videoIndex))
        invariant ok
      {
        ok := Turn(inputs, i, n, base, m);
        GoesOnToEnd(inputs, last, n, i + 1);
        if !ok { return; }
        i := i + 1;
      }
      assert inputs[..i] == inputs;
      ReadEnd(last, n, Plan(inputs, audioIndex, videoIndex));
      GoesOnToEnd(inputs, last, n, i);
    }

    /** Playing the whole input is a run of the machine whose pushes are the routed frames, in order. */
    lemma WholeIsRun(inputs: seq<Input>, last: seq<Window>, n: nat)
      requires Wired()
      ensures var played := After(n, Whole(inputs, last));
              && played.st == Run(delayer.Cfg(), played.evs) && Realises(played.evs, Whole(inputs, last))
              && Pushed(played.evs) == Routed(inputs, audioIndex, videoIndex)
              && (delayer.replacer.codec.AlwaysOk() ==> AllReached(delayer.Cfg(), played.evs))
    {
      var plan := Plan(inputs, audioIndex, videoIndex);
      PlanIsPlan(inputs, audioIndex, videoIndex);
      PlayIsRun(delayer.replacer.codec, delayer.Cfg(), n, Whole(inputs, last));
      PushedAsPlanned(After(n, Whole(inputs, last)).evs, Whole(inputs, last));
      PushedAppend(plan, MutesOf(last));
      MutesPushNothing(last);
      PlanPushesRouted(inputs, audioIndex, videoIndex);
    }

    lemma RoutedStreams(inputs: seq<Input>)
      ensures NonNegative(Routed(inputs, audioIndex, videoIndex))
      ensures forall k :: 0 <= k < |Routed(inputs, audioIndex, videoIndex)| ==>
                Routed(inputs, audioIndex, videoIndex)[k].stream == audioIndex || Routed(inputs, audioIndex, videoIndex)[k].stream == videoIndex
    {
      var ps := Routed(inputs, audioIndex, videoIndex);
      forall k | 0 <= k < |ps| ensures ps[k].duration >= 0 && (ps[k].stream == audioIndex || ps[k].stream == videoIndex) {
        var i := RoutedComesFrom(inputs, audioIndex, videoIndex, k);
      }
    }

    /** Frame number `i` of those relayed, as it was sent: with its own times, and followed in the input by
        more audio or more video than the configured delay. */
    ghost predicate SentLate(inputs: seq<Input>, i: nat, p: Packet) {
      var ps := Routed(inputs, audioIndex, videoIndex);
      && i < |ps| && SameTimes(ps[i], p)
      && var later := ps[i + 1..];
         StreamSum(later, audioIndex) > 1000 * delayer.delaySec || StreamSum(later, videoIndex) > 1000 * delayer.delaySec
    }

    lemma SentIsLate(inputs: seq<Input>, last: seq<Window>, n: nat, i: nat)
      requires Wired() && delayer.Cfg().Valid() && i < |After(n, Whole(inputs, last)).st.out|
      ensures SentLate(inputs, i, After(n, Whole(inputs, last)).st.out[i])
    {
      var played := After(n, Whole(inputs, last));
      WholeIsRun(inputs, last, n);
      RoutedStreams(inputs);
      BufferKeepsDelay(delayer, videoIndex, played.evs, i);
      RunConserves(delayer.Cfg(), played.evs);
      assert played.st.out[i] == played.st.All()[i] == Expected(delayer.Cfg(), played.evs, i);
    }

    /** The other half: when the frames are short enough for the int, a relayed frame has been sent at the
        end of the input exactly if the frames after it last more than 2000 times the delay. */
    lemma SentWhenDue(inputs: seq<Input>, last: seq<Window>, n: nat, longest: nat, i: nat)
      requires Wired() && 0 <= delayer.delaySec && 2000 * delayer.delaySec + 2 * longest <= INT_MAX
      requires forall j :: 0 <= j < |inputs| ==> inputs[j].duration <= longest
      requires i < |Routed(inputs, audioIndex, videoIndex)|
      ensures i < |After(n, Whole(inputs, last)).st.out| <==>
                Sum(Routed(inputs, audioIndex, videoIndex)[i + 1..]) > 2000 * delayer.delaySec
    {
      var ps, evs := Routed(inputs, audioIndex, videoIndex), After(n, Whole(inputs, last)).evs;
      WholeIsRun(inputs, last, n);
      RoutedStreams(inputs);
      forall k | 0 <= k < |ps| ensures ps[k].duration <= longest {
        var j := RoutedComesFrom(inputs, audioIndex, videoIndex, k);
      }
      ShortPacketsAreTimely(delayer, evs, longest);
      BufferSendsWhenDue(delayer, evs, i);
    }

    /** Nothing but what the windows name is silenced: a relayed frame that is silent is audio in one of
        them, widened by 200. */
    lemma SilentIsInWindow(inputs: seq<Input>, last: seq<Window>, n: nat, i: nat) returns (w: Window)
      requires Wired() && i < |After(n, Whole(inputs, last)).st.All()|
      requires After(n, Whole(inputs, last)).st.All()[i].payload == Silent
      ensures i < |Routed(inputs, audioIndex, videoIndex)| && w in AllMutes(inputs) + last
      ensures var p := Routed(inputs, audioIndex, videoIndex)[i];
              p.stream == audioIndex && w.start - 200 <= p.pts <= w.end
    {
      var played := After(n, Whole(inputs, last));
      var evs, whole := played.evs, Whole(inputs, last);
      WholeIsRun(inputs, last, n);
      RunConserves(delayer.Cfg(), evs);
      var from := RoutedComesFrom(inputs, audioIndex, videoIndex, i);
      assert played.st.All()[i] == Expected(delayer.Cfg(), evs, i);
      var k: nat :| SilencedBy(delayer.Cfg(), evs, i, k);
      PushedGrows(evs, k);
      assert Bare(evs[k]) == whole[k];
      w := Window(evs[k].start, evs[k].end);
      MuteIsWindow(whole, k);
      WindowsInAppend(Plan(inputs, audioIndex, videoIndex), MutesOf(last));
      PlanMutesAll(inputs, audioIndex, videoIndex);
      WindowsInMutes(last);
    }

    /** What reaches the output: the header first and only once, and after it the relayed frames in order,
        each with its times and late enough. */
    ghost predicate GoodWire(inputs: seq<Input>, wire: seq<Wire>) {
      forall i :: 0 <= i < |wire| ==>
        if i == 0 then wire[i] == Header else wire[i].Frame? && SentLate(inputs, i - 1, wire[i].pkt)
    }

    lemma WireIsGood(inputs: seq<Input>, last: seq<Window>, n: nat, wire: seq<Wire>)
      requires Wired() && delayer.Cfg().Valid() && wire == WireOf(After(n, Whole(inputs, last)).st.out)
      ensures GoodWire(inputs, wire)
    {
      var out := After(n, Whole(inputs, last)).st.out;
      WireMeans(out);
      forall i | 0 < i < |wire| ensures wire[i].Frame? && SentLate(inputs, i - 1, wire[i].pkt) {
        SentIsLate(inputs, last, n, i - 1);
        assert wire[(i - 1) + 1] == Frame(out[i - 1]);
      }
    }

    /** From the first frame to the end of the buffer's life: no packet and no frame stays alive, and the
        output is the header and what the machine sends. */
    method RunToEnd(inputs: seq<Input>, last: seq<Window>) returns (ok: bool)
      requires Wired() && Follows(delayer.replacer.codec.calls, [], {})
      modifies delayer, delayer.heap, delayer.replacer.codec, asr`firstAudioPts, asr.codec
      ensures ok <==> delayer.sink.Accepts() || Run(delayer.Cfg(), Whole(inputs, last)).out == []
      ensures ok ==> heap.packets == {} && heap.frames == {}
      ensures ok ==> delayer.wire == WireOf(After(old(delayer.replacer.codec.calls), Whole(inputs, last)).st.out)
      ensures ok ==> GoodWire(inputs, delayer.wire)
      ensures ok && old(asr.firstAudioPts) == 0 ==> IsBaseOf(inputs, old(asr.codec.calls), asr.firstAudioPts)
      ensures !ok ==> delayer.wire == []
    {
      WireIsGood(inputs, last, delayer.replacer.codec.calls, WireOf(After(delayer.replacer.codec.calls, Whole(inputs, last)).st.out));
      ok := StartProcess(inputs, last);
      if ok { delayer.Destroy(); }
    }
  }
}
