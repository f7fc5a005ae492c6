/** Mutes with a given codec: its answers decide which packets of a window are re-encoded, so the pushes
    and windows of a run, in order, determine everything that happens to the buffer. */
module MuteRuns {
  import opened Packets
  import opened DelayLine
  import opened MuteAlgebra
  import opened MuteTranscoder

  /** What becomes of one packet when the walk reaches it with call number `n` next: outside the window
      the codec is not asked. */
  ghost function Answer(codec: Codec, n: nat, audio: int, p: Packet, start: int, end: int): Outcome
    requires codec.Valid()
  {
    if InWindow(audio, p, start, end) then Transcode(codec.script, codec.calm, n) else Outcome(false, n)
  }

  datatype Answers = Answers(oks: seq<bool>, next: nat)

  /** The same for the whole buffer, front to back, each packet going on where the one before it left off. */
  ghost function AnswersTo(codec: Codec, n: nat, audio: int, buf: seq<Packet>, start: int, end: int): (r: Answers)
    requires codec.Valid()
    ensures |r.oks| == |buf|
  {
    if buf == [] then Answers([], n)
    else
      var k := |buf| - 1;
      var before := AnswersTo(codec, n, audio, buf[..k], start, end);
      var answer := Answer(codec, before.next, audio, buf[k], start, end);
      Answers(before.oks + [answer.ok], answer.next)
  }

  lemma AnswersUpTo(codec: Codec, n: nat, audio: int, buf: seq<Packet>, start: int, end: int, k: nat)
    requires codec.Valid() && k < |buf|
    ensures var before, upto := AnswersTo(codec, n, audio, buf[..k], start, end), AnswersTo(codec, n, audio, buf[..k + 1], start, end);
            var answer := Answer(codec, before.next, audio, buf[k], start, end);
            upto == Answers(before.oks + [answer.ok], answer.next)
  {
    assert buf[..k + 1][..k] == buf[..k];
  }

  lemma {:induction false} OkOfEach(codec: Codec, n: nat, audio: int, buf: seq<Packet>, start: int, end: int, k: nat)
    requires codec.Valid() && k < |buf|
    ensures AnswersTo(codec, n, audio, buf, start, end).oks[k]
         == Answer(codec, AnswersTo(codec, n, audio, buf[..k], start, end).next, audio, buf[k], start, end).ok
  {
    var last := |buf| - 1;
    if k == last {
    } else {
      OkOfEach(codec, n, audio, buf[..last], start, end, k);
      assert buf[..last][..k] == buf[..k];
    }
  }

  /** A refusal concerns its own packet only. The walk starts with call `n`; the four loops for packet `k`
      begin with the calls left over by the packets before it, and end as the packet's answer says; for a
      packet outside the window, that is not audio from 200 before the start to the end, the codec is
      not called. */
  lemma AnswerOfEach(codec: Codec, n: nat, audio: int, buf: seq<Packet>, start: int, end: int, k: nat)
    requires codec.Valid() && k < |buf|
    ensures AnswersTo(codec, n, audio, buf[..0], start, end).next == n
    ensures var from, next := AnswersTo(codec, n, audio, buf[..k], start, end).next, AnswersTo(codec, n, audio, buf[..k + 1], start, end).next;
            var ok := AnswersTo(codec, n, audio, buf, start, end).oks[k];
            if buf[k].stream == audio && start - 200 <= buf[k].pts <= end then EndWith(codec.script, from, MUTING, Outcome(ok, next))
            else !ok && next == from
  {
    OkOfEach(codec, n, audio, buf, start, end, k);
    AnswersUpTo(codec, n, audio, buf, start, end, k);
    var from := AnswersTo(codec, n, audio, buf[..k], start, end).next;
    TranscodeIs(codec.script, codec.calm, from, Transcode(codec.script, codec.calm, from));
  }

  /** The numbers of the packets that were not refused, when the front packet has number `first`. */
  ghost function Numbered(first: nat, oks: seq<bool>): (r: set<nat>)
    ensures forall k :: k in r ==> first <= k < first + |oks|
    ensures forall k :: 0 <= k < |oks| ==> (first + k in r <==> oks[k])
  {
    if oks == [] then {}
    else
      var n := |oks| - 1;
      Numbered(first, oks[..n]) + if oks[n] then {first + n} else {}
  }

  lemma ReliableTranscodes(codec: Codec, n: nat)
    requires codec.Valid() && codec.AlwaysOk()
    ensures Transcode(codec.script, codec.calm, n).ok
  {
  }

  /** A codec that never fails refuses no packet of the window. */
  lemma ReliableRefusesNone(codec: Codec, n: nat, audio: int, buf: seq<Packet>, first: nat, start: int, end: int)
    requires codec.Valid() && codec.AlwaysOk()
    ensures NoneRefused(audio, buf, first, start, end, Numbered(first, AnswersTo(codec, n, audio, buf, start, end).oks))
  {
    forall k | 0 <= k < |buf| && InWindow(audio, buf[k], start, end)
      ensures AnswersTo(codec, n, audio, buf, start, end).oks[k]
    {
      OkOfEach(codec, n, audio, buf, start, end, k);
      ReliableTranscodes(codec, AnswersTo(codec, n, audio, buf[..k], start, end).next);
    }
  }

  // ----- Playing a plan

  /** What has happened so far: the events with the packets not refused, the buffer's state, and the
      number of the codec's next call. */
  datatype Played = Played(evs: seq<Event>, st: State, calls: nat)

  ghost function PlayOne(codec: Codec, cfg: Config, before: Played, e: Event): Played
    requires codec.Valid()
  {
    match e
    case Push(p) => Played(before.evs + [e], Step(cfg, before.st, e), before.calls)
    case Mute(start, end, _) =>
      var answers := AnswersTo(codec, before.calls, cfg.audio, before.st.buf, start, end);
      var done := Mute(start, end, Numbered(|before.st.out|, answers.oks));
      Played(before.evs + [done], Step(cfg, before.st, done), answers.next)
  }

  /** The planned pushes and mutes, from state `st` and call number `n` on. */
  ghost function Play(codec: Codec, cfg: Config, st: State, n: nat, plan: seq<Event>): Played
    requires codec.Valid()
  {
    if plan == [] then Played([], st, n)
    else
      var k := |plan| - 1;
      PlayOne(codec, cfg, Play(codec, cfg, st, n, plan[..k]), plan[k])
  }

  lemma PlayMore(codec: Codec, cfg: Config, st: State, n: nat, plan: seq<Event>, e: Event)
    requires codec.Valid()
    ensures Play(codec, cfg, st, n, plan + [e]) == PlayOne(codec, cfg, Play(codec, cfg, st, n, plan), e)
  {
    assert (plan + [e])[..|plan|] == plan;
  }

  /** One more mute, without looking at the events. */
  lemma PlayMute(codec: Codec, cfg: Config, st: State, n: nat, plan: seq<Event>, start: int, end: int, more: seq<Event>)
    requires codec.Valid() && more == plan + [Mute(start, end, {})]
    ensures var before, after := Play(codec, cfg, st, n, plan), Play(codec, cfg, st, n, more);
            var answers := AnswersTo(codec, before.calls, cfg.audio, before.st.buf, start, end);
            && after.st == Step(cfg, before.st, Mute(start, end, Numbered(|before.st.out|, answers.oks)))
            && after.calls == answers.next
  {
    PlayMore(codec, cfg, st, n, plan, Mute(start, end, {}));
  }

  /** One more push. */
  lemma PlayPush(codec: Codec, cfg: Config, st: State, n: nat, plan: seq<Event>, p: Packet, more: seq<Event>)
    requires codec.Valid() && more == plan + [Push(p)]
    ensures var before, after := Play(codec, cfg, st, n, plan), Play(codec, cfg, st, n, more);
            after.st == Step(cfg, before.st, Push(p)) && after.calls == before.calls
  {
    PlayMore(codec, cfg, st, n, plan, Push(p));
  }

  /** What has been sent stays sent. */
  lemma {:induction false} PlayGrows(codec: Codec, cfg: Config, st: State, n: nat, plan: seq<Event>, k: nat)
    requires codec.Valid() && k <= |plan|
    ensures |Play(codec, cfg, st, n, plan[..k]).st.out| <= |Play(codec, cfg, st, n, plan).st.out|
  {
    var last := |plan| - 1;
    if k == |plan| {
      assert plan[..k] == plan;
    } else {
      PlayGrows(codec, cfg, st, n, plan[..last], k);
      assert plan[..last][..k] == plan[..k];
      var before := Play(codec, cfg, st, n, plan[..last]);
      if plan[last].Push? {
        PopConserves(Enqueue(before.st, plan[last].pkt), cfg.limit);
      }
    }
  }

  /** A plan names no packets as re-encoded. */
  ghost predicate IsPlan(plan: seq<Event>) {
    forall k :: 0 <= k < |plan| ==> Bare(plan[k]) == plan[k]
  }

  /** Playing a plan from the start is a run of the machine that does what was planned; a codec that never
      fails refuses nothing in it. */
  lemma {:induction false} PlayIsRun(codec: Codec, cfg: Config, n: nat, plan: seq<Event>)
    requires codec.Valid() && IsPlan(plan)
    ensures var played := Play(codec, cfg, INIT, n, plan);
            && Realises(played.evs, plan) && played.st == Run(cfg, played.evs)
            && (codec.AlwaysOk() ==> AllReached(cfg, played.evs))
  {
    if plan == [] {
    } else {
      var k := |plan| - 1;
      PlayIsRun(codec, cfg, n, plan[..k]);
      PlayOneIsStep(codec, cfg, Play(codec, cfg, INIT, n, plan[..k]), plan[..k], plan[k]);
      assert plan == plan[..k] + [plan[k]];
    }
  }

  lemma PlayOneIsStep(codec: Codec, cfg: Config, before: Played, plan: seq<Event>, e: Event)
    requires codec.Valid() && Bare(e) == e
    requires Realises(before.evs, plan) && before.st == Run(cfg, before.evs)
    requires codec.AlwaysOk() ==> AllReached(cfg, before.evs)
    ensures var played := PlayOne(codec, cfg, before, e);
            && Realises(played.evs, plan + [e]) && played.st == Run(cfg, played.evs)
            && (codec.AlwaysOk() ==> AllReached(cfg, played.evs))
  {
    var played := PlayOne(codec, cfg, before, e);
    var done := played.evs[|before.evs|];
    OneMoreEvent(cfg, before.evs, done, plan);
    if codec.AlwaysOk() && e.Mute? {
      ReliableRefusesNone(codec, before.calls, cfg.audio, before.st.buf, |before.st.out|, e.start, e.end);
    }
  }

  /** What has been sent, and how much is held, does not depend on the codec. */
  lemma PlaceAsPlanned(codec: Codec, cfg: Config, n: nat, plan: seq<Event>)
    requires codec.Valid() && IsPlan(plan)
    ensures Alike(Play(codec, cfg, INIT, n, plan).st, Run(cfg, plan))
  {
    PlayIsRun(codec, cfg, n, plan);
    RefusalsKeepPlace(cfg, Play(codec, cfg, INIT, n, plan).evs, plan);
  }

  // ----- Windows

  /** The windows a plan mutes, in order. */
  function WindowsIn(plan: seq<Event>): seq<Window> {
    if plan == [] then []
    else
      var n := |plan| - 1;
      match plan[n]
      case Push(_) => WindowsIn(plan[..n])
      case Mute(start, end, _) => WindowsIn(plan[..n]) + [Window(start, end)]
  }

  lemma {:induction false} WindowsInAppend(a: seq<Event>, b: seq<Event>)
    ensures WindowsIn(a + b) == WindowsIn(a) + WindowsIn(b)
  {
    if b == [] {
      assert a + b == a;
    } else {
      var n := |b| - 1;
      assert (a + b)[..|a + b| - 1] == a + b[..n];
      WindowsInAppend(a, b[..n]);
    }
  }

  lemma {:induction false} MuteIsWindow(plan: seq<Event>, k: nat)
    requires k < |plan| && plan[k].Mute?
    ensures Window(plan[k].start, plan[k].end) in WindowsIn(plan)
  {
    var n := |plan| - 1;
    if k < n { MuteIsWindow(plan[..n], k); }
  }

  lemma {:induction false} WindowsInMutes(ws: seq<Window>)
    ensures WindowsIn(MutesOf(ws)) == ws
  {
    if ws == [] {
    } else {
      var n := |ws| - 1;
      WindowsInMutes(ws[..n]);
      assert MutesOf(ws)[..n] == MutesOf(ws[..n]);
    }
  }

  lemma {:induction false} WindowsInPushes(ps: seq<Packet>)
    ensures WindowsIn(PushAll(ps)) == []
  {
    if ps == [] {
    } else {
      var n := |ps| - 1;
      WindowsInPushes(ps[..n]);
      assert PushAll(ps)[..n] == PushAll(ps[..n]);
    }
  }

  function MutesOf(ws: seq<Window>): (r: seq<Event>)
    ensures |r| == |ws|
  {
    seq(|ws|, i requires 0 <= i < |ws| => Mute(ws[i].start, ws[i].end, {}))
  }

  lemma MutesOfLast(plan: seq<Event>, ws: seq<Window>)
    requires ws != []
    ensures var k := |ws| - 1;
            plan + MutesOf(ws) == plan + MutesOf(ws[..k]) + [Mute(ws[k].start, ws[k].end, {})]
  {
  }

  lemma MutesOfMore(ws: seq<Window>, w: Window)
    ensures MutesOf(ws + [w]) == MutesOf(ws) + [Mute(w.start, w.end, {})]
  {
  }

  /** Playing the mutes of a list of windows is muting each of them; a codec that never fails refuses nothing. */
  lemma {:induction false} PlayedWindows(codec: Codec, cfg: Config, st: State, n: nat, ws: seq<Window>) returns (dones: seq<set<nat>>)
    requires codec.Valid()
    ensures |dones| == |ws| && Play(codec, cfg, st, n, MutesOf(ws)).st == MuteEach(cfg, st, ws, dones)
    ensures codec.AlwaysOk() ==> NothingRefused(cfg, st, ws, dones)
  {
    if ws == [] {
      dones := [];
    } else {
      var k := |ws| - 1;
      var before := PlayedWindows(codec, cfg, st, n, ws[..k]);
      assert ws == ws[..k] + [ws[k]];
      MutesOfMore(ws[..k], ws[k]);
      PlayMore(codec, cfg, st, n, MutesOf(ws[..k]), Mute(ws[k].start, ws[k].end, {}));
      var now := Play(codec, cfg, st, n, MutesOf(ws[..k]));
      var done := Numbered(|now.st.out|, AnswersTo(codec, now.calls, cfg.audio, now.st.buf, ws[k].start, ws[k].end).oks);
      dones := before + [done];
      if codec.AlwaysOk() {
        ReliableRefusesNone(codec, now.calls, cfg.audio, now.st.buf, |now.st.out|, ws[k].start, ws[k].end);
      }
      OneMoreWindow(codec.AlwaysOk(), cfg, st, ws[..k], before, ws[k], done);
    }
  }

  /** One more mute: what its window holds now is what it held before them all. */
  lemma OneMoreWindow(reliable: bool, cfg: Config, st: State, ws: seq<Window>, dones: seq<set<nat>>, w: Window, done: set<nat>)
    requires |ws| == |dones| && (reliable ==> NothingRefused(cfg, st, ws, dones))
    requires var now := MuteEach(cfg, st, ws, dones);
             reliable ==> NoneRefused(cfg.audio, now.buf, |now.out|, w.start, w.end, done)
    ensures MuteEach(cfg, st, ws + [w], dones + [done]) == Step(cfg, MuteEach(cfg, st, ws, dones), Mute(w.start, w.end, done))
    ensures reliable ==> NothingRefused(cfg, st, ws + [w], dones + [done])
  {
    assert (ws + [w])[..|ws|] == ws && (dones + [done])[..|ws|] == dones;
    MuteEachPointwise(cfg, st, ws, dones);
    if reliable {
      var now := MuteEach(cfg, st, ws, dones);
      forall k | 0 <= k < |st.buf| && InWindow(cfg.audio, st.buf[k], w.start, w.end) ensures |st.out| + k in done {
        assert InWindow(cfg.audio, now.buf[k], w.start, w.end);
      }
    }
  }
}
