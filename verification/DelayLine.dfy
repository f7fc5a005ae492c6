/** The delay buffer as a step machine on values. Each operation holds the mutex, so a run of the
    two threads is a sequence of events: the reader's pushes and the recogniser's mutes, in any
    order. `out` is what the muxer has received, `buf` what is still held, `total` the 32-bit
    running total. `crashed` records that `flush` read the front of an empty list. */
module DelayLine {
  import opened Packets

  const MARGIN := 200
  const INT_MAX := 0x7FFF_FFFF

  /** `limit` is the delay in seconds times 1000 times 2; `audio` is the audio stream's index. */
  datatype Config = Config(limit: int, audio: int) {
    predicate Valid() { 0 <= limit <= INT_MAX }
  }

  /** A mute carries the set of packets (numbered in the order they were pushed) for which
      re-encoding succeeded; the codec decides that, so it is arbitrary here. */
  datatype Event =
    | Push(pkt: Packet)
    | Mute(start: int, end: int, done: set<nat>)

  datatype State = State(out: seq<Packet>, buf: seq<Packet>, total: int, crashed: bool) {
    function All(): seq<Packet> { out + buf }
  }

  const INIT := State([], [], 0, false)

  function Wrap32(x: int): (r: int)
    ensures -INT_MAX - 1 <= r <= INT_MAX
    ensures -INT_MAX - 1 <= x <= INT_MAX ==> r == x
    ensures INT_MAX < x ==> r < x
  {
    (x + 0x8000_0000) % 0x1_0000_0000 - 0x8000_0000
  }

  function Sum(ps: seq<Packet>): int {
    if ps == [] then 0 else ps[0].duration + Sum(ps[1..])
  }

  /** The loop of `flush`. */
  function Pop(st: State, limit: int): State
    decreases |st.buf|
  {
    if st.buf == [] then
      st.(crashed := true)
    else if st.total - st.buf[0].duration > limit then
      Pop(State(st.out + [st.buf[0]], st.buf[1..], Wrap32(st.total - st.buf[0].duration), st.crashed), limit)
    else
      st
  }

  function Flush(st: State, limit: int): State {
    if st.total > limit then Pop(st, limit) else st
  }

  predicate InWindow(audio: int, p: Packet, start: int, end: int) {
    p.stream == audio && start - MARGIN <= p.pts <= end
  }

  function MutePacket(audio: int, p: Packet, start: int, end: int, ok: bool): Packet {
    if InWindow(audio, p, start, end) && ok then p.(payload := Silent) else p
  }

  /** The walk of `replaceAudioPacket`; `first` is the number of the packet at the front. */
  function MuteBuffer(audio: int, buf: seq<Packet>, first: nat, start: int, end: int, done: set<nat>): (r: seq<Packet>)
    ensures |r| == |buf|
  {
    seq(|buf|, k requires 0 <= k < |buf| => MutePacket(audio, buf[k], start, end, first + k in done))
  }

  /** Re-encoding worked for every packet of the window. */
  ghost predicate NoneRefused(audio: int, buf: seq<Packet>, first: nat, start: int, end: int, done: set<nat>) {
    forall k :: 0 <= k < |buf| && InWindow(audio, buf[k], start, end) ==> first + k in done
  }

  function Enqueue(st: State, p: Packet): State {
    State(st.out, st.buf + [p], Wrap32(st.total + p.duration), st.crashed)
  }

  function Step(cfg: Config, st: State, e: Event): State {
    match e
    case Push(p) => Flush(Enqueue(st, p), cfg.limit)
    case Mute(start, end, done) => st.(buf := MuteBuffer(cfg.audio, st.buf, |st.out|, start, end, done))
  }

  function Run(cfg: Config, evs: seq<Event>): State {
    if evs == [] then INIT else Step(cfg, Run(cfg, evs[..|evs| - 1]), evs[|evs| - 1])
  }

  /** Everything the reader pushed, in order, as it was pushed. */
  function Pushed(evs: seq<Event>): seq<Packet> {
    if evs == [] then []
    else
      var before := Pushed(evs[..|evs| - 1]);
      match evs[|evs| - 1]
      case Push(p) => before + [p]
      case Mute(_, _, _) => before
  }

  ghost predicate NonNegative(ps: seq<Packet>) {
    forall i :: 0 <= i < |ps| ==> ps[i].duration >= 0
  }

  ghost predicate SameTimes(a: Packet, b: Packet) {
    a.(payload := b.payload) == b
  }

  function PushAll(ps: seq<Packet>): (r: seq<Event>)
    ensures |r| == |ps|
  {
    seq(|ps|, i requires 0 <= i < |ps| => Push(ps[i]))
  }

  lemma {:induction false} PushAllPushes(ps: seq<Packet>)
    ensures Pushed(PushAll(ps)) == ps
  {
    if ps == [] {
    } else {
      var n := |ps| - 1;
      PushAllPushes(ps[..n]);
      assert PushAll(ps)[..n] == PushAll(ps[..n]);
      assert ps == ps[..n] + [ps[n]];
    }
  }

  // ----- Arithmetic of durations

  lemma {:induction false} SumAppend(a: seq<Packet>, b: seq<Packet>)
    ensures Sum(a + b) == Sum(a) + Sum(b)
  {
    if a == [] {
      assert a + b == b;
    } else {
      assert (a + b)[1..] == a[1..] + b;
      SumAppend(a[1..], b);
    }
  }

  lemma {:induction false} SumSame(a: seq<Packet>, b: seq<Packet>)
    requires |a| == |b| && forall i :: 0 <= i < |a| ==> a[i].duration == b[i].duration
    ensures Sum(a) == Sum(b)
  {
    if a == [] {
    } else {
      SumSame(a[1..], b[1..]);
    }
  }

  lemma {:induction false} SumNonNegative(ps: seq<Packet>)
    requires NonNegative(ps)
    ensures Sum(ps) >= 0
  {
    if ps == [] {
    } else {
      SumNonNegative(ps[1..]);
    }
  }

  /** With durations that are not negative, a shorter suffix never lasts longer. */
  lemma {:induction false} SuffixSums(ps: seq<Packet>, m: nat, n: nat)
    requires NonNegative(ps) && m <= n <= |ps|
    ensures Sum(ps[n..]) <= Sum(ps[m..])
  {
    assert ps[m..] == ps[m..n] + ps[n..];
    SumAppend(ps[m..n], ps[n..]);
    SumNonNegative(ps[m..n]);
  }

  // ----- One flush

  /** What the flush loop does: it moves a prefix of the buffer to the output, keeps the difference
      between the 32-bit total and the true sum, never reads an empty list, and stops with more
      than `limit` held, but not if one more packet were popped. */
  lemma {:induction false} PopMoves(st: State, limit: int)
    requires 0 <= limit < st.total <= INT_MAX && NonNegative(st.buf)
    requires st.total <= Sum(st.buf) && !st.crashed
    ensures var r := Pop(st, limit);
            && r.All() == st.All() && |st.out| <= |r.out|
            && !r.crashed && r.buf != [] && r.buf == st.buf[|r.out| - |st.out|..]
            && limit < r.total <= INT_MAX && r.total - r.buf[0].duration <= limit
            && r.total - Sum(r.buf) == st.total - Sum(st.buf)
    decreases |st.buf|
  {
    var p := st.buf[0];
    if st.total - p.duration <= limit {
    } else {
      var next := State(st.out + [p], st.buf[1..], st.total - p.duration, st.crashed);
      assert next.All() == st.All();
      PopMoves(next, limit);
    }
  }

  /** Whatever the totals, `flush` only moves packets from the front of the buffer to the end of the output. */
  lemma {:induction false} PopConserves(st: State, limit: int)
    ensures Pop(st, limit).All() == st.All() && |st.out| <= |Pop(st, limit).out|
    decreases |st.buf|
  {
    if st.buf == [] || st.total - st.buf[0].duration <= limit {
    } else {
      var next := State(st.out + [st.buf[0]], st.buf[1..], Wrap32(st.total - st.buf[0].duration), st.crashed);
      assert next.All() == st.All();
      PopConserves(next, limit);
    }
  }

  // ----- Runs: what is emitted, and what it looks like

  /** The k-th event of a run is a mute that silenced the i-th packet pushed: it ran after the push
      and before the emission, its widened window holds the packet, and re-encoding succeeded. */
  ghost predicate SilencedBy(cfg: Config, evs: seq<Event>, i: nat, k: nat) {
    && k < |evs| && evs[k].Mute?
    && |Run(cfg, evs[..k]).out| <= i < |Pushed(evs[..k])|
    && InWindow(cfg.audio, Pushed(evs[..k])[i], evs[k].start, evs[k].end)
    && i in evs[k].done
  }

  ghost predicate Silenced(cfg: Config, evs: seq<Event>, i: nat) {
    exists k :: SilencedBy(cfg, evs, i, k)
  }

  /** The packet number i should look like this after the run. */
  ghost function Expected(cfg: Config, evs: seq<Event>, i: nat): Packet
    requires i < |Pushed(evs)|
  {
    if Silenced(cfg, evs, i) then Pushed(evs)[i].(payload := Silent) else Pushed(evs)[i]
  }

  lemma SilencedExtends(cfg: Config, evs: seq<Event>, e: Event, i: nat)
    ensures Silenced(cfg, evs + [e], i) <==> Silenced(cfg, evs, i) || SilencedBy(cfg, evs + [e], i, |evs|)
  {
    var all := evs + [e];
    forall k: nat | k < |evs|
      ensures SilencedBy(cfg, all, i, k) <==> SilencedBy(cfg, evs, i, k)
    {
      assert all[..k] == evs[..k];
    }
  }

  /** For every interleaving of pushes and mutes: nothing is lost, duplicated or reordered, and packet
      number i has exactly the fields it was pushed with, silent if and only if a successful mute whose
      window holds it ran between its push and its emission. No assumption on durations or the delay. */
  lemma {:induction false} RunConserves(cfg: Config, evs: seq<Event>)
    ensures |Run(cfg, evs).All()| == |Pushed(evs)|
    ensures forall i: nat :: i < |Pushed(evs)| ==> Run(cfg, evs).All()[i] == Expected(cfg, evs, i)
  {
    if evs == [] {
    } else {
      var before, e := evs[..|evs| - 1], evs[|evs| - 1];
      var st := Run(cfg, before);
      RunConserves(cfg, before);
      assert evs == before + [e];
      forall i: nat | i < |Pushed(before)|
        ensures SilencedBy(cfg, evs, i, |before|) <==>
                (e.Mute? && |st.out| <= i && InWindow(cfg.audio, Pushed(before)[i], e.start, e.end) && i in e.done)
      {
        assert evs[..|before|] == before;
      }
      match e
      case Push(p) => PushConserves(cfg, before, p);
      case Mute(start, end, done) =>
        forall i: nat | i < |Pushed(before)|
          ensures Step(cfg, st, e).All()[i] == Expected(cfg, evs, i)
        {
          SilencedExtends(cfg, before, e, i);
          assert st.All()[i] == Expected(cfg, before, i);
          assert SameTimes(st.All()[i], Pushed(before)[i]);
        }
    }
  }

  lemma PushConserves(cfg: Config, before: seq<Event>, p: Packet)
    requires |Run(cfg, before).All()| == |Pushed(before)|
    requires forall i: nat :: i < |Pushed(before)| ==> Run(cfg, before).All()[i] == Expected(cfg, before, i)
    ensures var evs := before + [Push(p)];
            && |Run(cfg, evs).All()| == |Pushed(evs)|
            && forall i: nat :: i < |Pushed(evs)| ==> Run(cfg, evs).All()[i] == Expected(cfg, evs, i)
  {
    var evs := before + [Push(p)];
    var st := Run(cfg, before);
    assert evs[..|evs| - 1] == before;
    PopConserves(Enqueue(st, p), cfg.limit);
    assert Run(cfg, evs).All() == st.All() + [p];
    forall i: nat | i < |Pushed(evs)|
      ensures Run(cfg, evs).All()[i] == Expected(cfg, evs, i)
    {
      SilencedExtends(cfg, before, Push(p), i);
      if i == |Pushed(before)| {
        assert !Silenced(cfg, before, i) by {
          forall k: nat | k < |before| ensures !SilencedBy(cfg, before, i, k) { PushedGrows(before, k); }
        }
      }
    }
  }

  lemma {:induction false} PushedGrows(evs: seq<Event>, k: nat)
    requires k <= |evs|
    ensures Pushed(evs[..k]) <= Pushed(evs)
  {
    if k == |evs| {
      assert evs[..k] == evs;
    } else {
      PushedGrows(evs[..|evs| - 1], k);
      assert evs[..|evs| - 1][..k] == evs[..k];
    }
  }

  /** The packet pushed by event number n has a definite place among everything pushed. */
  lemma PushedAt(evs: seq<Event>, n: nat)
    requires n < |evs| && evs[n].Push?
    ensures |Pushed(evs[..n])| < |Pushed(evs)| && Pushed(evs)[|Pushed(evs[..n])|] == evs[n].pkt
  {
    var upto := evs[..n + 1];
    PushedGrows(evs, n + 1);
    assert upto[..n] == evs[..n];
    assert Pushed(upto) == Pushed(evs[..n]) + [evs[n].pkt];
  }

  lemma RunAt(cfg: Config, evs: seq<Event>, n: nat)
    requires n < |evs|
    ensures Run(cfg, evs[..n + 1]) == Step(cfg, Run(cfg, evs[..n]), evs[n])
  {
    var upto := evs[..n + 1];
    assert upto[..n] == evs[..n];
  }

  /** Output is final: a longer run only appends to it. */
  lemma {:induction false} OutputGrows(cfg: Config, evs: seq<Event>, k: nat)
    requires k <= |evs|
    ensures Run(cfg, evs[..k]).out <= Run(cfg, evs).out
  {
    if k == |evs| {
      assert evs[..k] == evs;
    } else {
      var before := evs[..|evs| - 1];
      OutputGrows(cfg, before, k);
      assert before[..k] == evs[..k];
      var st := Run(cfg, before);
      if evs[|evs| - 1].Push? {
        PopConserves(Enqueue(st, evs[|evs| - 1].pkt), cfg.limit);
        assert Run(cfg, evs).All()[..|st.out|] == st.out;
      }
    }
  }
}
