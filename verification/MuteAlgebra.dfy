/** How mutes combine: a whole sentence of hits leaves the same buffer in whatever order they come. */
module MuteAlgebra {
  import opened Packets
  import opened DelayLine

  datatype Window = Window(start: int, end: int)

  /** Two mutes may change places. */
  lemma MutesCommute(cfg: Config, st: State, a: Event, b: Event)
    requires a.Mute? && b.Mute?
    ensures Step(cfg, Step(cfg, st, a), b) == Step(cfg, Step(cfg, st, b), a)
  {
    var ab, ba := Step(cfg, Step(cfg, st, a), b), Step(cfg, Step(cfg, st, b), a);
    forall k | 0 <= k < |st.buf| ensures ab.buf[k] == ba.buf[k] {
    }
  }

  /** Repeating a mute changes nothing. */
  lemma MuteIdempotent(cfg: Config, st: State, a: Event)
    requires a.Mute?
    ensures Step(cfg, Step(cfg, st, a), a) == Step(cfg, st, a)
  {
    var once := Step(cfg, st, a);
    forall k | 0 <= k < |st.buf| ensures Step(cfg, once, a).buf[k] == once.buf[k] {
    }
  }

  /** Mutes of successive windows, each with the packets the codec did not refuse. */
  function MuteEach(cfg: Config, st: State, ws: seq<Window>, dones: seq<set<nat>>): State
    requires |ws| == |dones|
  {
    if ws == [] then st
    else
      var n := |ws| - 1;
      Step(cfg, MuteEach(cfg, st, ws[..n], dones[..n]), Mute(ws[n].start, ws[n].end, dones[n]))
  }

  /** Some window of the list holds the packet and its re-encoding succeeded. */
  ghost predicate MutedIn(cfg: Config, p: Packet, id: nat, ws: seq<Window>, dones: seq<set<nat>>)
    requires |ws| == |dones|
  {
    exists j :: 0 <= j < |ws| && InWindow(cfg.audio, p, ws[j].start, ws[j].end) && id in dones[j]
  }

  /** After a list of mutes a held packet is silent if it was before or if one of them muted it; and
      that is all that has changed. */
  lemma {:induction false} MuteEachPointwise(cfg: Config, st: State, ws: seq<Window>, dones: seq<set<nat>>)
    requires |ws| == |dones|
    ensures var r := MuteEach(cfg, st, ws, dones);
            && r == st.(buf := r.buf) && |r.buf| == |st.buf|
            && forall k :: 0 <= k < |st.buf| ==>
                 r.buf[k] == if MutedIn(cfg, st.buf[k], |st.out| + k, ws, dones) then st.buf[k].(payload := Silent) else st.buf[k]
  {
    if ws == [] {
    } else {
      var n := |ws| - 1;
      MuteEachPointwise(cfg, st, ws[..n], dones[..n]);
      var before, r := MuteEach(cfg, st, ws[..n], dones[..n]), MuteEach(cfg, st, ws, dones);
      forall k | 0 <= k < |st.buf|
        ensures r.buf[k] == if MutedIn(cfg, st.buf[k], |st.out| + k, ws, dones) then st.buf[k].(payload := Silent) else st.buf[k]
      {
        MutedInSplit(cfg, st.buf[k], |st.out| + k, ws, dones);
        assert SameTimes(before.buf[k], st.buf[k]);
      }
    }
  }

  lemma MutedInSplit(cfg: Config, p: Packet, id: nat, ws: seq<Window>, dones: seq<set<nat>>)
    requires |ws| == |dones| && ws != []
    ensures var n := |ws| - 1;
            MutedIn(cfg, p, id, ws, dones) <==>
              MutedIn(cfg, p, id, ws[..n], dones[..n]) || (InWindow(cfg.audio, p, ws[n].start, ws[n].end) && id in dones[n])
  {
    var n := |ws| - 1;
    if MutedIn(cfg, p, id, ws, dones) {
      var j :| 0 <= j < |ws| && InWindow(cfg.audio, p, ws[j].start, ws[j].end) && id in dones[j];
      if j < n { assert ws[..n][j] == ws[j] && dones[..n][j] == dones[j]; }
    }
    if MutedIn(cfg, p, id, ws[..n], dones[..n]) {
      var j :| 0 <= j < n && InWindow(cfg.audio, p, ws[..n][j].start, ws[..n][j].end) && id in dones[..n][j];
      assert ws[j] == ws[..n][j] && dones[j] == dones[..n][j];
    }
  }

  /** Every mute of the list reached all held packets of its window. */
  ghost predicate NothingRefused(cfg: Config, st: State, ws: seq<Window>, dones: seq<set<nat>>)
    requires |ws| == |dones|
  {
    forall j :: 0 <= j < |ws| ==> NoneRefused(cfg.audio, st.buf, |st.out|, ws[j].start, ws[j].end, dones[j])
  }

  ghost predicate InSome(cfg: Config, p: Packet, ws: seq<Window>) {
    exists w :: w in ws && InWindow(cfg.audio, p, w.start, w.end)
  }

  /** When muting succeeds, a held packet ends up silenced exactly if some window holds it. */
  lemma MuteAllPointwise(cfg: Config, st: State, ws: seq<Window>, dones: seq<set<nat>>)
    requires |ws| == |dones| && NothingRefused(cfg, st, ws, dones)
    ensures var r := MuteEach(cfg, st, ws, dones);
            && r == st.(buf := r.buf) && |r.buf| == |st.buf|
            && forall k :: 0 <= k < |st.buf| ==>
                 r.buf[k] == if InSome(cfg, st.buf[k], ws) then st.buf[k].(payload := Silent) else st.buf[k]
  {
    MuteEachPointwise(cfg, st, ws, dones);
    forall k | 0 <= k < |st.buf|
      ensures MutedIn(cfg, st.buf[k], |st.out| + k, ws, dones) <==> InSome(cfg, st.buf[k], ws)
    {
      if InSome(cfg, st.buf[k], ws) {
        var w :| w in ws && InWindow(cfg.audio, st.buf[k], w.start, w.end);
        var j :| 0 <= j < |ws| && ws[j] == w;
        assert |st.out| + k in dones[j];
      }
    }
  }

  /** When muting succeeds, only the set of windows matters: not their order, not repetitions. */
  lemma MuteOrderIrrelevant(cfg: Config, st: State, ws: seq<Window>, dones: seq<set<nat>>, vs: seq<Window>, others: seq<set<nat>>)
    requires |ws| == |dones| && NothingRefused(cfg, st, ws, dones)
    requires |vs| == |others| && NothingRefused(cfg, st, vs, others)
    requires forall w :: w in ws <==> w in vs
    ensures MuteEach(cfg, st, ws, dones) == MuteEach(cfg, st, vs, others)
  {
    MuteAllPointwise(cfg, st, ws, dones);
    MuteAllPointwise(cfg, st, vs, others);
    var a, b := MuteEach(cfg, st, ws, dones), MuteEach(cfg, st, vs, others);
    forall k | 0 <= k < |st.buf| ensures a.buf[k] == b.buf[k] {
      assert InSome(cfg, st.buf[k], ws) <==> InSome(cfg, st.buf[k], vs);
    }
    assert a.buf == b.buf;
  }

  // ----- Runs on which re-encoding never fails

  ghost predicate ReachedAt(cfg: Config, evs: seq<Event>, k: nat)
    requires k < |evs|
  {
    var st := Run(cfg, evs[..k]);
    evs[k].Mute? ==> NoneRefused(cfg.audio, st.buf, |st.out|, evs[k].start, evs[k].end, evs[k].done)
  }

  /** Every mute of the run reached all packets of its window that were held at that moment. */
  ghost predicate AllReached(cfg: Config, evs: seq<Event>) {
    forall k: nat :: k < |evs| ==> ReachedAt(cfg, evs, k)
  }

  /** Event number k is a mute whose window holds packet i, after its push and before its emission. */
  ghost predicate Meant(cfg: Config, evs: seq<Event>, i: nat, k: nat) {
    && k < |evs| && evs[k].Mute?
    && |Run(cfg, evs[..k]).out| <= i < |Pushed(evs[..k])|
    && InWindow(cfg.audio, Pushed(evs[..k])[i], evs[k].start, evs[k].end)
  }

  /** When nothing is refused, a packet is silenced exactly if it is meant: refusals play no part. */
  lemma SilencedIffMeant(cfg: Config, evs: seq<Event>, i: nat)
    requires AllReached(cfg, evs)
    ensures Silenced(cfg, evs, i) <==> exists k :: Meant(cfg, evs, i, k)
  {
    forall k: nat | Meant(cfg, evs, i, k) ensures SilencedBy(cfg, evs, i, k) {
      var before := evs[..k];
      var st := Run(cfg, before);
      RunConserves(cfg, before);
      assert ReachedAt(cfg, evs, k);
      assert st.buf[i - |st.out|] == st.All()[i] == Expected(cfg, before, i);
      assert InWindow(cfg.audio, st.buf[i - |st.out|], evs[k].start, evs[k].end);
    }
    if k: nat :| SilencedBy(cfg, evs, i, k) {
      assert Meant(cfg, evs, i, k);
    }
  }

  /** An event without the packets re-encoding worked for. */
  function Bare(e: Event): Event {
    match e
    case Push(p) => Push(p)
    case Mute(start, end, _) => Mute(start, end, {})
  }

  /** The run does what was planned, event by event; only refusals are not part of a plan. */
  ghost predicate Realises(evs: seq<Event>, plan: seq<Event>) {
    |evs| == |plan| && forall k :: 0 <= k < |evs| ==> Bare(evs[k]) == plan[k]
  }

  /** When nothing is refused, the plan alone determines the run. */
  lemma {:induction false} PlanDetermines(cfg: Config, one: seq<Event>, other: seq<Event>, plan: seq<Event>)
    requires Realises(one, plan) && AllReached(cfg, one) && Realises(other, plan) && AllReached(cfg, other)
    ensures Run(cfg, one) == Run(cfg, other)
    decreases |plan|
  {
    if plan == [] {
      assert one == other;
    } else {
      var n := |plan| - 1;
      ReachedBefore(cfg, one, n);
      ReachedBefore(cfg, other, n);
      PlanDetermines(cfg, one[..n], other[..n], plan[..n]);
      assert Bare(one[n]) == plan[n] == Bare(other[n]);
      assert ReachedAt(cfg, one, n) && ReachedAt(cfg, other, n);
      assert Run(cfg, one).buf == Run(cfg, other).buf;
    }
  }

  lemma ReachedBefore(cfg: Config, evs: seq<Event>, n: nat)
    requires AllReached(cfg, evs) && n <= |evs|
    ensures AllReached(cfg, evs[..n])
  {
    forall k: nat | k < n ensures ReachedAt(cfg, evs[..n], k) {
      assert ReachedAt(cfg, evs, k);
      assert evs[..n][..k] == evs[..k];
    }
  }

  /** One more event of a run and of its plan. */
  lemma OneMoreEvent(cfg: Config, evs: seq<Event>, e: Event, plan: seq<Event>)
    requires Realises(evs, plan)
    ensures Run(cfg, evs + [e]) == Step(cfg, Run(cfg, evs), e)
    ensures Realises(evs + [e], plan + [Bare(e)])
    ensures AllReached(cfg, evs) && (e.Mute? ==> NoneRefused(cfg.audio, Run(cfg, evs).buf, |Run(cfg, evs).out|, e.start, e.end, e.done)) ==>
              AllReached(cfg, evs + [e])
  {
    var all := evs + [e];
    assert all[..|evs|] == evs;
    forall k: nat | k < |evs| ensures ReachedAt(cfg, all, k) <==> ReachedAt(cfg, evs, k) {
      assert all[..k] == evs[..k];
    }
  }

  /** Equal but for payloads, as far as `flush` can tell. */
  ghost predicate Alike(a: State, b: State) {
    && |a.out| == |b.out| && |a.buf| == |b.buf| && a.total == b.total && a.crashed == b.crashed
    && forall i :: 0 <= i < |a.buf| ==> a.buf[i].duration == b.buf[i].duration
  }

  lemma {:induction false} PopAlike(a: State, b: State, limit: int)
    requires Alike(a, b)
    ensures Alike(Pop(a, limit), Pop(b, limit))
    decreases |a.buf|
  {
    if a.buf == [] || a.total - a.buf[0].duration <= limit {
    } else {
      var d := a.buf[0].duration;
      PopAlike(State(a.out + [a.buf[0]], a.buf[1..], Wrap32(a.total - d), a.crashed),
               State(b.out + [b.buf[0]], b.buf[1..], Wrap32(b.total - d), b.crashed), limit);
    }
  }

  lemma StepAlike(cfg: Config, a: State, b: State, d: Event, e: Event)
    requires Alike(a, b) && Bare(d) == Bare(e)
    ensures Alike(Step(cfg, a, d), Step(cfg, b, e))
  {
    match d
    case Push(p) => PopAlike(Enqueue(a, p), Enqueue(b, p), cfg.limit);
    case Mute(_, _, _) =>
  }

  /** Refusals only decide which packets are silent: what has been sent and what is held is as planned. */
  lemma {:induction false} RefusalsKeepPlace(cfg: Config, evs: seq<Event>, plan: seq<Event>)
    requires Realises(evs, plan)
    ensures Alike(Run(cfg, evs), Run(cfg, plan))
    decreases |plan|
  {
    if plan == [] {
    } else {
      var n := |plan| - 1;
      RefusalsKeepPlace(cfg, evs[..n], plan[..n]);
      assert Bare(evs[n]) == plan[n];
      StepAlike(cfg, Run(cfg, evs[..n]), Run(cfg, plan[..n]), evs[n], plan[n]);
    }
  }

  lemma {:induction false} PushedAppend(a: seq<Event>, b: seq<Event>)
    ensures Pushed(a + b) == Pushed(a) + Pushed(b)
  {
    if b == [] {
      assert a + b == a;
    } else {
      var n := |b| - 1;
      assert (a + b)[..|a + b| - 1] == a + b[..n];
      PushedAppend(a, b[..n]);
    }
  }

  /** A run pushes what its plan pushes. */
  lemma {:induction false} PushedAsPlanned(evs: seq<Event>, plan: seq<Event>)
    requires Realises(evs, plan)
    ensures Pushed(evs) == Pushed(plan)
    decreases |plan|
  {
    if plan == [] {
    } else {
      var n := |plan| - 1;
      PushedAsPlanned(evs[..n], plan[..n]);
      assert Bare(evs[n]) == plan[n];
    }
  }
}
