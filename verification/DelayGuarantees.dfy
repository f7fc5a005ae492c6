/** What the delay buffer guarantees over whole runs: memory safety, the running total, which packets
    are held, when each packet leaves, and how far the stream is ahead when it does. */
module DelayGuarantees {
  import opened Packets
  import opened DelayLine

  // ----- The running total

  /** What holds of every reachable state, whether or not the 32-bit total has wrapped around. */
  ghost predicate Sound(st: State) {
    !st.crashed && NonNegative(st.buf) && st.total == Wrap32(Sum(st.buf))
  }

  /** In every reachable state the 32-bit total is the wrapped sum of what is buffered, and `flush`
      has never read the front of an empty list, even when the total has wrapped around. */
  lemma {:induction false} TotalIsWrappedSum(cfg: Config, evs: seq<Event>)
    requires cfg.Valid() && NonNegative(Pushed(evs))
    ensures Sound(Run(cfg, evs))
  {
    if evs == [] {
    } else {
      var before, e := evs[..|evs| - 1], evs[|evs| - 1];
      NonNegativePrefix(evs, |before|);
      TotalIsWrappedSum(cfg, before);
      var st := Run(cfg, before);
      match e
      case Push(p) =>
        EnqueueTotal(st, p);
        FlushTotal(Enqueue(st, p), cfg.limit);
      case Mute(start, end, done) =>
        SumSame(st.buf, Run(cfg, evs).buf);
    }
  }

  lemma EnqueueTotal(st: State, p: Packet)
    requires Sound(st) && p.duration >= 0
    ensures Sound(Enqueue(st, p)) && Sum(Enqueue(st, p).buf) == Sum(st.buf) + p.duration
  {
    SumAppend(st.buf, [p]);
    WrapAdd(Sum(st.buf), p.duration);
  }

  lemma WrapAdd(x: int, d: int)
    ensures Wrap32(Wrap32(x) + d) == Wrap32(x + d)
  {
    var k, l := (x + 0x8000_0000) / 0x1_0000_0000, (Wrap32(x) + d + 0x8000_0000) / 0x1_0000_0000;
    WrapUnique(x + d, Wrap32(Wrap32(x) + d), k + l);
  }

  lemma FlushTotal(st: State, limit: int)
    requires 0 <= limit && Sound(st)
    ensures Sound(Flush(st, limit))
  {
    SumNonNegative(st.buf);
    if st.total > limit {
      PopMoves(st, limit);
      assert exists k: int :: k * 0x1_0000_0000 == Sum(st.buf) - st.total by {
        assert ((Sum(st.buf) + 0x8000_0000) / 0x1_0000_0000) * 0x1_0000_0000 == Sum(st.buf) - st.total;
      }
      var r := Pop(st, limit);
      WrapUnique(Sum(r.buf), r.total, (Sum(st.buf) + 0x8000_0000) / 0x1_0000_0000);
    }
  }

  /** The 32-bit total: the only int that differs from the sum by a multiple of 2^32. */
  lemma WrapMeans(x: int, r: int)
    ensures Wrap32(x) == r <==> -0x8000_0000 <= r <= 0x7FFF_FFFF && (x - r) % 0x1_0000_0000 == 0
  {
    assert (x - Wrap32(x)) % 0x1_0000_0000 == 0 by {
      assert x - Wrap32(x) == (x + 0x8000_0000) / 0x1_0000_0000 * 0x1_0000_0000;
    }
    if -0x8000_0000 <= r <= 0x7FFF_FFFF && (x - r) % 0x1_0000_0000 == 0 {
      WrapUnique(x, r, (x - r) / 0x1_0000_0000);
    }
  }

  lemma WrapUnique(x: int, r: int, k: int)
    requires -INT_MAX - 1 <= r <= INT_MAX && x - r == k * 0x1_0000_0000
    ensures Wrap32(x) == r
  {
  }

  /** The relay never crashes on any run if and only if the configured delay is not negative. */
  lemma SafeIffDelayNotNegative(cfg: Config)
    requires cfg.limit <= INT_MAX
    ensures (forall evs :: NonNegative(Pushed(evs)) ==> !Run(cfg, evs).crashed) <==> cfg.limit >= 0
  {
    if cfg.limit >= 0 {
      forall evs | NonNegative(Pushed(evs)) ensures !Run(cfg, evs).crashed {
        TotalIsWrappedSum(cfg, evs);
      }
    } else {
      var p := Packet(0, 0, 0, cfg.audio, Original);
      var evs := [Push(p)];
      assert evs[..0] == [] && Run(cfg, []) == INIT && Pushed([]) == [];
      assert Run(cfg, evs) == Step(cfg, INIT, Push(p));
      assert Enqueue(INIT, p) == State([], [p], 0, false);
      assert [p][1..] == [] && [] + [p] == [p];
      assert Pop(State([p], [], 0, false), cfg.limit).crashed;
      assert Pop(State([], [p], 0, false), cfg.limit).crashed;
      assert Pushed(evs) == [p];
    }
  }

  /** No push so far made the true total exceed a 32-bit int. */
  ghost predicate FitsAt(cfg: Config, evs: seq<Event>, n: nat)
    requires n < |evs|
  {
    evs[n].Push? ==> Sum(Run(cfg, evs[..n]).buf) + evs[n].pkt.duration <= INT_MAX
  }

  ghost predicate Fits(cfg: Config, evs: seq<Event>) {
    forall n: nat :: n < |evs| ==> FitsAt(cfg, evs, n)
  }

  ghost predicate ExactAt(cfg: Config, evs: seq<Event>, n: nat)
    requires n <= |evs|
  {
    Run(cfg, evs[..n]).total == Sum(Run(cfg, evs[..n]).buf)
  }

  /** The total is the true sum of buffered durations throughout a run if and only if no push of that
      run takes the buffered sum past the largest int. */
  lemma {:induction false} TotalExactIffFits(cfg: Config, evs: seq<Event>)
    requires cfg.Valid() && NonNegative(Pushed(evs))
    ensures (forall n: nat :: n <= |evs| ==> ExactAt(cfg, evs, n)) <==> Fits(cfg, evs)
  {
    forall n: nat | n < |evs| && ExactAt(cfg, evs, n)
      ensures ExactAt(cfg, evs, n + 1) <==> FitsAt(cfg, evs, n)
    {
      StepExact(cfg, evs, n);
    }
    if forall n: nat :: n <= |evs| ==> ExactAt(cfg, evs, n) {
      forall n: nat | n < |evs| ensures FitsAt(cfg, evs, n) {
        assert ExactAt(cfg, evs, n + 1);
      }
    }
    if Fits(cfg, evs) {
      assert evs[..0] == [];
      var n := 0;
      while n < |evs|
        invariant n <= |evs| && forall m: nat :: m <= n ==> ExactAt(cfg, evs, m)
      {
        assert FitsAt(cfg, evs, n);
        n := n + 1;
      }
    }
  }

  lemma NonNegativePrefix(evs: seq<Event>, n: nat)
    requires n <= |evs| && NonNegative(Pushed(evs))
    ensures NonNegative(Pushed(evs[..n]))
    ensures n < |evs| && evs[n].Push? ==> evs[n].pkt.duration >= 0
  {
    PushedGrows(evs, n);
    var ps, qs := Pushed(evs[..n]), Pushed(evs);
    forall i | 0 <= i < |ps| ensures ps[i].duration >= 0 {
      assert ps[i] == qs[i];
    }
    if n < |evs| && evs[n].Push? {
      PushedAt(evs, n);
    }
  }

  lemma StepExact(cfg: Config, evs: seq<Event>, n: nat)
    requires cfg.Valid() && NonNegative(Pushed(evs)) && n < |evs| && ExactAt(cfg, evs, n)
    ensures ExactAt(cfg, evs, n + 1) <==> FitsAt(cfg, evs, n)
  {
    NonNegativePrefix(evs, n);
    TotalIsWrappedSum(cfg, evs[..n]);
    RunAt(cfg, evs, n);
    OneStepExact(cfg, Run(cfg, evs[..n]), evs[n]);
  }

  lemma OneStepExact(cfg: Config, st: State, e: Event)
    requires cfg.Valid() && !st.crashed && NonNegative(st.buf) && st.total == Sum(st.buf)
    requires -INT_MAX - 1 <= st.total <= INT_MAX && (e.Push? ==> e.pkt.duration >= 0)
    ensures var r := Step(cfg, st, e);
            r.total == Sum(r.buf) <==> (e.Push? ==> Sum(st.buf) + e.pkt.duration <= INT_MAX)
  {
    match e
    case Push(p) =>
      EnqueueTotal(st, p);
      var mid := Enqueue(st, p);
      SumNonNegative(mid.buf);
      if mid.total > cfg.limit {
        PopMoves(mid, cfg.limit);
      }
    case Mute(_, _, _) =>
      SumSame(st.buf, Step(cfg, st, e).buf);
  }

  // ----- Never early

  /** Enough is held for everything that was sent to have been due. */
  ghost predicate HoldsEnough(st: State, limit: int) {
    st.out == [] || Sum(st.buf) > limit
  }

  lemma PushKeepsEnough(cfg: Config, st: State, p: Packet)
    requires cfg.Valid() && Sound(st) && p.duration >= 0 && HoldsEnough(st, cfg.limit)
    ensures HoldsEnough(Step(cfg, st, Push(p)), cfg.limit)
  {
    EnqueueTotal(st, p);
    var mid := Enqueue(st, p);
    SumNonNegative(mid.buf);
    if mid.total > cfg.limit {
      PopMoves(mid, cfg.limit);
      assert Step(cfg, st, Push(p)) == Pop(mid, cfg.limit);
    }
  }

  lemma {:induction false} RunKeepsEnough(cfg: Config, evs: seq<Event>)
    requires cfg.Valid() && NonNegative(Pushed(evs))
    ensures HoldsEnough(Run(cfg, evs), cfg.limit)
  {
    if evs == [] {
    } else {
      var n := |evs| - 1;
      NonNegativePrefix(evs, n);
      RunKeepsEnough(cfg, evs[..n]);
      TotalIsWrappedSum(cfg, evs[..n]);
      var st := Run(cfg, evs[..n]);
      match evs[n]
      case Push(p) => PushKeepsEnough(cfg, st, p);
      case Mute(_, _, _) => SumSame(st.buf, Run(cfg, evs).buf);
    }
  }

  lemma HeldSum(cfg: Config, evs: seq<Event>, m: nat)
    requires |Run(cfg, evs).out| <= m <= |Pushed(evs)|
    ensures |Run(cfg, evs).All()| == |Pushed(evs)|
    ensures Sum(Pushed(evs)[m..]) == Sum(Run(cfg, evs).buf[m - |Run(cfg, evs).out|..])
  {
    RunConserves(cfg, evs);
    var st, ps := Run(cfg, evs), Pushed(evs);
    var a, b := ps[m..], st.buf[m - |st.out|..];
    forall i | 0 <= i < |a| ensures a[i].duration == b[i].duration {
      assert b[i] == st.All()[m + i] == Expected(cfg, evs, m + i);
    }
    SumSame(a, b);
  }

  /** No packet ever leaves early, on any run, even when the 32-bit total has wrapped around: once it
      has left, what was pushed after it lasts longer than the limit. */
  lemma NeverEarly(cfg: Config, evs: seq<Event>, i: nat)
    requires cfg.Valid() && NonNegative(Pushed(evs)) && i < |Run(cfg, evs).out|
    ensures |Run(cfg, evs).out| <= |Pushed(evs)| && Sum(Pushed(evs)[i + 1..]) > cfg.limit
  {
    var n := |Run(cfg, evs).out|;
    RunConserves(cfg, evs);
    RunKeepsEnough(cfg, evs);
    HeldSum(cfg, evs, n);
    SuffixSums(Pushed(evs), i + 1, n);
  }

  /** Total duration of one stream. */
  function StreamSum(ps: seq<Packet>, stream: int): int {
    if ps == [] then 0
    else (if ps[0].stream == stream then ps[0].duration else 0) + StreamSum(ps[1..], stream)
  }

  lemma {:induction false} TwoStreams(ps: seq<Packet>, audio: int, video: int)
    requires audio != video && forall i :: 0 <= i < |ps| ==> ps[i].stream == audio || ps[i].stream == video
    ensures StreamSum(ps, audio) + StreamSum(ps, video) == Sum(ps)
  {
    if ps == [] {
    } else {
      TwoStreams(ps[1..], audio, video);
    }
  }

  /** The delay the relay is configured for: when a packet has been sent, the audio or the video that
      came in after it lasts more than `delaySec` seconds. */
  lemma DelayIsGuaranteed(cfg: Config, video: int, delaySec: nat, evs: seq<Event>, i: nat)
    requires cfg.limit == delaySec * 1000 * 2 && cfg.Valid() && video != cfg.audio
    requires NonNegative(Pushed(evs)) && i < |Run(cfg, evs).out|
    requires forall j :: 0 <= j < |Pushed(evs)| ==> Pushed(evs)[j].stream == cfg.audio || Pushed(evs)[j].stream == video
    ensures |Run(cfg, evs).out| <= |Pushed(evs)|
    ensures var later := Pushed(evs)[i + 1..];
            StreamSum(later, cfg.audio) > 1000 * delaySec || StreamSum(later, video) > 1000 * delaySec
  {
    NeverEarly(cfg, evs, i);
    TwoStreams(Pushed(evs)[i + 1..], cfg.audio, video);
  }

  // ----- Never late, and exactly when

  /** No packet that is due is still held. */
  ghost predicate NothingDueHeld(st: State, limit: int) {
    st.buf == [] || Sum(st.buf[1..]) <= limit
  }

  /** What can be checked before a push: the buffered sum still fits the int, or not even the front
      packet becomes due, or the wrapped total is large enough to release everything but `p`. */
  predicate TimelyPush(limit: int, buf: seq<Packet>, p: Packet) {
    var sum := Sum(buf) + p.duration;
    || sum <= INT_MAX
    || sum - (buf + [p])[0].duration <= limit
    || Wrap32(sum) - Sum(buf) > limit
  }

  /** The third way is only open to a packet that by itself does not fit the int. */
  lemma TimelyShortPush(limit: int, buf: seq<Packet>, p: Packet)
    requires 0 <= limit && NonNegative(buf) && 0 <= p.duration <= INT_MAX
    ensures TimelyPush(limit, buf, p) <==>
              Sum(buf) + p.duration <= INT_MAX || Sum(buf) + p.duration - (buf + [p])[0].duration <= limit
  {
    var sum := Sum(buf) + p.duration;
    SumNonNegative(buf);
    if sum > INT_MAX { WrapGap(sum); }
  }

  lemma WrapGap(x: int)
    requires INT_MAX < x
    ensures x - Wrap32(x) >= 0x1_0000_0000
  {
  }

  lemma PartOfSum(ps: seq<Packet>, i: nat)
    requires NonNegative(ps) && i < |ps|
    ensures Sum(ps) == Sum(ps[..i]) + ps[i].duration + Sum(ps[i + 1..])
    ensures Sum(ps[i..]) == ps[i].duration + Sum(ps[i + 1..])
    ensures 0 <= Sum(ps[..i]) && 0 <= Sum(ps[i + 1..])
  {
    assert ps == ps[..i] + ps[i..] && ps[i..][1..] == ps[i + 1..];
    SumAppend(ps[..i], ps[i..]);
    SumNonNegative(ps[..i]);
    SumNonNegative(ps[i + 1..]);
  }

  /** A push after which the flush does nothing. */
  lemma QuietPushTimelyIff(cfg: Config, st: State, p: Packet)
    requires cfg.Valid() && Sound(st) && p.duration >= 0 && Enqueue(st, p).total <= cfg.limit
    ensures NothingDueHeld(Enqueue(st, p), cfg.limit) <==> TimelyPush(cfg.limit, st.buf, p)
  {
    EnqueueTotal(st, p);
    SumNonNegative(st.buf);
  }

  /** What the flush does when the total has wrapped around and `j` packets leave: at least 2^32 more is
      held than the total says. */
  lemma WrappedPop(mid: State, limit: int, j: nat)
    requires 0 <= limit < mid.total && Sound(mid) && Sum(mid.buf) > INT_MAX && j == |Pop(mid, limit).out| - |mid.out|
    ensures j < |mid.buf| && Pop(mid, limit).buf != []
    ensures var head, before, after := mid.buf[j].duration, Sum(mid.buf[..j]), Sum(mid.buf[j + 1..]);
            && Pop(mid, limit).buf[1..] == mid.buf[j + 1..]
            && Sum(mid.buf) == before + head + after && 0 <= before
            && limit < mid.total - before <= limit + head
            && after >= mid.total - before - head + 0x1_0000_0000
  {
    PopMoves(mid, limit);
    WrapGap(Sum(mid.buf));
    PartOfSum(mid.buf, j);
    var r := Pop(mid, limit);
    assert r.buf[1..] == mid.buf[j + 1..];
    assert Sum(r.buf) == mid.buf[j].duration + Sum(mid.buf[j + 1..]);
  }

  lemma PartsWithin(ps: seq<Packet>, j: nat)
    requires NonNegative(ps) && 0 < j < |ps|
    ensures ps[0].duration <= Sum(ps[..j]) && Sum(ps[..j]) + ps[j].duration <= Sum(ps) && ps[j].duration <= Sum(ps[1..])
  {
    PartOfSum(ps, j);
    PartOfSum(ps[..j], 0);
    PartOfSum(ps[1..], j - 1);
  }

  /** If the flush stops among the packets held before, something due stays behind. */
  lemma WrappedPopInside(st: State, p: Packet, limit: int, j: nat)
    requires 0 <= limit <= INT_MAX && Sound(st) && p.duration >= 0 && NothingDueHeld(st, limit)
    requires limit < Enqueue(st, p).total && Sum(st.buf) + p.duration > INT_MAX
    requires 0 < j < |st.buf| && j == |Pop(Enqueue(st, p), limit).out| - |st.out|
    ensures !NothingDueHeld(Pop(Enqueue(st, p), limit), limit) && !TimelyPush(limit, st.buf, p)
  {
    var mid := Enqueue(st, p);
    EnqueueTotal(st, p);
    WrappedPop(mid, limit, j);
    PartsWithin(st.buf, j);
    assert mid.buf[..j] == st.buf[..j];
    var head, before, after := mid.buf[j].duration, Sum(mid.buf[..j]), Sum(mid.buf[j + 1..]);
    assert head == st.buf[j].duration <= limit;
    assert after > limit;
    assert mid.buf[0] == (st.buf + [p])[0] == st.buf[0];
  }

  /** If it releases everything held before, nothing due stays, and that needs the third way. */
  lemma WrappedPopAll(st: State, p: Packet, limit: int)
    requires 0 <= limit && Sound(st) && p.duration >= 0
    requires limit < Enqueue(st, p).total && Sum(st.buf) + p.duration > INT_MAX
    requires |st.buf| == |Pop(Enqueue(st, p), limit).out| - |st.out|
    ensures NothingDueHeld(Pop(Enqueue(st, p), limit), limit) && TimelyPush(limit, st.buf, p)
  {
    var mid := Enqueue(st, p);
    EnqueueTotal(st, p);
    WrappedPop(mid, limit, |st.buf|);
    assert mid.buf[..|st.buf|] == st.buf && mid.buf[|st.buf| + 1..] == [];
  }

  /** If it releases nothing, all depends on the front packet. */
  lemma WrappedPopNone(st: State, p: Packet, limit: int)
    requires 0 <= limit && Sound(st) && p.duration >= 0 && st.buf != []
    requires limit < Enqueue(st, p).total && Sum(st.buf) + p.duration > INT_MAX
    requires |Pop(Enqueue(st, p), limit).out| == |st.out|
    ensures NothingDueHeld(Pop(Enqueue(st, p), limit), limit) <==> TimelyPush(limit, st.buf, p)
  {
    var mid := Enqueue(st, p);
    EnqueueTotal(st, p);
    WrappedPop(mid, limit, 0);
    PartOfSum(st.buf, 0);
    assert mid.buf[..0] == [] && mid.buf[0] == st.buf[0];
  }

  /** How many packets the flush after a push releases; never the new one. */
  lemma ReleasedBy(cfg: Config, st: State, p: Packet) returns (j: nat)
    requires cfg.Valid() && Sound(st) && p.duration >= 0 && Enqueue(st, p).total > cfg.limit
    ensures j == |Pop(Enqueue(st, p), cfg.limit).out| - |st.out| && j <= |st.buf|
  {
    EnqueueTotal(st, p);
    SumNonNegative(Enqueue(st, p).buf);
    PopMoves(Enqueue(st, p), cfg.limit);
    j := |Pop(Enqueue(st, p), cfg.limit).out| - |st.out|;
  }

  /** A push after which the flush runs, with the total wrapped around. */
  lemma WrappedPushTimelyIff(cfg: Config, st: State, p: Packet)
    requires cfg.Valid() && Sound(st) && p.duration >= 0 && NothingDueHeld(st, cfg.limit)
    requires Enqueue(st, p).total > cfg.limit && Sum(st.buf) + p.duration > INT_MAX
    ensures NothingDueHeld(Pop(Enqueue(st, p), cfg.limit), cfg.limit) <==> TimelyPush(cfg.limit, st.buf, p)
  {
    var j := ReleasedBy(cfg, st, p);
    if j == |st.buf| {
      WrappedPopAll(st, p, cfg.limit);
    } else if j == 0 {
      WrappedPopNone(st, p, cfg.limit);
    } else {
      WrappedPopInside(st, p, cfg.limit, j);
    }
  }

  /** From a state in which nothing due is held, a push leads to another one if and only if it is timely. */
  lemma PushTimelyIff(cfg: Config, st: State, p: Packet)
    requires cfg.Valid() && Sound(st) && p.duration >= 0 && NothingDueHeld(st, cfg.limit)
    ensures NothingDueHeld(Step(cfg, st, Push(p)), cfg.limit) <==> TimelyPush(cfg.limit, st.buf, p)
  {
    EnqueueTotal(st, p);
    var mid := Enqueue(st, p);
    SumNonNegative(mid.buf);
    if mid.total <= cfg.limit {
      QuietPushTimelyIff(cfg, st, p);
    } else if Sum(mid.buf) > INT_MAX {
      WrappedPushTimelyIff(cfg, st, p);
    } else {
      PopMoves(mid, cfg.limit);
      var r := Pop(mid, cfg.limit);
      assert Step(cfg, st, Push(p)) == r;
      assert r.total == Sum(r.buf) == r.buf[0].duration + Sum(r.buf[1..]);
    }
  }

  ghost predicate TimelyAt(cfg: Config, evs: seq<Event>, n: nat)
    requires n < |evs|
  {
    evs[n].Push? ==> TimelyPush(cfg.limit, Run(cfg, evs[..n]).buf, evs[n].pkt)
  }

  /** Every push of the run is timely. */
  ghost predicate Timely(cfg: Config, evs: seq<Event>) {
    forall n: nat :: n < |evs| ==> TimelyAt(cfg, evs, n)
  }

  lemma FitsIsTimely(cfg: Config, evs: seq<Event>)
    requires Fits(cfg, evs)
    ensures Timely(cfg, evs)
  {
    forall n: nat | n < |evs| ensures TimelyAt(cfg, evs, n) {
      assert FitsAt(cfg, evs, n);
    }
  }

  ghost predicate NothingDueHeldAt(cfg: Config, evs: seq<Event>, n: nat)
    requires n <= |evs|
  {
    NothingDueHeld(Run(cfg, evs[..n]), cfg.limit)
  }

  lemma StepTimelyIff(cfg: Config, evs: seq<Event>, n: nat)
    requires cfg.Valid() && NonNegative(Pushed(evs)) && n < |evs| && NothingDueHeldAt(cfg, evs, n)
    ensures NothingDueHeldAt(cfg, evs, n + 1) <==> TimelyAt(cfg, evs, n)
  {
    NonNegativePrefix(evs, n);
    TotalIsWrappedSum(cfg, evs[..n]);
    RunAt(cfg, evs, n);
    var st := Run(cfg, evs[..n]);
    match evs[n]
    case Push(p) => PushTimelyIff(cfg, st, p);
    case Mute(start, end, done) => MuteKeepsDue(cfg, st, start, end, done);
  }

  lemma MuteKeepsDue(cfg: Config, st: State, start: int, end: int, done: set<nat>)
    ensures NothingDueHeld(st, cfg.limit) <==> NothingDueHeld(Step(cfg, st, Mute(start, end, done)), cfg.limit)
  {
    var r := Step(cfg, st, Mute(start, end, done));
    if st.buf != [] {
      SumSame(st.buf[1..], r.buf[1..]);
    }
  }

  /** Throughout a run no packet that is due is held, if and only if every push of the run is timely. */
  lemma NothingDueHeldIffTimely(cfg: Config, evs: seq<Event>)
    requires cfg.Valid() && NonNegative(Pushed(evs))
    ensures (forall n: nat :: n <= |evs| ==> NothingDueHeldAt(cfg, evs, n)) <==> Timely(cfg, evs)
  {
    forall n: nat | n < |evs| && NothingDueHeldAt(cfg, evs, n)
      ensures NothingDueHeldAt(cfg, evs, n + 1) <==> TimelyAt(cfg, evs, n)
    {
      StepTimelyIff(cfg, evs, n);
    }
    if forall n: nat :: n <= |evs| ==> NothingDueHeldAt(cfg, evs, n) {
      forall n: nat | n < |evs| ensures TimelyAt(cfg, evs, n) {
        assert NothingDueHeldAt(cfg, evs, n + 1);
      }
    }
    if Timely(cfg, evs) {
      assert evs[..0] == [];
      var n := 0;
      while n < |evs|
        invariant n <= |evs| && forall m: nat :: m <= n ==> NothingDueHeldAt(cfg, evs, m)
      {
        assert TimelyAt(cfg, evs, n);
        n := n + 1;
      }
    }
  }

  lemma TwoPushes(cfg: Config, p: Packet, q: Packet)
    ensures Pushed([Push(p), Push(q)]) == [p, q]
    ensures Run(cfg, [Push(p), Push(q)]) == Step(cfg, Step(cfg, INIT, Push(p)), Push(q))
  {
    var evs := [Push(p), Push(q)];
    assert evs[..1] == [Push(p)] && evs[..1][..0] == [];
    assert Pushed([]) == [] && Run(cfg, []) == INIT;
    assert Pushed(evs[..1]) == [p] && Run(cfg, evs[..1]) == Step(cfg, INIT, Push(p));
  }

  /** A run that is not timely, at a delay of one second: the second packet makes the first one due, and
      the total wraps around. */
  lemma OverflowHoldsPacketsBack()
    ensures exists delaySec: nat, audio, evs ::
              var cfg := Config(delaySec * 1000 * 2, audio);
              && cfg.Valid() && NonNegative(Pushed(evs)) && |Pushed(evs)| == 2
              && Pushed(evs)[1].duration > cfg.limit && Run(cfg, evs).out == []
  {
    var delaySec, audio := 1, 1;
    var cfg := Config(delaySec * 1000 * 2, audio);
    var p, q := Packet(0, 0, 2000, 1, Original), Packet(2000, 2000, INT_MAX, 1, Original);
    TwoPushes(cfg, p, q);
    var held := State([], [p], 2000, false);
    assert [] + [p] == [p] && Step(cfg, INIT, Push(p)) == held;
    assert Enqueue(held, q).total == 2000 + INT_MAX - 0x1_0000_0000;
    assert Step(cfg, held, Push(q)).out == [];
    assert Run(cfg, [Push(p), Push(q)]).out == [] && Pushed([Push(p), Push(q)]) == [p, q];
  }

  // ----- What is held

  /** `n` packets are out and the rest is the shortest suffix lasting longer than the limit,
      or everything when no suffix does. */
  ghost predicate ShortestSuffix(ps: seq<Packet>, n: nat, limit: int) {
    && n <= |ps|
    && (n == 0 || Sum(ps[n..]) > limit)
    && forall m :: n < m <= |ps| ==> Sum(ps[m..]) <= limit
  }

  lemma ShortestSuffixUnique(ps: seq<Packet>, m: nat, n: nat, limit: int)
    requires ShortestSuffix(ps, m, limit) && ShortestSuffix(ps, n, limit)
    ensures m == n
  {
  }

  /** A local test for the shortest suffix: it is too long by less than its first packet. */
  lemma ShortestSuffixFromEnds(ps: seq<Packet>, n: nat, limit: int)
    requires NonNegative(ps) && limit >= 0 && n <= |ps|
    requires n == 0 || Sum(ps[n..]) > limit
    requires n < |ps| ==> Sum(ps[n + 1..]) <= limit
    ensures ShortestSuffix(ps, n, limit)
  {
    forall m | n < m <= |ps| ensures Sum(ps[m..]) <= limit {
      SuffixSums(ps, n + 1, m);
    }
  }

  ghost predicate HoldsShortestSuffix(cfg: Config, evs: seq<Event>) {
    ShortestSuffix(Pushed(evs), |Run(cfg, evs).out|, cfg.limit)
  }

  lemma SuffixIffNothingDue(cfg: Config, evs: seq<Event>)
    requires cfg.Valid() && NonNegative(Pushed(evs))
    ensures HoldsShortestSuffix(cfg, evs) <==> NothingDueHeld(Run(cfg, evs), cfg.limit)
  {
    var st, ps := Run(cfg, evs), Pushed(evs);
    var n := |st.out|;
    RunConserves(cfg, evs);
    RunKeepsEnough(cfg, evs);
    HeldSum(cfg, evs, n);
    if n < |ps| { HeldSum(cfg, evs, n + 1); }
    if NothingDueHeld(st, cfg.limit) {
      ShortestSuffixFromEnds(ps, n, cfg.limit);
    }
  }

  /** After any part of a run the buffer is the shortest suffix of everything pushed so far that lasts
      longer than the limit, or everything if no suffix does; if and only if the run is timely. */
  lemma BufferIsShortestSuffix(cfg: Config, evs: seq<Event>)
    requires cfg.Valid() && NonNegative(Pushed(evs))
    ensures (forall n: nat :: n <= |evs| ==> HoldsShortestSuffix(cfg, evs[..n])) <==> Timely(cfg, evs)
  {
    NothingDueHeldIffTimely(cfg, evs);
    forall n: nat | n <= |evs|
      ensures HoldsShortestSuffix(cfg, evs[..n]) <==> NothingDueHeldAt(cfg, evs, n)
    {
      NonNegativePrefix(evs, n);
      SuffixIffNothingDue(cfg, evs[..n]);
    }
  }

  /** The loop of `flush` over a whole list, with a total that cannot overflow: what it sends. */
  function Released(ps: seq<Packet>, total: int, limit: int): seq<Packet> {
    if ps != [] && total - ps[0].duration > limit then [ps[0]] + Released(ps[1..], total - ps[0].duration, limit) else []
  }

  function BatchFlush(ps: seq<Packet>, limit: int): seq<Packet> {
    if Sum(ps) > limit then Released(ps, Sum(ps), limit) else []
  }

  lemma {:induction false} ReleasedSplits(ps: seq<Packet>, limit: int)
    requires NonNegative(ps)
    ensures var r := Released(ps, Sum(ps), limit);
            && r <= ps && (r == [] || Sum(ps[|r|..]) > limit) && (|r| < |ps| ==> Sum(ps[|r| + 1..]) <= limit)
  {
    if ps == [] {
    } else if Sum(ps[1..]) > limit {
      var r, rest := Released(ps, Sum(ps), limit), Released(ps[1..], Sum(ps[1..]), limit);
      ReleasedSplits(ps[1..], limit);
      assert r == [ps[0]] + rest && ps == [ps[0]] + ps[1..];
      assert ps[|r|..] == ps[1..][|rest|..];
      if |r| < |ps| { assert ps[|r| + 1..] == ps[1..][|rest| + 1..]; }
    }
  }

  lemma BatchSplits(ps: seq<Packet>, limit: int)
    requires NonNegative(ps) && limit >= 0
    ensures BatchFlush(ps, limit) <= ps && ShortestSuffix(ps, |BatchFlush(ps, limit)|, limit)
  {
    if Sum(ps) > limit {
      ReleasedSplits(ps, limit);
    } else if ps != [] {
      SuffixSums(ps, 0, 1);
      assert ps[0..] == ps;
    }
    ShortestSuffixFromEnds(ps, |BatchFlush(ps, limit)|, limit);
  }

  /** The run has sent the packets that one flush of everything pushed would send: as many, in the same
      order, equal but for silence. */
  ghost predicate SentAsBatch(cfg: Config, evs: seq<Event>) {
    var out, batch := Run(cfg, evs).out, BatchFlush(Pushed(evs), cfg.limit);
    |out| == |batch| && forall i :: 0 <= i < |out| ==> SameTimes(out[i], batch[i])
  }

  lemma BatchIffSuffix(cfg: Config, evs: seq<Event>)
    requires cfg.Valid() && NonNegative(Pushed(evs))
    ensures SentAsBatch(cfg, evs) <==> HoldsShortestSuffix(cfg, evs)
  {
    var out, ps := Run(cfg, evs).out, Pushed(evs);
    var batch := BatchFlush(ps, cfg.limit);
    BatchSplits(ps, cfg.limit);
    if HoldsShortestSuffix(cfg, evs) {
      ShortestSuffixUnique(ps, |out|, |batch|, cfg.limit);
      RunConserves(cfg, evs);
      forall i | 0 <= i < |out| ensures SameTimes(out[i], batch[i]) {
        assert out[i] == Run(cfg, evs).All()[i] == Expected(cfg, evs, i);
        assert batch[i] == ps[i];
      }
    }
  }

  /** Flushing after every push has always sent exactly what one flush of everything at that point
      would send, if and only if the run is timely. */
  lemma IncrementalEqualsBatch(cfg: Config, evs: seq<Event>)
    requires cfg.Valid() && NonNegative(Pushed(evs))
    ensures (forall n: nat :: n <= |evs| ==> SentAsBatch(cfg, evs[..n])) <==> Timely(cfg, evs)
  {
    BufferIsShortestSuffix(cfg, evs);
    forall n: nat | n <= |evs|
      ensures SentAsBatch(cfg, evs[..n]) <==> HoldsShortestSuffix(cfg, evs[..n])
    {
      NonNegativePrefix(evs, n);
      BatchIffSuffix(cfg, evs[..n]);
    }
  }

  // ----- When a packet leaves

  /** What was pushed after packet number i lasts longer than the limit. */
  ghost predicate Due(ps: seq<Packet>, i: nat, limit: int)
    requires i < |ps|
  {
    Sum(ps[i + 1..]) > limit
  }

  /** Exactly the packets that are due have been sent. */
  ghost predicate SentIffDue(cfg: Config, evs: seq<Event>) {
    var ps := Pushed(evs);
    forall i: nat :: i < |ps| ==> (i < |Run(cfg, evs).out| <==> Due(ps, i, cfg.limit))
  }

  lemma DueIffSuffix(cfg: Config, evs: seq<Event>)
    requires cfg.Valid() && NonNegative(Pushed(evs))
    ensures SentIffDue(cfg, evs) <==> HoldsShortestSuffix(cfg, evs)
  {
    var n, ps := |Run(cfg, evs).out|, Pushed(evs);
    RunConserves(cfg, evs);
    forall i: nat | i < n ensures Due(ps, i, cfg.limit) {
      NeverEarly(cfg, evs, i);
    }
    if SentIffDue(cfg, evs) {
      assert n == 0 || Due(ps, n - 1, cfg.limit);
      assert n == |ps| || !Due(ps, n, cfg.limit);
      ShortestSuffixFromEnds(ps, n, cfg.limit);
    }
  }

  /** After any part of a run each packet has left if and only if what was pushed after it lasts longer
      than the limit: it leaves at exactly the first push that makes it so, never earlier and never held
      back by a packet before it. This holds throughout a run if and only if the run is timely. */
  lemma EmittedExactlyWhenDue(cfg: Config, evs: seq<Event>)
    requires cfg.Valid() && NonNegative(Pushed(evs))
    ensures (forall n: nat :: n <= |evs| ==> SentIffDue(cfg, evs[..n])) <==> Timely(cfg, evs)
  {
    BufferIsShortestSuffix(cfg, evs);
    forall n: nat | n <= |evs|
      ensures SentIffDue(cfg, evs[..n]) <==> HoldsShortestSuffix(cfg, evs[..n])
    {
      NonNegativePrefix(evs, n);
      DueIffSuffix(cfg, evs[..n]);
    }
  }

  // ----- How large the total gets

  ghost predicate AtMost(ps: seq<Packet>, longest: nat) {
    forall i :: 0 <= i < |ps| ==> ps[i].duration <= longest
  }

  lemma HeldAtMost(cfg: Config, evs: seq<Event>, longest: nat)
    requires AtMost(Pushed(evs), longest)
    ensures AtMost(Run(cfg, evs).buf, longest)
  {
    RunConserves(cfg, evs);
    var st := Run(cfg, evs);
    forall i | 0 <= i < |st.buf| ensures st.buf[i].duration <= longest {
      assert st.buf[i] == st.All()[|st.out| + i] == Expected(cfg, evs, |st.out| + i);
    }
  }

  lemma AtMostPrefix(evs: seq<Event>, n: nat, longest: nat)
    requires n <= |evs| && AtMost(Pushed(evs), longest)
    ensures AtMost(Pushed(evs[..n]), longest)
    ensures n < |evs| && evs[n].Push? ==> evs[n].pkt.duration <= longest
  {
    PushedGrows(evs, n);
    forall i | 0 <= i < |Pushed(evs[..n])| ensures Pushed(evs[..n])[i].duration <= longest {
      assert Pushed(evs[..n])[i] == Pushed(evs)[i];
    }
    if n < |evs| && evs[n].Push? {
      PushedAt(evs, n);
    }
  }

  lemma PushStaysBelow(cfg: Config, st: State, p: Packet, longest: nat)
    requires cfg.Valid() && Sound(st) && AtMost(st.buf, longest) && 0 <= p.duration <= longest
    requires st.total <= cfg.limit + longest
    ensures Enqueue(st, p).total <= cfg.limit + 2 * longest
    ensures Step(cfg, st, Push(p)).total <= cfg.limit + longest
  {
    EnqueueTotal(st, p);
    var mid := Enqueue(st, p);
    SumNonNegative(mid.buf);
    if mid.total > cfg.limit {
      PopMoves(mid, cfg.limit);
      var r := Pop(mid, cfg.limit);
      assert Step(cfg, st, Push(p)) == r && r.buf[0] == mid.buf[|r.out| - |st.out|];
    }
  }

  lemma {:induction false} TotalAfterFlush(cfg: Config, evs: seq<Event>, longest: nat)
    requires cfg.Valid() && NonNegative(Pushed(evs)) && AtMost(Pushed(evs), longest)
    ensures Run(cfg, evs).total <= cfg.limit + longest
  {
    if evs == [] {
    } else {
      var n := |evs| - 1;
      NonNegativePrefix(evs, n);
      AtMostPrefix(evs, n, longest);
      TotalAfterFlush(cfg, evs[..n], longest);
      TotalIsWrappedSum(cfg, evs[..n]);
      HeldAtMost(cfg, evs[..n], longest);
      match evs[n]
      case Push(p) => PushStaysBelow(cfg, Run(cfg, evs[..n]), p, longest);
      case Mute(_, _, _) =>
    }
  }

  /** With durations of at most `longest`, the total never exceeds the limit plus twice that before a
      flush nor the limit plus once that after it, on any run, even one on which it wraps around. */
  lemma TotalIsBounded(cfg: Config, evs: seq<Event>, longest: nat)
    requires cfg.Valid() && NonNegative(Pushed(evs)) && AtMost(Pushed(evs), longest)
    ensures Run(cfg, evs).total <= cfg.limit + longest
    ensures forall n: nat :: n < |evs| && evs[n].Push? ==>
              Enqueue(Run(cfg, evs[..n]), evs[n].pkt).total <= cfg.limit + 2 * longest
  {
    TotalAfterFlush(cfg, evs, longest);
    forall n: nat | n < |evs| && evs[n].Push?
      ensures Enqueue(Run(cfg, evs[..n]), evs[n].pkt).total <= cfg.limit + 2 * longest
    {
      NonNegativePrefix(evs, n);
      AtMostPrefix(evs, n, longest);
      TotalAfterFlush(cfg, evs[..n], longest);
      TotalIsWrappedSum(cfg, evs[..n]);
      HeldAtMost(cfg, evs[..n], longest);
      PushStaysBelow(cfg, Run(cfg, evs[..n]), evs[n].pkt, longest);
    }
  }

  /** A limit that leaves room for two more packets: no run overflows, all are timely, and the total is
      never negative. */
  lemma {:induction false} RoomIsEnough(cfg: Config, evs: seq<Event>, longest: nat)
    requires cfg.Valid() && NonNegative(Pushed(evs)) && AtMost(Pushed(evs), longest)
    requires cfg.limit + 2 * longest <= INT_MAX
    ensures Fits(cfg, evs) && Timely(cfg, evs)
    ensures 0 <= Run(cfg, evs).total
    ensures forall n: nat :: n < |evs| && evs[n].Push? ==> 0 <= Enqueue(Run(cfg, evs[..n]), evs[n].pkt).total
  {
    assert evs[..|evs|] == evs;
    forall n: nat | n < |evs|
      ensures FitsAt(cfg, evs, n)
      ensures evs[n].Push? ==> 0 <= Enqueue(Run(cfg, evs[..n]), evs[n].pkt).total
    {
      NonNegativePrefix(evs, n);
      AtMostPrefix(evs, n, longest);
      RoomIsEnough(cfg, evs[..n], longest);
      HeldIsBounded(cfg, evs[..n], longest);
    }
    HeldIsBounded(cfg, evs, longest);
    FitsIsTimely(cfg, evs);
  }

  lemma HeldIsBounded(cfg: Config, evs: seq<Event>, longest: nat)
    requires cfg.Valid() && NonNegative(Pushed(evs)) && AtMost(Pushed(evs), longest) && Fits(cfg, evs)
    ensures 0 <= Run(cfg, evs).total == Sum(Run(cfg, evs).buf) <= cfg.limit + longest
  {
    TotalIsWrappedSum(cfg, evs);
    TotalExactIffFits(cfg, evs);
    assert evs[..|evs|] == evs;
    assert ExactAt(cfg, evs, |evs|);
    SumNonNegative(Run(cfg, evs).buf);
    TotalAfterFlush(cfg, evs, longest);
  }

  // ----- Without that room

  function Lasting(duration: int): Packet {
    Packet(0, 0, duration, 0, Original)
  }

  lemma {:induction false} SumOfOnes(n: nat)
    ensures Sum(seq(n, _ => Lasting(1))) == n
  {
    var ones := seq(n, _ => Lasting(1));
    if n == 0 {
    } else {
      SumOfOnes(n - 1);
      assert ones[1..] == seq(n - 1, _ => Lasting(1));
    }
  }

  /** A long packet, and then the limit in packets of duration one. */
  function Crowd(limit: nat, longest: nat): seq<Packet> {
    [Lasting(longest)] + seq(limit, _ => Lasting(1))
  }

  /** None of them is due yet, so all are held. */
  lemma CrowdIsHeld(cfg: Config, longest: nat)
    requires cfg.Valid()
    ensures var st := Run(cfg, PushAll(Crowd(cfg.limit, longest)));
            st.buf != [] && st.buf[0].duration == longest && Sum(st.buf) == longest + cfg.limit
  {
    var ps := Crowd(cfg.limit, longest);
    var evs := PushAll(ps);
    PushAllPushes(ps);
    SumOfOnes(cfg.limit);
    assert ps[0..] == ps && ps[1..] == seq(cfg.limit, _ => Lasting(1));
    if Run(cfg, evs).out != [] {
      NeverEarly(cfg, evs, 0);
      assert false;
    }
    HeldSum(cfg, evs, 0);
    RunConserves(cfg, evs);
    var st := Run(cfg, evs);
    assert st.buf[0..] == st.buf && st.buf[0] == st.All()[0] == Expected(cfg, evs, 0);
  }

  /** One more long packet does not fit, if there is no room; nor is it timely, if it fits by itself. */
  lemma CrowdOverflows(cfg: Config, longest: nat) returns (evs: seq<Event>)
    requires cfg.Valid() && cfg.limit + 2 * longest > INT_MAX
    ensures NonNegative(Pushed(evs)) && AtMost(Pushed(evs), longest)
    ensures !Fits(cfg, evs) && (longest <= INT_MAX ==> !Timely(cfg, evs))
  {
    var crowd := PushAll(Crowd(cfg.limit, longest));
    evs := crowd + [Push(Lasting(longest))];
    var n := |crowd|;
    assert evs[..n] == crowd;
    PushAllPushes(Crowd(cfg.limit, longest));
    CrowdIsHeld(cfg, longest);
    assert !FitsAt(cfg, evs, n);
    if longest <= INT_MAX {
      TotalIsWrappedSum(cfg, crowd);
      TimelyShortPush(cfg.limit, Run(cfg, crowd).buf, Lasting(longest));
      assert !TimelyAt(cfg, evs, n);
    }
  }

  ghost predicate NoneOverflows(cfg: Config, longest: nat) {
    forall evs :: NonNegative(Pushed(evs)) && AtMost(Pushed(evs), longest) ==> Fits(cfg, evs)
  }

  ghost predicate AllTimely(cfg: Config, longest: nat) {
    forall evs :: NonNegative(Pushed(evs)) && AtMost(Pushed(evs), longest) ==> Timely(cfg, evs)
  }

  /** The room is exactly what is needed: no run with durations of at most `longest` overflows, and, for
      durations that fit the int, all of them are timely, if and only if the limit and two of the longest
      packets together fit the int. */
  lemma NoneOverflowsIffRoom(cfg: Config, longest: nat)
    requires cfg.Valid()
    ensures NoneOverflows(cfg, longest) <==> cfg.limit + 2 * longest <= INT_MAX
    ensures longest <= INT_MAX ==> (AllTimely(cfg, longest) <==> cfg.limit + 2 * longest <= INT_MAX)
  {
    if cfg.limit + 2 * longest <= INT_MAX {
      forall evs | NonNegative(Pushed(evs)) && AtMost(Pushed(evs), longest)
        ensures Fits(cfg, evs) && Timely(cfg, evs)
      {
        RoomIsEnough(cfg, evs, longest);
      }
    } else {
      var evs := CrowdOverflows(cfg, longest);
    }
  }
}
