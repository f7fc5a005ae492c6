/** The time base: the stream time at which the recogniser's clock reads zero. */
module TimeBase {

  /** What may happen to it: a packet is sent to the recogniser (`accepted` if decoding and resampling
      worked and bytes were taken), or the recogniser's task fails or its channel closes. */
  datatype BaseEvent = Sent(pts: int, accepted: bool) | Reset

  function BaseStep(base: int, e: BaseEvent): int {
    match e
    case Sent(pts, accepted) => if base == 0 && accepted then pts else base
    case Reset => 0
  }

  function BaseFrom(base: int, evs: seq<BaseEvent>): int {
    if evs == [] then base else BaseStep(BaseFrom(base, evs[..|evs| - 1]), evs[|evs| - 1])
  }

  lemma BaseFromMore(base: int, evs: seq<BaseEvent>, e: BaseEvent)
    ensures BaseFrom(base, evs + [e]) == BaseStep(BaseFrom(base, evs), e)
  {
    assert (evs + [e])[..|evs|] == evs;
  }

  /** The base of a recogniser that has just been made. */
  function BaseRun(evs: seq<BaseEvent>): int {
    BaseFrom(0, evs)
  }

  /** Event number `k` could set the base: an accepted packet with a time other than zero, with no
      reset since. */
  ghost predicate Counts(evs: seq<BaseEvent>, k: nat) {
    && k < |evs| && evs[k].Sent? && evs[k].accepted && evs[k].pts != 0
    && forall j :: k < j < |evs| ==> evs[j] != Reset
  }

  ghost predicate FirstCounting(evs: seq<BaseEvent>, k: nat) {
    Counts(evs, k) && forall j: nat :: j < k ==> !Counts(evs, j)
  }

  lemma CountsExtends(evs: seq<BaseEvent>, e: BaseEvent, k: nat)
    requires k < |evs|
    ensures Counts(evs + [e], k) <==> Counts(evs, k) && e != Reset
  {
    var all := evs + [e];
    if Counts(all, k) {
      assert all[|evs|] == e;
      forall j | k < j < |evs| ensures evs[j] != Reset { assert all[j] == evs[j]; }
    }
  }

  /** The base is the time of the first accepted packet with a time other than zero since the last
      reset, and zero when there is none. */
  lemma {:induction false} BaseIsFirstCounting(evs: seq<BaseEvent>)
    ensures BaseRun(evs) == 0 <==> forall k: nat :: !Counts(evs, k)
    ensures forall k: nat :: FirstCounting(evs, k) ==> BaseRun(evs) == evs[k].pts
  {
    if evs == [] {
    } else {
      var n := |evs| - 1;
      var before, e := evs[..n], evs[n];
      BaseIsFirstCounting(before);
      assert evs == before + [e];
      forall k: nat | k < n ensures Counts(evs, k) <==> Counts(before, k) && e != Reset {
        CountsExtends(before, e, k);
      }
      if BaseRun(before) == 0 {
        forall k: nat | k < n ensures !Counts(evs, k) { assert !Counts(before, k); }
        assert Counts(evs, n) <==> e.Sent? && e.accepted && e.pts != 0;
      } else {
        var some: nat :| Counts(before, some);
        var first := LeastCounting(before, some);
        assert e != Reset ==> FirstCounting(evs, first);
        forall k: nat | FirstCounting(evs, k) ensures k == first {
        }
      }
    }
  }

  lemma {:induction false} LeastCounting(evs: seq<BaseEvent>, k: nat) returns (first: nat)
    requires Counts(evs, k)
    ensures FirstCounting(evs, first)
    decreases k
  {
    first := k;
    if j: nat :| j < k && Counts(evs, j) {
      first := LeastCounting(evs, j);
    }
  }
}
