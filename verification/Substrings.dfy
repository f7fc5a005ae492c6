/** Searching a text from left to right without overlaps, as the blacklist scan does. Texts are
    sequences over any alphabet, so the same results serve bytes and code points. */
module Substrings {

  datatype Option<+T> = None | Some(value: T)

  predicate OccursAt<T(==)>(s: seq<T>, w: seq<T>, p: nat) {
    p + |w| <= |s| && s[p..p + |w|] == w
  }

  /** `std::string::find`: the first occurrence at or after `from`. */
  function Find<T(==)>(s: seq<T>, w: seq<T>, from: nat): (r: Option<nat>)
    ensures r.Some? ==> from <= r.value && r.value + |w| <= |s|
    decreases |s| - from
  {
    if from + |w| > |s| then None
    else if s[from..from + |w|] == w then Some(from)
    else Find(s, w, from + 1)
  }

  /** `r` is the first occurrence at or after `from`, if there is one. */
  ghost predicate FirstFrom<T(!new)>(s: seq<T>, w: seq<T>, from: nat, r: Option<nat>) {
    && (r.Some? ==> from <= r.value && OccursAt(s, w, r.value))
    && forall q: nat :: from <= q && (r.Some? ==> q < r.value) ==> !OccursAt(s, w, q)
  }

  lemma {:induction false} FindIsFirst<T(!new)>(s: seq<T>, w: seq<T>, from: nat)
    ensures FirstFrom(s, w, from, Find(s, w, from))
    decreases |s| - from
  {
    if from + |w| > |s| || s[from..from + |w|] == w {
    } else {
      FindIsFirst(s, w, from + 1);
    }
  }

  lemma FindIs<T(!new)>(s: seq<T>, w: seq<T>, from: nat, r: Option<nat>)
    requires FirstFrom(s, w, from, r)
    ensures Find(s, w, from) == r
  {
    FindIsFirst(s, w, from);
  }

  /** The positions the scan reports from `from` on. */
  function Scan<T(==)>(s: seq<T>, w: seq<T>, from: nat): seq<nat>
    requires w != []
    decreases |s| + 1 - from
  {
    match Find(s, w, from)
    case None => []
    case Some(p) => [p] + Scan(s, w, p + |w|)
  }

  lemma ScanUnfolds<T>(s: seq<T>, w: seq<T>, from: nat)
    requires w != [] && Find(s, w, from).Some?
    ensures Scan(s, w, from) == [Find(s, w, from).value] + Scan(s, w, Find(s, w, from).value + |w|)
  {
  }

  /** Every reported position is an occurrence, and reported ones come in order without overlapping. */
  lemma {:induction false} ScanSound<T(!new)>(s: seq<T>, w: seq<T>, from: nat)
    requires w != []
    ensures forall i :: 0 <= i < |Scan(s, w, from)| ==> from <= Scan(s, w, from)[i] && OccursAt(s, w, Scan(s, w, from)[i])
    ensures forall i, j :: 0 <= i < j < |Scan(s, w, from)| ==> Scan(s, w, from)[i] + |w| <= Scan(s, w, from)[j]
    decreases |s| + 1 - from
  {
    FindIsFirst(s, w, from);
    match Find(s, w, from)
    case None =>
    case Some(p) => ScanSound(s, w, p + |w|);
  }

  lemma ScanMember<T(!new)>(s: seq<T>, w: seq<T>, p: nat)
    requires w != [] && p in Scan(s, w, 0)
    ensures OccursAt(s, w, p)
  {
    ScanSound(s, w, 0);
  }

  /** Every occurrence is covered: it starts inside a reported one. */
  lemma {:induction false} ScanCovers<T(!new)>(s: seq<T>, w: seq<T>, from: nat, q: nat)
    requires w != [] && from <= q && OccursAt(s, w, q)
    ensures exists p :: p in Scan(s, w, from) && p <= q < p + |w|
    decreases |s| + 1 - from
  {
    FindIsFirst(s, w, from);
    var p := Find(s, w, from).value;
    if q < p + |w| {
      assert p in Scan(s, w, from);
    } else {
      ScanCovers(s, w, p + |w|, q);
      var r :| r in Scan(s, w, p + |w|) && r <= q < r + |w|;
      assert r in Scan(s, w, from);
    }
  }

  ghost predicate Apart(ps: set<nat>, width: nat) {
    forall p, q :: p in ps && q in ps && p < q ==> p + width <= q
  }

  /** A set of occurrences no two of which overlap. */
  ghost predicate Packing<T>(s: seq<T>, w: seq<T>, ps: set<nat>) {
    (forall p :: p in ps ==> OccursAt(s, w, p)) && Apart(ps, |w|)
  }

  ghost predicate CoveredBy(q: nat, starts: seq<nat>, width: nat) {
    exists p :: p in starts && p <= q < p + width
  }

  ghost function Within(ps: set<nat>, start: nat, width: nat): set<nat> {
    set q | q in ps && start <= q < start + width
  }

  lemma AtMostOneWithin(ps: set<nat>, start: nat, width: nat)
    requires Apart(ps, width) && ps == Within(ps, start, width)
    ensures |ps| <= 1
  {
    if ps != {} {
      var q :| q in ps;
      forall p ensures p in ps <==> p == q {
        if p in ps { assert p in Within(ps, start, width) && q in Within(ps, start, width); }
      }
      assert ps == {q};
    }
  }

  lemma SplitCount(ps: set<nat>, part: set<nat>)
    requires part <= ps
    ensures |ps| == |part| + |ps - part|
  {
    assert ps == part + (ps - part);
  }

  /** Points that lie apart need at least as many intervals to cover them. */
  lemma {:induction false} CoverCount(ps: set<nat>, starts: seq<nat>, width: nat)
    requires Apart(ps, width) && forall q :: q in ps ==> CoveredBy(q, starts, width)
    ensures |ps| <= |starts|
  {
    if starts == [] {
      forall q ensures q !in ps {
        assert !CoveredBy(q, starts, width);
      }
      assert ps == {};
    } else {
      var near := Within(ps, starts[0], width);
      var far := ps - near;
      forall q | q in far ensures CoveredBy(q, starts[1..], width) {
        assert CoveredBy(q, starts, width);
        var p :| p in starts && p <= q < p + width;
        assert p in starts[1..];
      }
      CoverCount(far, starts[1..], width);
      AtMostOneWithin(near, starts[0], width);
      assert near <= ps;
      SplitCount(ps, near);
    }
  }

  /** No choice of occurrences that do not overlap is larger than the reported one. */
  lemma ScanIsLargest<T(!new)>(s: seq<T>, w: seq<T>, ps: set<nat>)
    requires w != [] && Packing(s, w, ps)
    ensures |ps| <= |Scan(s, w, 0)|
  {
    forall q | q in ps ensures CoveredBy(q, Scan(s, w, 0), |w|) {
      ScanCovers(s, w, 0, q);
    }
    CoverCount(ps, Scan(s, w, 0), |w|);
  }

  function Elements(ps: seq<nat>): set<nat> {
    set p | p in ps
  }

  /** The reported positions are themselves such a choice, so their number is the maximum. */
  lemma ScanIsPacking<T(!new)>(s: seq<T>, w: seq<T>)
    requires w != []
    ensures Packing(s, w, Elements(Scan(s, w, 0))) && |Elements(Scan(s, w, 0))| == |Scan(s, w, 0)|
  {
    ScanSound(s, w, 0);
    SortedCount(Scan(s, w, 0));
  }

  lemma {:induction false} SortedCount(ps: seq<nat>)
    requires forall i, j :: 0 <= i < j < |ps| ==> ps[i] < ps[j]
    ensures |Elements(ps)| == |ps|
  {
    if ps == [] {
    } else {
      var n := |ps| - 1;
      SortedCount(ps[..n]);
      assert Elements(ps) == Elements(ps[..n]) + {ps[n]};
    }
  }

  /** A proper border: the word starts with its own last `k` letters. */
  ghost predicate HasBorder<T>(w: seq<T>, k: nat) {
    0 < k < |w| && w[..k] == w[|w| - k..]
  }

  /** The scan reports every occurrence in every text if and only if the word has no proper border. */
  lemma AllReportedIffBorderless<T(!new)>(w: seq<T>)
    requires w != []
    ensures (forall s: seq<T>, q: nat :: OccursAt(s, w, q) ==> q in Scan(s, w, 0)) <==> !(exists k :: HasBorder(w, k))
  {
    if exists k :: HasBorder(w, k) {
      var k: nat :| HasBorder(w, k);
      BorderHidesOne(w, k);
    } else {
      forall s: seq<T>, q: nat | OccursAt(s, w, q) ensures q in Scan(s, w, 0) {
        ScanCovers(s, w, 0, q);
        var p :| p in Scan(s, w, 0) && p <= q < p + |w|;
        if p != q {
          ScanSound(s, w, 0);
          var i :| 0 <= i < |Scan(s, w, 0)| && Scan(s, w, 0)[i] == p;
          OverlapIsBorder(s, w, p, q);
        }
      }
    }
  }

  lemma OverlapIsBorder<T>(s: seq<T>, w: seq<T>, p: nat, q: nat)
    requires OccursAt(s, w, p) && OccursAt(s, w, q) && p < q < p + |w|
    ensures HasBorder(w, p + |w| - q)
  {
    var k := p + |w| - q;
    assert w[..k] == s[q..q + |w|][..k] == s[q..q + k];
    assert w[|w| - k..] == s[p..p + |w|][|w| - k..] == s[q..q + k];
  }

  lemma BorderHidesOne<T(!new)>(w: seq<T>, k: nat)
    requires HasBorder(w, k)
    ensures exists s: seq<T>, q: nat :: OccursAt(s, w, q) && q !in Scan(s, w, 0)
  {
    var q := |w| - k;
    var s := w[..q] + w;
    assert OccursAt(s, w, q);
    assert s[..|w|] == w by {
      assert w[..k] == w[q..];
      assert w[..q] + w[..k] == w[..q] + w[q..] == w;
      assert s[..|w|] == w[..q] + w[..k];
    }
    assert s[0..0 + |w|] == w;
    assert OccursAt(s, w, 0);
    FindIs(s, w, 0, Some(0));
    ScanSound(s, w, |w|);
    assert q !in Scan(s, w, |w|);
    assert Scan(s, w, 0) == [0] + Scan(s, w, |w|);
    assert OccursAt(s, w, q) && q !in Scan(s, w, 0);
  }

  // ----- Termination of the scan

  /** The scan loop run for at most `turns` turns; None when it has not finished by then. */
  function ScanFor<T(==)>(s: seq<T>, w: seq<T>, from: nat, turns: nat): Option<seq<nat>>
    decreases turns
  {
    match Find(s, w, from)
    case None => Some([])
    case Some(p) =>
      if turns == 0 then None
      else
        match ScanFor(s, w, p + |w|, turns - 1)
        case None => None
        case Some(rest) => Some([p] + rest)
  }

  /** The loop ends, on every text, if and only if the word is not empty; it then yields `Scan`. */
  lemma ScanEndsIffNotEmpty<T(!new)>(s: seq<T>, w: seq<T>)
    ensures (exists turns: nat :: ScanFor(s, w, 0, turns).Some?) <==> w != []
    ensures w != [] ==> ScanFor(s, w, 0, |s| + 1) == Some(Scan(s, w, 0))
  {
    if w == [] {
      forall turns: nat ensures ScanFor(s, w, 0, turns).None? {
        EmptyNeverEnds(s, 0, turns);
      }
    } else {
      ScanForEnough(s, w, 0, |s| + 1);
    }
  }

  lemma {:induction false} ScanForEnough<T(!new)>(s: seq<T>, w: seq<T>, from: nat, turns: nat)
    requires w != [] && turns + from >= |s| + 1
    ensures ScanFor(s, w, from, turns) == Some(Scan(s, w, from))
    decreases turns
  {
    match Find(s, w, from)
    case None =>
    case Some(p) => ScanForEnough(s, w, p + |w|, turns - 1);
  }

  lemma {:induction false} EmptyNeverEnds<T(!new)>(s: seq<T>, from: nat, turns: nat)
    requires from <= |s|
    ensures ScanFor(s, [], from, turns).None?
    decreases turns
  {
    FindIs(s, [], from, Some(from));
    if turns == 0 {
    } else {
      EmptyNeverEnds(s, from, turns - 1);
    }
  }
}
