/** Cutting a text at the nearest of several delimiters, as the streaming synthesiser's demo cuts its
    input into sentences. Texts are sequences over any alphabet. */
module Splitter {
  import opened Substrings

  /** Where the next cut is, and which delimiter (by its place in the list) it is at. */
  datatype Cut = Cut(pos: nat, which: nat)

  datatype Piece<T> = Piece(text: seq<T>, delimiter: Option<seq<T>>)

  function Nearer(best: Option<Cut>, found: Option<nat>, which: nat): Option<Cut> {
    if found.Some? && (best.None? || found.value < best.value.pos) then Some(Cut(found.value, which)) else best
  }

  /** The search over the first `n` delimiters: a later one wins only if it is strictly nearer. */
  function Nearest<T(==)>(s: seq<T>, ds: seq<seq<T>>, from: nat, n: nat): (r: Option<Cut>)
    requires n <= |ds|
    ensures r.Some? ==> r.value.which < n && from <= r.value.pos && r.value.pos + |ds[r.value.which]| <= |s|
  {
    if n == 0 then None
    else
      Nearer(Nearest(s, ds, from, n - 1), Find(s, ds[n - 1], from), n - 1)
  }

  ghost predicate NoEmpty<T>(ds: seq<seq<T>>) {
    forall i :: 0 <= i < |ds| ==> ds[i] != []
  }

  /** The pieces of the text from `from` on, each with the delimiter that ended it. */
  function Pieces<T(==)>(s: seq<T>, ds: seq<seq<T>>, from: nat): seq<Piece<T>>
    requires NoEmpty(ds)
    decreases |s| - from
  {
    if from >= |s| then []
    else
      match Nearest(s, ds, from, |ds|)
      case None => [Piece(s[from..], None)]
      case Some(cut) =>
        [Piece(s[from..cut.pos], Some(ds[cut.which]))] + Pieces(s, ds, cut.pos + |ds[cut.which]|)
  }

  function Texts<T>(ps: seq<Piece<T>>): seq<seq<T>> {
    seq(|ps|, i requires 0 <= i < |ps| => ps[i].text)
  }

  // ----- The loops

  method FindNearest<T(==)>(s: seq<T>, ds: seq<seq<T>>, from: nat) returns (best: Option<Cut>)
    ensures best == Nearest(s, ds, from, |ds|)
  {
    best := None;
    var n := 0;
    while n < |ds|
      invariant n <= |ds| && best == Nearest(s, ds, from, n)
    {
      var position := Find(s, ds[n], from);
      if position.Some? && (best.None? || position.value < best.value.pos) {
        best := Some(Cut(position.value, n));
      }
      n := n + 1;
    }
  }

  /** What is still to be cut from `from` on are the pieces from number `n` on. */
  ghost predicate StillToCut<T>(s: seq<T>, ds: seq<seq<T>>, from: nat, all: seq<Piece<T>>, n: nat) {
    NoEmpty(ds) && n <= |all| && Pieces(s, ds, from) == all[n..]
  }

  /** One turn of the outer loop: the next part, and where to go on; none when it was the last. */
  method NextPart<T(==)>(s: seq<T>, ds: seq<seq<T>>, from: nat, ghost all: seq<Piece<T>>, ghost n: nat)
      returns (part: seq<T>, next: Option<nat>)
    requires from < |s| && StillToCut(s, ds, from, all, n)
    ensures n < |all| && part == all[n].text
    ensures match next
            case None => n + 1 == |all|
            case Some(at) => from < at <= |s| && StillToCut(s, ds, at, all, n + 1)
  {
    var cut := FindNearest(s, ds, from);
    assert all[n + 1..] == all[n..][1..];
    if cut.Some? {
      part, next := s[from..cut.value.pos], Some(cut.value.pos + |ds[cut.value.which]|);
    } else {
      part, next := s[from..], None;
    }
  }

  // ----- What the search finds

  /** Position `pos` is the first at or after `from` where a delimiter occurs, and `k` is the first
      delimiter in the list that occurs there. */
  ghost predicate IsNearest<T(!new)>(s: seq<T>, ds: seq<seq<T>>, from: nat, n: nat, cut: Cut) {
    && cut.which < n <= |ds| && from <= cut.pos && OccursAt(s, ds[cut.which], cut.pos)
    && (forall j, q: nat :: 0 <= j < n && from <= q < cut.pos ==> !OccursAt(s, ds[j], q))
    && forall j :: 0 <= j < cut.which ==> !OccursAt(s, ds[j], cut.pos)
  }

  ghost predicate NoneLeft<T(!new)>(s: seq<T>, ds: seq<seq<T>>, from: nat, n: nat) {
    n <= |ds| && forall j, q: nat :: 0 <= j < n && from <= q ==> !OccursAt(s, ds[j], q)
  }

  lemma {:induction false} NearestIsNearest<T(!new)>(s: seq<T>, ds: seq<seq<T>>, from: nat, n: nat)
    requires n <= |ds|
    ensures match Nearest(s, ds, from, n)
            case None => NoneLeft(s, ds, from, n)
            case Some(cut) => IsNearest(s, ds, from, n, cut)
  {
    if n == 0 {
    } else {
      NearestIsNearest(s, ds, from, n - 1);
      FindIsFirst(s, ds[n - 1], from);
    }
  }

  /** There is only one nearest delimiter, and the search finds it. */
  lemma NearestUnique<T(!new)>(s: seq<T>, ds: seq<seq<T>>, from: nat, cut: Cut)
    requires IsNearest(s, ds, from, |ds|, cut)
    ensures Nearest(s, ds, from, |ds|) == Some(cut)
  {
    NearestIsNearest(s, ds, from, |ds|);
  }

  lemma NoneToFind<T(!new)>(s: seq<T>, ds: seq<seq<T>>, from: nat)
    requires NoneLeft(s, ds, from, |ds|)
    ensures Nearest(s, ds, from, |ds|) == None
  {
    NearestIsNearest(s, ds, from, |ds|);
  }

  // ----- What the pieces are

  /** Put the delimiters back. */
  function Rejoined<T>(ps: seq<Piece<T>>): seq<T> {
    if ps == [] then []
    else ps[0].text + (if ps[0].delimiter.Some? then ps[0].delimiter.value else []) + Rejoined(ps[1..])
  }

  ghost predicate CutsAt<T(!new)>(s: seq<T>, ds: seq<seq<T>>, from: nat, piece: Piece<T>, cut: Cut) {
    && IsNearest(s, ds, from, |ds|, cut)
    && piece == Piece(s[from..cut.pos], Some(ds[cut.which]))
  }

  lemma CutsThere<T(!new)>(s: seq<T>, ds: seq<seq<T>>, from: nat, n: nat, piece: Piece<T>, cut: Cut)
    requires n == |ds| && IsNearest(s, ds, from, n, cut)
    requires piece.text == s[from..cut.pos] && piece.delimiter == Some(ds[cut.which])
    ensures CutsAt(s, ds, from, piece, cut)
  {
  }

  /** The rule, without the algorithm: each piece ends at the nearest delimiter, ties going to the
      earlier in the list; the last one has none left, and nothing follows a delimiter that ends the text. */
  ghost predicate CutByRule<T(!new)>(s: seq<T>, ds: seq<seq<T>>, from: nat, ps: seq<Piece<T>>)
    decreases |ps|
  {
    if ps == [] then from >= |s|
    else
      var piece := ps[0];
      && from < |s|
      && match piece.delimiter
         case None => |ps| == 1 && piece.text == s[from..] && NoneLeft(s, ds, from, |ds|)
         case Some(d) =>
           && (exists cut :: CutsAt(s, ds, from, piece, cut))
           && CutByRule(s, ds, from + |piece.text| + |d|, ps[1..])
  }

  lemma PiecesUnfold<T>(s: seq<T>, ds: seq<seq<T>>, from: nat, cut: Cut, next: nat)
    requires NoEmpty(ds) && from < |s| && Nearest(s, ds, from, |ds|) == Some(cut) && next == cut.pos + |ds[cut.which]|
    ensures Pieces(s, ds, from) == [Piece(s[from..cut.pos], Some(ds[cut.which]))] + Pieces(s, ds, next)
  {
    var rest := Pieces(s, ds, cut.pos + |ds[cut.which]|);
    assert Pieces(s, ds, from) == [Piece(s[from..cut.pos], Some(ds[cut.which]))] + rest;
  }

  lemma RuleCons<T(!new)>(s: seq<T>, ds: seq<seq<T>>, from: nat, cut: Cut, next: nat,
                          piece: Piece<T>, rest: seq<Piece<T>>, ps: seq<Piece<T>>)
    requires from < |s| && CutsAt(s, ds, from, piece, cut) && next == cut.pos + |piece.delimiter.value|
    requires CutByRule(s, ds, next, rest) && ps == [piece] + rest
    ensures CutByRule(s, ds, from, ps)
  {
    assert ps[1..] == rest;
  }

  lemma RuleLast<T(!new)>(s: seq<T>, ds: seq<seq<T>>, from: nat)
    requires from < |s| && NoneLeft(s, ds, from, |ds|)
    ensures CutByRule(s, ds, from, [Piece(s[from..], None)])
  {
  }

  /** The pieces are cut by the rule. */
  lemma {:induction false} PiecesFollowRule<T(!new)>(s: seq<T>, ds: seq<seq<T>>, from: nat)
    requires NoEmpty(ds)
    ensures CutByRule(s, ds, from, Pieces(s, ds, from))
    decreases |s| - from
  {
    if from >= |s| {
    } else {
      NearestIsNearest(s, ds, from, |ds|);
      var found := Nearest(s, ds, from, |ds|);
      if found.Some? {
        var cut, next := found.value, found.value.pos + |ds[found.value.which]|;
        PiecesUnfold(s, ds, from, cut, next);
        PiecesFollowRule(s, ds, next);
        RuleCons(s, ds, from, cut, next, Piece(s[from..cut.pos], Some(ds[cut.which])), Pieces(s, ds, next), Pieces(s, ds, from));
      } else {
        RuleLast(s, ds, from);
      }
    }
  }

  lemma RuleHead<T(!new)>(s: seq<T>, ds: seq<seq<T>>, from: nat, ps: seq<Piece<T>>) returns (cut: Cut, next: nat)
    requires CutByRule(s, ds, from, ps) && ps != [] && ps[0].delimiter.Some?
    ensures from < |s| && CutsAt(s, ds, from, ps[0], cut)
    ensures next == cut.pos + |ps[0].delimiter.value| && CutByRule(s, ds, next, ps[1..])
  {
    cut :| CutsAt(s, ds, from, ps[0], cut);
    next := cut.pos + |ps[0].delimiter.value|;
  }

  /** They are the only way to cut the text by the rule. */
  lemma {:induction false} RuleDetermines<T(!new)>(s: seq<T>, ds: seq<seq<T>>, from: nat, ps: seq<Piece<T>>)
    requires NoEmpty(ds) && CutByRule(s, ds, from, ps)
    ensures ps == Pieces(s, ds, from)
    decreases |ps|
  {
    if ps == [] {
    } else if ps[0].delimiter.Some? {
      var cut, next := RuleHead(s, ds, from, ps);
      RuleDetermines(s, ds, next, ps[1..]);
      OnlyThisPiece(s, ds, from, ps, cut, next);
    } else {
      NoneToFind(s, ds, from);
      assert ps == [ps[0]];
    }
  }

  lemma OnlyThisPiece<T(!new)>(s: seq<T>, ds: seq<seq<T>>, from: nat, ps: seq<Piece<T>>, cut: Cut, next: nat)
    requires NoEmpty(ds) && from < |s| && ps != [] && CutsAt(s, ds, from, ps[0], cut)
    requires next == cut.pos + |ps[0].delimiter.value| && ps[1..] == Pieces(s, ds, next)
    ensures ps == Pieces(s, ds, from)
  {
    NearestUnique(s, ds, from, cut);
    PiecesUnfold(s, ds, from, cut, next);
    assert ps == [ps[0]] + ps[1..];
  }

  /** Rejoining what was cut by the rule gives back the text exactly. */
  lemma {:induction false} RejoinRebuilds<T(!new)>(s: seq<T>, ds: seq<seq<T>>, from: nat, ps: seq<Piece<T>>)
    requires from <= |s| && CutByRule(s, ds, from, ps)
    ensures Rejoined(ps) == s[from..]
    decreases |ps|
  {
    if ps == [] {
    } else if ps[0].delimiter.Some? {
      var mid, next := RuleHeadSpans(s, ds, from, ps);
      RejoinRebuilds(s, ds, next, ps[1..]);
      RejoinOne(ps);
      Reassemble(s, from, mid, next);
    } else {
      assert ps[1..] == [];
    }
  }

  lemma RuleHeadSpans<T(!new)>(s: seq<T>, ds: seq<seq<T>>, from: nat, ps: seq<Piece<T>>) returns (mid: nat, next: nat)
    requires CutByRule(s, ds, from, ps) && ps != [] && ps[0].delimiter.Some?
    ensures from <= mid <= next <= |s| && ps[0].text == s[from..mid] && ps[0].delimiter.value == s[mid..next]
    ensures CutByRule(s, ds, next, ps[1..])
  {
    var cut;
    cut, next := RuleHead(s, ds, from, ps);
    mid := cut.pos;
  }

  lemma Reassemble<T>(s: seq<T>, a: nat, b: nat, c: nat)
    requires a <= b <= c <= |s|
    ensures s[a..b] + s[b..c] + s[c..] == s[a..]
  {
  }

  lemma RejoinOne<T>(ps: seq<Piece<T>>)
    requires ps != [] && ps[0].delimiter.Some?
    ensures Rejoined(ps) == ps[0].text + ps[0].delimiter.value + Rejoined(ps[1..])
  {
  }

  ghost predicate FreeOf<T(!new)>(text: seq<T>, ds: seq<seq<T>>) {
    forall j, q: nat :: 0 <= j < |ds| ==> !OccursAt(text, ds[j], q)
  }

  /** No piece contains a delimiter, and only a last piece with text has none after it. */
  lemma {:induction false} PiecesAreClean<T(!new)>(s: seq<T>, ds: seq<seq<T>>, from: nat, ps: seq<Piece<T>>, i: nat)
    requires NoEmpty(ds) && CutByRule(s, ds, from, ps) && i < |ps|
    ensures FreeOf(ps[i].text, ds)
    ensures ps[i].delimiter.None? ==> i == |ps| - 1 && ps[i].text != []
    decreases |ps|
  {
    if ps[0].delimiter.None? {
      assert s[from..] == s[from..|s|];
      CleanBefore(s, ds, from, |s|);
    } else {
      var cut, next := RuleHead(s, ds, from, ps);
      if i == 0 {
        CleanBefore(s, ds, from, cut.pos);
      } else {
        PiecesAreClean(s, ds, next, ps[1..], i - 1);
      }
    }
  }

  /** What `splitString` promises: its parts hold no delimiter, none is an empty rest after a final
      delimiter, and with the consumed delimiters put back they are the text. */
  lemma SplitKeepsItsPromise<T(!new)>(s: seq<T>, ds: seq<seq<T>>)
    requires NoEmpty(ds)
    ensures var ps := Pieces(s, ds, 0);
            && CutByRule(s, ds, 0, ps) && Rejoined(ps) == s
            && forall i :: 0 <= i < |ps| ==>
                 FreeOf(Texts(ps)[i], ds) && (ps[i].delimiter.None? ==> i == |ps| - 1 && ps[i].text != [])
  {
    var ps := Pieces(s, ds, 0);
    PiecesFollowRule(s, ds, 0);
    RejoinRebuilds(s, ds, 0, ps);
    forall i | 0 <= i < |ps| ensures FreeOf(ps[i].text, ds) && (ps[i].delimiter.None? ==> i == |ps| - 1 && ps[i].text != []) {
      PiecesAreClean(s, ds, 0, ps, i);
    }
  }

  lemma CleanBefore<T(!new)>(s: seq<T>, ds: seq<seq<T>>, from: nat, end: nat)
    requires NoEmpty(ds) && from <= end <= |s|
    requires forall j, q: nat :: 0 <= j < |ds| && from <= q < end ==> !OccursAt(s, ds[j], q)
    ensures FreeOf(s[from..end], ds)
  {
    forall j, q: nat | 0 <= j < |ds| ensures !OccursAt(s[from..end], ds[j], q) {
      InnerOccurs(s, ds[j], from, end, q);
    }
  }

  lemma InnerOccurs<T>(s: seq<T>, w: seq<T>, from: nat, end: nat, q: nat)
    requires from <= end <= |s|
    ensures OccursAt(s[from..end], w, q) ==> OccursAt(s, w, from + q) && from + q + |w| <= end
  {
    if OccursAt(s[from..end], w, q) {
      var p := from + q;
      assert s[p..p + |w|] == s[from..end][q..q + |w|];
    }
  }

  // ----- The method

  method SplitLoop<T(==)>(s: seq<T>, ds: seq<seq<T>>) returns (parts: seq<seq<T>>)
    requires NoEmpty(ds)
    ensures parts == Texts(Pieces(s, ds, 0))
  {
    parts := [];
    var start := 0;
    ghost var all := Pieces(s, ds, 0);
    while start < |s|
      invariant start <= |s| && StillToCut(s, ds, start, all, |parts|)
      invariant forall i :: 0 <= i < |parts| ==> parts[i] == all[i].text
      decreases |s| - start
    {
      var part, next := NextPart(s, ds, start, all, |parts|);
      parts := parts + [part];
      if next.None? {
        return;
      }
      start := next.value;
    }
  }

  /** The parts, with the pieces they are the texts of, in order: the pieces are cut by the rule, they
      rejoin to the text, no part holds a delimiter, and no empty part follows a final delimiter. */
  method SplitString<T(==,!new)>(s: seq<T>, ds: seq<seq<T>>) returns (parts: seq<seq<T>>, ghost ps: seq<Piece<T>>)
    requires NoEmpty(ds)
    ensures parts == Texts(Pieces(s, ds, 0))
    ensures CutByRule(s, ds, 0, ps) && Rejoined(ps) == s
    ensures |parts| == |ps| && forall i :: 0 <= i < |parts| ==> parts[i] == ps[i].text && FreeOf(parts[i], ds)
    ensures forall i :: 0 <= i < |parts| && ps[i].delimiter.None? ==> i == |parts| - 1 && parts[i] != []
  {
    ps := Pieces(s, ds, 0);
    SplitKeepsItsPromise(s, ds);
    parts := SplitLoop(s, ds);
  }

  // ----- Termination

  /** The outer loop run for at most `turns` turns: whether it has ended by then. */
  predicate EndsWithin<T(==)>(s: seq<T>, ds: seq<seq<T>>, from: nat, turns: nat)
    decreases turns
  {
    || from >= |s|
    || match Nearest(s, ds, from, |ds|)
       case None => true
       case Some(cut) => turns > 0 && EndsWithin(s, ds, cut.pos + |ds[cut.which]|, turns - 1)
  }

  /** The letter `t` alone is a delimiter that comes before any empty one. */
  ghost predicate LetterFirst<T>(ds: seq<seq<T>>, t: T, j: nat) {
    j < |ds| && ds[j] == [t] && forall i :: 0 <= i <= j ==> ds[i] != []
  }

  ghost predicate Covered<T>(ds: seq<seq<T>>, t: T) {
    exists j :: LetterFirst(ds, t, j)
  }

  ghost predicate EveryLetterFirst<T(!new)>(ds: seq<seq<T>>) {
    forall t: T :: Covered(ds, t)
  }

  ghost predicate Ends<T>(s: seq<T>, ds: seq<seq<T>>) {
    exists turns: nat :: EndsWithin(s, ds, 0, turns)
  }

  /** For a list of delimiters, the loop ends on every text if and only if no delimiter is empty, or
      every single letter of the alphabet is a delimiter listed before the empty one. */
  lemma SplitEndsIff<T(!new)>(ds: seq<seq<T>>)
    ensures (forall s: seq<T> :: Ends(s, ds)) <==> NoEmpty(ds) || EveryLetterFirst(ds)
  {
    if NoEmpty(ds) || EveryLetterFirst(ds) {
      forall s: seq<T> ensures Ends(s, ds) {
        EndsEventually(s, ds, 0, |s|);
      }
    } else {
      var e: nat :| e < |ds| && ds[e] == [];
      var t :| !Covered(ds, t);
      forall turns: nat ensures !EndsWithin([t], ds, 0, turns) {
        StuckAt(ds, t, e, turns);
      }
      assert !Ends([t], ds);
    }
  }

  lemma {:induction false} EndsEventually<T(!new)>(s: seq<T>, ds: seq<seq<T>>, from: nat, turns: nat)
    requires (NoEmpty(ds) || EveryLetterFirst(ds)) && turns + from >= |s|
    ensures EndsWithin(s, ds, from, turns)
    decreases turns
  {
    if from >= |s| {
    } else {
      NearestIsNearest(s, ds, from, |ds|);
      var found := Nearest(s, ds, from, |ds|);
      if found.Some? {
        NearestMovesOn(s, ds, from, found.value);
        EndsEventually(s, ds, found.value.pos + |ds[found.value.which]|, turns - 1);
      }
    }
  }

  lemma NearestMovesOn<T(!new)>(s: seq<T>, ds: seq<seq<T>>, from: nat, cut: Cut)
    requires (NoEmpty(ds) || EveryLetterFirst(ds)) && from < |s| && IsNearest(s, ds, from, |ds|, cut)
    ensures from < cut.pos + |ds[cut.which]|
  {
    if !NoEmpty(ds) {
      assert Covered(ds, s[from]);
      var j: nat :| LetterFirst(ds, s[from], j);
      assert s[from..from + 1] == [s[from]];
      assert OccursAt(s, ds[j], from);
    }
  }

  lemma EmptyOrLetterWins<T(!new)>(ds: seq<seq<T>>, t: T, e: nat)
    requires e < |ds| && ds[e] == []
    ensures Nearest([t], ds, 0, |ds|).Some?
    ensures var cut := Nearest([t], ds, 0, |ds|).value;
            cut.pos == 0 && (ds[cut.which] == [] || LetterFirst(ds, t, cut.which))
  {
    NearestIsNearest([t], ds, 0, |ds|);
    assert OccursAt([t], ds[e], 0);
    forall i | 0 <= i < |ds| && ds[i] == [] ensures OccursAt([t], ds[i], 0) {
    }
  }

  lemma {:induction false} StuckAt<T(!new)>(ds: seq<seq<T>>, t: T, e: nat, turns: nat)
    requires e < |ds| && ds[e] == [] && !Covered(ds, t)
    ensures !EndsWithin([t], ds, 0, turns)
    decreases turns
  {
    EmptyOrLetterWins(ds, t, e);
    if turns == 0 {
    } else {
      StuckAt(ds, t, e, turns - 1);
    }
  }
}
