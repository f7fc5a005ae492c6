/** Cutting UTF-8 text at UTF-8 delimiters byte by byte is cutting it code point by code point, so no
    part ever starts or ends inside a code point. */
module SplitterUtf8 {
  import opened Bytes
  import opened Substrings
  import opened Utf8
  import opened Splitter

  function EncodeEach(xs: seq<seq<Scalar>>): (r: seq<seq<byte>>)
    ensures |r| == |xs|
  {
    seq(|xs|, i requires 0 <= i < |xs| => EncodeAll(xs[i]))
  }

  function EncodePiece(p: Piece<Scalar>): Piece<byte> {
    Piece(EncodeAll(p.text), if p.delimiter.Some? then Some(EncodeAll(p.delimiter.value)) else None)
  }

  function EncodePieces(ps: seq<Piece<Scalar>>): (r: seq<Piece<byte>>)
    ensures |r| == |ps|
  {
    seq(|ps|, i requires 0 <= i < |ps| => EncodePiece(ps[i]))
  }

  lemma EncodePiecesHead(ps: seq<Piece<Scalar>>)
    requires ps != []
    ensures EncodePieces(ps) == [EncodePiece(ps[0])] + EncodePieces(ps[1..])
  {
  }

  lemma EncodedNotEmpty(ds: seq<seq<Scalar>>)
    requires NoEmpty(ds)
    ensures NoEmpty(EncodeEach(ds))
  {
    forall i | 0 <= i < |ds| ensures EncodeEach(ds)[i] != [] {
      EncodeAllNotEmpty(ds[i]);
    }
  }

  /** Any match of the bytes is a match of the code points, at the corresponding place. */
  lemma ByteMatchBetween(s: seq<Scalar>, d: seq<Scalar>, k: nat, p: nat) returns (i: nat)
    requires d != [] && k <= |s| && Offset(s, k) <= p && OccursAt(EncodeAll(s), EncodeAll(d), p)
    ensures k <= i <= |s| && OccursAt(s, d, i) && Offset(s, i) == p
  {
    i := ByteMatchIsAligned(s, d, p);
    OffsetsCompare(s, i, k);
  }

  lemma NoneAligned(s: seq<Scalar>, ds: seq<seq<Scalar>>, k: nat)
    requires NoEmpty(ds) && k <= |s| && NoneLeft(s, ds, k, |ds|)
    ensures NoneLeft(EncodeAll(s), EncodeEach(ds), Offset(s, k), |ds|)
  {
    forall j, p: nat | 0 <= j < |ds| && Offset(s, k) <= p ensures !OccursAt(EncodeAll(s), EncodeEach(ds)[j], p) {
      if OccursAt(EncodeAll(s), EncodeAll(ds[j]), p) {
        var i := ByteMatchBetween(s, ds[j], k, p);
        assert false;
      }
    }
  }

  lemma NoMatchBefore(s: seq<Scalar>, d: seq<Scalar>, k: nat, pos: nat, p: nat)
    requires d != [] && k <= pos <= |s| && forall i :: k <= i < pos ==> !OccursAt(s, d, i)
    requires Offset(s, k) <= p < Offset(s, pos)
    ensures !OccursAt(EncodeAll(s), EncodeAll(d), p)
  {
    if OccursAt(EncodeAll(s), EncodeAll(d), p) {
      var i := ByteMatchBetween(s, d, k, p);
      OffsetsCompare(s, i, pos);
      assert false;
    }
  }

  lemma NoMatchAt(s: seq<Scalar>, d: seq<Scalar>, pos: nat)
    requires d != [] && pos <= |s| && !OccursAt(s, d, pos)
    ensures !OccursAt(EncodeAll(s), EncodeAll(d), Offset(s, pos))
  {
    if OccursAt(EncodeAll(s), EncodeAll(d), Offset(s, pos)) {
      var i := ByteMatchBetween(s, d, pos, Offset(s, pos));
      OffsetsCompare(s, pos, i);
      assert false;
    }
  }

  lemma CutAligned(s: seq<Scalar>, ds: seq<seq<Scalar>>, k: nat, cut: Cut)
    requires NoEmpty(ds) && k <= |s| && cut.pos <= |s| && IsNearest(s, ds, k, |ds|, cut)
    ensures IsNearest(EncodeAll(s), EncodeEach(ds), Offset(s, k), |ds|, Cut(Offset(s, cut.pos), cut.which))
  {
    ScalarMatchIsByteMatch(s, ds[cut.which], cut.pos);
    OffsetsCompare(s, cut.pos, k);
    forall j, p: nat | 0 <= j < |ds| && Offset(s, k) <= p < Offset(s, cut.pos)
      ensures !OccursAt(EncodeAll(s), EncodeEach(ds)[j], p)
    {
      NoMatchBefore(s, ds[j], k, cut.pos, p);
    }
    forall j | 0 <= j < cut.which ensures !OccursAt(EncodeAll(s), EncodeEach(ds)[j], Offset(s, cut.pos)) {
      NoMatchAt(s, ds[j], cut.pos);
    }
  }

  lemma SliceAligned(s: seq<Scalar>, j: nat, k: nat)
    requires j <= k <= |s|
    ensures Offset(s, j) <= Offset(s, k) <= |EncodeAll(s)|
    ensures EncodeAll(s)[Offset(s, j)..Offset(s, k)] == EncodeAll(s[j..k])
    ensures Offset(s, k) == Offset(s, j) + |EncodeAll(s[j..k])|
  {
    EncodeAllSplit(s, k);
    EncodeAllSplit(s[..k], j);
    assert s[..k][..j] == s[..j] && s[..k][j..] == s[j..k];
  }

  lemma NextOffset(s: seq<Scalar>, ds: seq<seq<Scalar>>, k: nat, piece: Piece<Scalar>, cut: Cut, next: nat)
    requires k <= |s| && CutsAt(s, ds, k, piece, cut) && next == cut.pos + |piece.delimiter.value|
    ensures next <= |s| && Offset(s, cut.pos) + |EncodePiece(piece).delimiter.value| == Offset(s, next)
  {
    ScalarMatchIsByteMatch(s, piece.delimiter.value, cut.pos);
  }

  lemma NotAtEnd(s: seq<Scalar>, k: nat)
    requires k <= |s|
    ensures Offset(s, k) < |EncodeAll(s)| <==> k < |s|
  {
    OffsetsCompare(s, k, |s|);
    assert s[..|s|] == s;
  }

  /** A piece that ends at a cut does so in bytes too, and the next one starts at the corresponding place. */
  lemma CutPieceAligned(s: seq<Scalar>, ds: seq<seq<Scalar>>, k: nat, piece: Piece<Scalar>, cut: Cut)
    requires NoEmpty(ds) && k <= |s| && CutsAt(s, ds, k, piece, cut)
    ensures CutsAt(EncodeAll(s), EncodeEach(ds), Offset(s, k), EncodePiece(piece), Cut(Offset(s, cut.pos), cut.which))
  {
    CutAligned(s, ds, k, cut);
    SliceAligned(s, k, cut.pos);
    CutsThere(EncodeAll(s), EncodeEach(ds), Offset(s, k), |ds|, EncodePiece(piece), Cut(Offset(s, cut.pos), cut.which));
  }

  lemma LastPieceAligned(s: seq<Scalar>, ds: seq<seq<Scalar>>, k: nat)
    requires NoEmpty(ds) && k < |s| && NoneLeft(s, ds, k, |ds|)
    ensures CutByRule(EncodeAll(s), EncodeEach(ds), Offset(s, k), [Piece(EncodeAll(s[k..]), None)])
  {
    NoneAligned(s, ds, k);
    NotAtEnd(s, k);
    EncodeAllSplit(s, k);
    RuleLast(EncodeAll(s), EncodeEach(ds), Offset(s, k));
  }

  /** Pieces cut by the rule in code points are, encoded, cut by the rule in bytes. */
  lemma {:induction false} RuleAligned(s: seq<Scalar>, ds: seq<seq<Scalar>>, k: nat, ps: seq<Piece<Scalar>>)
    requires NoEmpty(ds) && k <= |s| && CutByRule(s, ds, k, ps)
    ensures CutByRule(EncodeAll(s), EncodeEach(ds), Offset(s, k), EncodePieces(ps))
    decreases |ps|
  {
    NotAtEnd(s, k);
    if ps == [] {
    } else if ps[0].delimiter.Some? {
      var cut, next := RuleHead(s, ds, k, ps);
      NextOffset(s, ds, k, ps[0], cut, next);
      CutPieceAligned(s, ds, k, ps[0], cut);
      RuleAligned(s, ds, next, ps[1..]);
      EncodePiecesHead(ps);
      RuleCons(EncodeAll(s), EncodeEach(ds), Offset(s, k), Cut(Offset(s, cut.pos), cut.which), Offset(s, next),
               EncodePiece(ps[0]), EncodePieces(ps[1..]), EncodePieces(ps));
    } else {
      LastPieceAligned(s, ds, k);
      assert EncodePieces(ps) == [Piece(EncodeAll(s[k..]), None)];
    }
  }

  /** `splitString` on UTF-8: its parts are the encodings of the code point parts. */
  lemma SplitAligned(s: seq<Scalar>, ds: seq<seq<Scalar>>)
    requires NoEmpty(ds)
    ensures NoEmpty(EncodeEach(ds))
    ensures Texts(Pieces(EncodeAll(s), EncodeEach(ds), 0)) == EncodeEach(Texts(Pieces(s, ds, 0)))
  {
    EncodedNotEmpty(ds);
    PiecesFollowRule(s, ds, 0);
    RuleAligned(s, ds, 0, Pieces(s, ds, 0));
    RuleDetermines(EncodeAll(s), EncodeEach(ds), 0, EncodePieces(Pieces(s, ds, 0)));
  }
}
