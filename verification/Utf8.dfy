/** Searching UTF-8 text byte by byte. In section 3 of RFC 3629 no lead byte is a continuation byte and
    the lead byte tells the length, so a byte search finds exactly what a search by code points finds. */
module Utf8 {
  import opened Bytes
  import opened Substrings

  /** Unicode scalar values. */
  type Scalar = c: int | 0 <= c < 0xD800 || 0xE000 <= c <= 0x10FFFF

  predicate IsContinuation(b: byte) {
    0x80 <= b < 0xC0
  }

  function Tail(c: nat): byte {
    0x80 + c % 64
  }

  function Encode(c: Scalar): seq<byte> {
    if c < 0x80 then [c]
    else if c < 0x800 then [0xC0 + c / 64, Tail(c)]
    else if c < 0x1_0000 then [0xE0 + c / 4096, Tail(c / 64), Tail(c)]
    else [0xF0 + c / 0x4_0000, Tail(c / 4096), Tail(c / 64), Tail(c)]
  }

  /** The length a lead byte announces. */
  function LeadLength(b: byte): nat {
    if b < 0x80 then 1 else if b < 0xE0 then 2 else if b < 0xF0 then 3 else 4
  }

  function EncodeAll(cs: seq<Scalar>): seq<byte> {
    if cs == [] then [] else Encode(cs[0]) + EncodeAll(cs[1..])
  }

  /** Where code point number `k` starts, in bytes. */
  function Offset(cs: seq<Scalar>, k: nat): nat
    requires k <= |cs|
  {
    |EncodeAll(cs[..k])|
  }

  lemma EncodeShape(c: Scalar)
    ensures var e := Encode(c);
            && 1 <= |e| == LeadLength(e[0]) && !IsContinuation(e[0])
            && forall i :: 1 <= i < |e| ==> IsContinuation(e[i])
  {
  }

  function Decode(e: seq<byte>): int
    requires 1 <= |e| <= 4
  {
    match |e|
    case 1 => e[0]
    case 2 => (e[0] as int - 0xC0) * 64 + Low(e[1])
    case 3 => ((e[0] as int - 0xE0) * 64 + Low(e[1])) * 64 + Low(e[2])
    case _ => (((e[0] as int - 0xF0) * 64 + Low(e[1])) * 64 + Low(e[2])) * 64 + Low(e[3])
  }

  function Low(b: byte): int {
    b as int - 0x80
  }

  /** Encoding loses nothing. */
  lemma DecodeEncode(c: Scalar)
    ensures 1 <= |Encode(c)| <= 4 && Decode(Encode(c)) == c
  {
    assert c == c / 64 * 64 + c % 64;
    assert c / 64 == c / 4096 * 64 + c / 64 % 64;
    assert c / 4096 == c / 0x4_0000 * 64 + c / 4096 % 64;
  }

  /** Which lead byte may begin how many bytes, by the table in section 3 of RFC 3629. */
  predicate LeadsTo(b: byte, length: nat) {
    match length
    case 1 => b < 0x80
    case 2 => 0xC0 <= b < 0xE0
    case 3 => 0xE0 <= b < 0xF0
    case 4 => 0xF0 <= b < 0xF8
    case _ => false
  }

  /** A lead byte of the right range, and continuation bytes. */
  predicate WellShaped(e: seq<byte>) {
    && e != [] && LeadsTo(e[0], |e|)
    && forall i :: 1 <= i < |e| ==> IsContinuation(e[i])
  }

  /** The encoding has that shape, and is the shortest of that shape that stands for its code point, and
      the only one that short; so no overlong form is an encoding. */
  lemma EncodeIsShortest(c: Scalar, e: seq<byte>)
    ensures WellShaped(Encode(c))
    ensures WellShaped(e) && Decode(e) == c ==> |Encode(c)| <= |e| && (|e| == |Encode(c)| ==> e == Encode(c))
  {
    if WellShaped(e) && Decode(e) == c {
      SameLength(c, e);
    }
  }

  /** The quotient and the remainder of a number written in base 64. */
  lemma Base64(c: nat, high: nat, low: nat)
    requires c == high * 64 + low && low < 64
    ensures c / 64 == high && c % 64 == low
  {
  }

  lemma SameLength(c: Scalar, e: seq<byte>)
    requires WellShaped(e) && Decode(e) == c
    ensures |Encode(c)| <= |e| && (|e| == |Encode(c)| ==> e == Encode(c))
  {
    match |e|
    case 1 =>
    case 2 => TwoBytes(c, e[0], e[1]);
    case 3 => ThreeBytes(c, e[0], e[1], e[2]);
    case _ => FourBytes(c, e[0], e[1], e[2], e[3]);
  }

  lemma TwoBytes(c: Scalar, a: byte, x: byte)
    requires LeadsTo(a, 2) && IsContinuation(x) && c == (a as int - 0xC0) * 64 + Low(x)
    ensures |Encode(c)| <= 2 && (|Encode(c)| == 2 ==> Encode(c) == [a, x])
  {
    Base64(c, a as int - 0xC0, Low(x));
  }

  lemma ThreeBytes(c: Scalar, a: byte, x: byte, y: byte)
    requires LeadsTo(a, 3) && IsContinuation(x) && IsContinuation(y)
    requires c == ((a as int - 0xE0) * 64 + Low(x)) * 64 + Low(y)
    ensures |Encode(c)| <= 3 && (|Encode(c)| == 3 ==> Encode(c) == [a, x, y])
  {
    var high := (a as int - 0xE0) * 64 + Low(x);
    Base64(c, high, Low(y));
    Base64(high, a as int - 0xE0, Low(x));
    assert c / 4096 == c / 64 / 64;
  }

  lemma FourBytes(c: Scalar, a: byte, x: byte, y: byte, z: byte)
    requires LeadsTo(a, 4) && IsContinuation(x) && IsContinuation(y) && IsContinuation(z)
    requires c == (((a as int - 0xF0) * 64 + Low(x)) * 64 + Low(y)) * 64 + Low(z)
    ensures |Encode(c)| == 4 ==> Encode(c) == [a, x, y, z]
  {
    var top := (a as int - 0xF0) * 64 + Low(x);
    var high := top * 64 + Low(y);
    Base64(c, high, Low(z));
    Base64(high, top, Low(y));
    Base64(top, a as int - 0xF0, Low(x));
    assert c / 4096 == c / 64 / 64 && c / 0x4_0000 == c / 4096 / 64;
  }

  lemma {:induction false} EncodeAllAppend(a: seq<Scalar>, b: seq<Scalar>)
    ensures EncodeAll(a + b) == EncodeAll(a) + EncodeAll(b)
  {
    if a == [] {
      assert a + b == b;
    } else {
      assert (a + b)[1..] == a[1..] + b;
      EncodeAllAppend(a[1..], b);
    }
  }

  lemma EncodeAllSplit(cs: seq<Scalar>, k: nat)
    requires k <= |cs|
    ensures EncodeAll(cs) == EncodeAll(cs[..k]) + EncodeAll(cs[k..])
  {
    assert cs == cs[..k] + cs[k..];
    EncodeAllAppend(cs[..k], cs[k..]);
  }

  lemma EncodeAllNotEmpty(cs: seq<Scalar>)
    requires cs != []
    ensures EncodeAll(cs) != [] && !IsContinuation(EncodeAll(cs)[0])
  {
    EncodeShape(cs[0]);
  }

  /** Prefixes decode to prefixes. */
  lemma {:induction false} PrefixDecodes(w: seq<Scalar>, s: seq<Scalar>)
    requires EncodeAll(w) <= EncodeAll(s)
    ensures w <= s
  {
    if w == [] {
    } else {
      EncodeAllNotEmpty(w);
      assert s != [];
      var x, y := Encode(w[0]), Encode(s[0]);
      EncodeShape(w[0]);
      EncodeShape(s[0]);
      assert x[0] == EncodeAll(w)[0] == EncodeAll(s)[0] == y[0];
      assert x == EncodeAll(w)[..|x|] == EncodeAll(s)[..|x|] == y;
      DecodeEncode(w[0]);
      DecodeEncode(s[0]);
      assert EncodeAll(w[1..]) == EncodeAll(w)[|x|..] && EncodeAll(s[1..]) == EncodeAll(s)[|x|..];
      PrefixDecodes(w[1..], s[1..]);
      assert w == [w[0]] + w[1..] && s == [s[0]] + s[1..];
    }
  }

  /** Self-synchronisation: only the start of a code point is not a continuation byte. */
  lemma {:induction false} LeadIsBoundary(s: seq<Scalar>, p: nat) returns (k: nat)
    requires p < |EncodeAll(s)| && !IsContinuation(EncodeAll(s)[p])
    ensures k < |s| && p == Offset(s, k)
  {
    var n := |Encode(s[0])|;
    EncodeShape(s[0]);
    if p < n {
      k := 0;
    } else {
      assert EncodeAll(s)[p] == EncodeAll(s[1..])[p - n];
      var j := LeadIsBoundary(s[1..], p - n);
      k := j + 1;
      assert s[..k][1..] == s[1..][..j];
    }
  }

  lemma MatchFromBoundary(s: seq<Scalar>, w: seq<Scalar>, k: nat)
    requires k <= |s| && OccursAt(EncodeAll(s), EncodeAll(w), Offset(s, k))
    ensures OccursAt(s, w, k)
  {
    var text, word, p := EncodeAll(s), EncodeAll(w), Offset(s, k);
    EncodeAllSplit(s, k);
    assert EncodeAll(s[k..]) == text[p..];
    assert word == text[p..][..|word|];
    PrefixDecodes(w, s[k..]);
    assert s[k..k + |w|] == s[k..][..|w|];
  }

  /** A match of the bytes starts and ends on code point boundaries and is a match of the code points. */
  lemma ByteMatchIsAligned(s: seq<Scalar>, w: seq<Scalar>, p: nat) returns (k: nat)
    requires w != [] && OccursAt(EncodeAll(s), EncodeAll(w), p)
    ensures k + |w| <= |s| && OccursAt(s, w, k) && p == Offset(s, k) && p + |EncodeAll(w)| == Offset(s, k + |w|)
  {
    EncodeAllNotEmpty(w);
    assert EncodeAll(s)[p] == EncodeAll(w)[0];
    k := LeadIsBoundary(s, p);
    MatchFromBoundary(s, w, k);
    ScalarMatchIsByteMatch(s, w, k);
  }

  lemma OccursBetween<T>(a: seq<T>, w: seq<T>, c: seq<T>)
    ensures OccursAt(a + w + c, w, |a|)
  {
  }

  lemma ScalarMatchIsByteMatch(s: seq<Scalar>, w: seq<Scalar>, k: nat)
    requires OccursAt(s, w, k)
    ensures OccursAt(EncodeAll(s), EncodeAll(w), Offset(s, k))
    ensures Offset(s, k) + |EncodeAll(w)| == Offset(s, k + |w|)
  {
    var a, c := s[..k], s[k + |w|..];
    assert s[..k + |w|] == a + w && s == a + w + c;
    EncodeAllAppend(a, w);
    EncodeAllAppend(a + w, c);
    OccursBetween(EncodeAll(a), EncodeAll(w), EncodeAll(c));
  }

  lemma OffsetsIncrease(s: seq<Scalar>, j: nat, k: nat)
    requires j < k <= |s|
    ensures Offset(s, j) < Offset(s, k)
  {
    assert s[..k][..j] == s[..j];
    EncodeAllSplit(s[..k], j);
    EncodeAllNotEmpty(s[..k][j..]);
  }

  lemma OffsetsCompare(s: seq<Scalar>, j: nat, k: nat)
    requires j <= |s| && k <= |s|
    ensures Offset(s, j) < Offset(s, k) <==> j < k
  {
    if j < k { OffsetsIncrease(s, j, k); }
    if k < j { OffsetsIncrease(s, k, j); }
  }

  /** The byte positions `ps` are where the code points number `ks` start. */
  ghost predicate AreOffsets(s: seq<Scalar>, ks: seq<nat>, ps: seq<nat>) {
    |ks| == |ps| && forall i :: 0 <= i < |ks| ==> ks[i] <= |s| && ps[i] == Offset(s, ks[i])
  }

  lemma AreOffsetsCons(s: seq<Scalar>, k: nat, p: nat, ks: seq<nat>, ps: seq<nat>, allKs: seq<nat>, allPs: seq<nat>)
    requires AreOffsets(s, ks, ps) && k <= |s| && p == Offset(s, k) && allKs == [k] + ks && allPs == [p] + ps
    ensures AreOffsets(s, allKs, allPs)
  {
  }

  lemma NoMatchSkipped<T(!new)>(s: seq<T>, w: seq<T>, from: nat, p: nat)
    requires from <= p && match Find(s, w, from) case None => true case Some(q) => p < q
    ensures !OccursAt(s, w, p)
  {
    FindIsFirst(s, w, from);
  }

  lemma FoundOccurs<T(!new)>(s: seq<T>, w: seq<T>, from: nat)
    ensures match Find(s, w, from) case None => true case Some(q) => OccursAt(s, w, q)
  {
    FindIsFirst(s, w, from);
  }

  /** A byte match at or after code point `k` that is not one the search by code points would stop at. */
  lemma NoEarlierByteMatch(s: seq<Scalar>, w: seq<Scalar>, k: nat, p: nat)
    requires w != [] && k <= |s| && Offset(s, k) <= p
    requires match Find(s, w, k) case None => true case Some(q) => p < Offset(s, q)
    ensures !OccursAt(EncodeAll(s), EncodeAll(w), p)
  {
    if OccursAt(EncodeAll(s), EncodeAll(w), p) {
      var j := ByteMatchIsAligned(s, w, p);
      OffsetsCompare(s, j, k);
      match Find(s, w, k) {
        case None =>
        case Some(q) => OffsetsCompare(s, j, q);
      }
      NoMatchSkipped(s, w, k, j);
      assert false;
    }
  }

  lemma FindAlignedNone(s: seq<Scalar>, w: seq<Scalar>, k: nat)
    requires w != [] && k <= |s| && Find(s, w, k) == None
    ensures Find(EncodeAll(s), EncodeAll(w), Offset(s, k)) == None
  {
    forall p | Offset(s, k) <= p ensures !OccursAt(EncodeAll(s), EncodeAll(w), p) {
      NoEarlierByteMatch(s, w, k, p);
    }
    FindIs(EncodeAll(s), EncodeAll(w), Offset(s, k), None);
  }

  lemma FindAlignedSome(s: seq<Scalar>, w: seq<Scalar>, k: nat, q: nat)
    requires w != [] && k <= |s| && Find(s, w, k) == Some(q)
    ensures k <= q && q + |w| <= |s| && Offset(s, q) + |EncodeAll(w)| == Offset(s, q + |w|)
    ensures Find(EncodeAll(s), EncodeAll(w), Offset(s, k)) == Some(Offset(s, q))
  {
    FoundOccurs(s, w, k);
    ScalarMatchIsByteMatch(s, w, q);
    OffsetsCompare(s, q, k);
    forall p | Offset(s, k) <= p < Offset(s, q) ensures !OccursAt(EncodeAll(s), EncodeAll(w), p) {
      NoEarlierByteMatch(s, w, k, p);
    }
    FindIs(EncodeAll(s), EncodeAll(w), Offset(s, k), Some(Offset(s, q)));
  }

  lemma ScanNone<T>(s: seq<T>, w: seq<T>, from: nat)
    requires w != [] && Find(s, w, from) == None
    ensures Scan(s, w, from) == []
  {
  }

  lemma ScanSome<T>(s: seq<T>, w: seq<T>, from: nat, p: nat, next: nat)
    requires w != [] && Find(s, w, from) == Some(p) && next == p + |w|
    ensures Scan(s, w, from) == [p] + Scan(s, w, next)
  {
  }

  /** From code point `k` on, the byte scan reports the offsets of what the code point scan reports. */
  ghost predicate ScansAlike(s: seq<Scalar>, w: seq<Scalar>, k: nat) {
    && w != [] && EncodeAll(w) != [] && k <= |s|
    && AreOffsets(s, Scan(s, w, k), Scan(EncodeAll(s), EncodeAll(w), Offset(s, k)))
  }

  lemma ScansAlikeNone(s: seq<Scalar>, w: seq<Scalar>, k: nat)
    requires w != [] && EncodeAll(w) != [] && k <= |s| && Find(s, w, k) == None
    ensures ScansAlike(s, w, k)
  {
    FindAlignedNone(s, w, k);
    ScanNone(s, w, k);
    ScanNone(EncodeAll(s), EncodeAll(w), Offset(s, k));
  }

  lemma ScansAlikeSome(s: seq<Scalar>, w: seq<Scalar>, k: nat, q: nat)
    requires w != [] && k <= |s| && Find(s, w, k) == Some(q) && ScansAlike(s, w, q + |w|)
    ensures ScansAlike(s, w, k)
  {
    var text, word, from := EncodeAll(s), EncodeAll(w), Offset(s, k);
    var p, next := Offset(s, q), Offset(s, q + |w|);
    FindAlignedSome(s, w, k, q);
    ScanSome(s, w, k, q, q + |w|);
    ScanSome(text, word, from, p, next);
    AreOffsetsCons(s, q, p, Scan(s, w, q + |w|), Scan(text, word, next), Scan(s, w, k), Scan(text, word, from));
  }

  /** The byte scan of UTF-8 text reports exactly what a scan by code points reports. */
  lemma {:induction false} ScanAligned(s: seq<Scalar>, w: seq<Scalar>, k: nat)
    requires w != [] && k <= |s|
    ensures ScansAlike(s, w, k)
    decreases |s| + 1 - k
  {
    EncodeAllNotEmpty(w);
    match Find(s, w, k)
    case None => ScansAlikeNone(s, w, k);
    case Some(q) =>
      ScanAligned(s, w, q + |w|);
      ScansAlikeSome(s, w, k, q);
  }

  // ----- White space

  function StripScalars(cs: seq<Scalar>): seq<Scalar> {
    if cs == [] then []
    else
      var n := |cs| - 1;
      StripScalars(cs[..n]) + if IsSpace(cs[n]) then [] else [cs[n]]
  }

  /** Dropping white space byte by byte drops exactly the white space code points. */
  lemma {:induction false} StripAligned(cs: seq<Scalar>)
    ensures Strip(EncodeAll(cs)) == EncodeAll(StripScalars(cs))
  {
    if cs == [] {
    } else {
      var n := |cs| - 1;
      var last := [cs[n]];
      assert cs == cs[..n] + last;
      EncodeAllAppend(cs[..n], last);
      StripAppend(EncodeAll(cs[..n]), EncodeAll(last));
      StripAligned(cs[..n]);
      assert EncodeAll(last) == Encode(cs[n]);
      StripOne(cs[n]);
      EncodeAllAppend(StripScalars(cs[..n]), if IsSpace(cs[n]) then [] else last);
    }
  }

  lemma StripOne(c: Scalar)
    ensures Strip(Encode(c)) == if IsSpace(c) then [] else Encode(c)
  {
    var e := Encode(c);
    if c < 0x80 {
      assert e[..0] == [];
    } else {
      StripKeeps(e);
    }
  }

  lemma {:induction false} StripKeeps(s: seq<byte>)
    requires forall b :: b in s ==> !IsSpace(b)
    ensures Strip(s) == s
  {
    if s == [] {
    } else {
      var n := |s| - 1;
      StripKeeps(s[..n]);
      assert s == s[..n] + [s[n]];
    }
  }

  /** End to end for the blacklist: after white space has been dropped, the byte scan of a UTF-8
      sentence for a UTF-8 word reports exactly the code point scan's positions. */
  lemma StrippedScanAligned(sentence: seq<Scalar>, word: seq<Scalar>)
    requires word != []
    ensures EncodeAll(word) != []
    ensures var s := StripScalars(sentence);
            AreOffsets(s, Scan(s, word, 0), Scan(Strip(EncodeAll(sentence)), EncodeAll(word), 0))
  {
    StripAligned(sentence);
    ScanAligned(StripScalars(sentence), word, 0);
  }
}
