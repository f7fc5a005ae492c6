/** Looking a recognised sentence up in the blacklist: which words occur, and when they were spoken. */
module Blacklist {
  import opened Bytes
  import opened Substrings
  import opened WordTimes

  datatype AudioSegment = AudioSegment(start: int, end: int, text: seq<byte>)

  ghost predicate NoEmptyWord(order: seq<seq<byte>>) {
    forall i :: 0 <= i < |order| ==> order[i] != []
  }

  function SegmentAt(words: seq<Word>, w: seq<byte>, p: nat): AudioSegment
    requires w != []
  {
    var span := SpanOf(words, p, p + |w|);
    AudioSegment(span.start, span.end, w)
  }

  function SegmentsAt(words: seq<Word>, w: seq<byte>, ps: seq<nat>): seq<AudioSegment>
    requires w != []
  {
    seq(|ps|, i requires 0 <= i < |ps| => SegmentAt(words, w, ps[i]))
  }

  /** All hits, for the dictionary words in the order in which the hash table yields them. */
  ghost function Hits(text: seq<byte>, words: seq<Word>, order: seq<seq<byte>>): seq<AudioSegment>
    requires NoEmptyWord(order)
  {
    if order == [] then []
    else
      var n := |order| - 1;
      Hits(text, words, order[..n]) + SegmentsAt(words, order[n], Scan(text, order[n], 0))
  }

  /** `hitDict`: its loops end because no dictionary word is empty. */
  method HitDict(sentence: seq<byte>, words: seq<Word>, order: seq<seq<byte>>) returns (out: seq<AudioSegment>)
    requires NoEmptyWord(order)
    ensures out == Hits(Strip(sentence), words, order)
  {
    out := [];
    var text := RemoveSpaces(sentence);
    var i := 0;
    while i < |order|
      invariant i <= |order| && out == Hits(text, words, order[..i])
    {
      assert order[..i + 1][..i] == order[..i];
      var found := ScanWord(text, words, order[i]);
      out := out + found;
      i := i + 1;
    }
    assert order[..i] == order;
  }

  /** The first `n` positions of the whole scan have been reported, and what it reports from there on is
      what is still to be found. */
  ghost predicate Reported(text: seq<byte>, words: seq<Word>, w: seq<byte>, from: nat, all: seq<nat>, out: seq<AudioSegment>) {
    && w != [] && |out| <= |all| && Scan(text, w, from) == all[|out|..]
    && out == SegmentsAt(words, w, all[..|out|])
  }

  lemma SegmentsUpTo(words: seq<Word>, w: seq<byte>, ps: seq<nat>, n: nat)
    requires w != [] && n < |ps|
    ensures SegmentsAt(words, w, ps[..n + 1]) == SegmentsAt(words, w, ps[..n]) + [SegmentAt(words, w, ps[n])]
  {
  }

  lemma ScanMovesOn(text: seq<byte>, w: seq<byte>, from: nat, all: seq<nat>, n: nat)
    requires w != [] && n <= |all| && Scan(text, w, from) == all[n..]
    ensures match Find(text, w, from)
            case None => n == |all|
            case Some(p) => n < |all| && all[n] == p && Scan(text, w, p + |w|) == all[n + 1..]
  {
    if Find(text, w, from).Some? {
      ScanUnfolds(text, w, from);
      assert all[n + 1..] == all[n..][1..];
    }
  }

  /** One turn of the search loop: `tmp.find(word, end_pos)`, and the segment of what it finds. */
  method ReportNext(text: seq<byte>, words: seq<Word>, w: seq<byte>, from: nat, ghost all: seq<nat>, out: seq<AudioSegment>)
      returns (next: Option<nat>, more: seq<AudioSegment>)
    requires Reported(text, words, w, from, all, out)
    ensures match next
            case None => more == out && |out| == |all|
            case Some(endPos) => from < endPos <= |text| && Reported(text, words, w, endPos, all, more)
  {
    ScanMovesOn(text, w, from, all, |out|);
    var found := Find(text, w, from);
    if found.None? { return None, out; }
    var pos, endPos := found.value, found.value + |w|;
    SegmentsUpTo(words, w, all, |out|);
    var span := Walk(words, pos, endPos);
    next, more := Some(endPos), out + [AudioSegment(span.start, span.end, w)];
  }

  /** The search loop for one word. */
  method ScanWord(text: seq<byte>, words: seq<Word>, w: seq<byte>) returns (out: seq<AudioSegment>)
    requires w != []
    ensures out == SegmentsAt(words, w, Scan(text, w, 0))
  {
    out := [];
    var endPos := 0;
    ghost var all := Scan(text, w, 0);
    while true
      invariant Reported(text, words, w, endPos, all, out)
      decreases |text| + 1 - endPos
    {
      var next;
      next, out := ReportNext(text, words, w, endPos, all, out);
      if next.None? { break; }
      endPos := next.value;
    }
    assert all[..|out|] == all;
  }

  /** A hit reports an occurrence of one of the words. */
  ghost predicate Reports(seg: AudioSegment, text: seq<byte>, words: seq<Word>, w: seq<byte>, p: nat) {
    w != [] && p in Scan(text, w, 0) && seg == SegmentAt(words, w, p)
  }

  lemma SegmentIff(words: seq<Word>, w: seq<byte>, ps: seq<nat>, seg: AudioSegment)
    requires w != []
    ensures seg in SegmentsAt(words, w, ps) <==> exists p :: p in ps && seg == SegmentAt(words, w, p)
  {
    if seg in SegmentsAt(words, w, ps) {
      var i :| 0 <= i < |ps| && SegmentsAt(words, w, ps)[i] == seg;
      assert ps[i] in ps;
    }
    if p :| p in ps && seg == SegmentAt(words, w, p) {
      var i :| 0 <= i < |ps| && ps[i] == p;
      assert SegmentsAt(words, w, ps)[i] == seg;
    }
  }

  /** The hits are exactly the reported occurrences of the dictionary's words. */
  lemma {:induction false} HitIff(text: seq<byte>, words: seq<Word>, order: seq<seq<byte>>, seg: AudioSegment)
    requires NoEmptyWord(order)
    ensures seg in Hits(text, words, order) <==> exists w, p :: w in order && Reports(seg, text, words, w, p)
  {
    if order == [] {
    } else {
      var n := |order| - 1;
      var before, last := order[..n], order[n];
      assert order == before + [last];
      HitIff(text, words, before, seg);
      SegmentIff(words, last, Scan(text, last, 0), seg);
      if p :| p in Scan(text, last, 0) && seg == SegmentAt(words, last, p) {
        assert Reports(seg, text, words, last, p);
      }
      if w, p :| w in before && Reports(seg, text, words, w, p) {
        assert w in order;
      }
    }
  }

  /** Neither the order in which the words are enumerated nor repetitions change which hits there are. */
  lemma OrderIrrelevant(text: seq<byte>, words: seq<Word>, one: seq<seq<byte>>, other: seq<seq<byte>>)
    requires NoEmptyWord(one) && NoEmptyWord(other) && forall w :: w in one <==> w in other
    ensures forall seg :: seg in Hits(text, words, one) <==> seg in Hits(text, words, other)
  {
    forall seg ensures seg in Hits(text, words, one) <==> seg in Hits(text, words, other) {
      HitIff(text, words, one, seg);
      HitIff(text, words, other, seg);
    }
  }

  /** When the word list spells the sentence, the time span of a hit contains every word it touches. */
  lemma HitContainsWord(text: seq<byte>, words: seq<Word>, w: seq<byte>, at: nat, j: nat)
    requires Joined(words) == text && Ordered(words) && w != [] && at in Scan(text, w, 0)
    requires Meets(words, j, at, at + |w|)
    ensures var hit := SegmentAt(words, w, at);
            j < |words| && hit.start <= words[j].startTime && words[j].endTime <= hit.end
  {
    ScanMember(text, w, at);
    SpanContains(words, at, at + |w|, j);
  }

  /** The time span of a hit, whatever the word list: from the start of the last word that starts by the
      hit's first byte to the end of the last one that starts by its last byte. */
  lemma SegmentEnds(words: seq<Word>, w: seq<byte>, at: nat, a: nat, b: nat)
    requires w != [] && LastUpTo(words, at, a) && LastUpTo(words, at + |w| - 1, b)
    ensures SegmentAt(words, w, at) == AudioSegment(words[a].startTime, words[b].endTime, w)
  {
    LastIsUnique(words, at, a);
    LastIsUnique(words, at + |w| - 1, b);
  }

  /** When the word list spells the sentence these are the words holding the hit's first and last byte. */
  lemma SegmentHolds(text: seq<byte>, words: seq<Word>, w: seq<byte>, at: nat) returns (a: nat, b: nat)
    requires Joined(words) == text && w != [] && at in Scan(text, w, 0)
    ensures Holds(words, a, at) && Holds(words, b, at + |w| - 1) && a <= b
    ensures SegmentAt(words, w, at) == AudioSegment(words[a].startTime, words[b].endTime, w)
  {
    ScanMember(text, w, at);
    a, b := SpanEnds(words, at, at + |w|);
  }

  /** And with ordered times the segment is exact: it contains the time of every word the hit touches, and
      every other word with text lies entirely outside it. */
  lemma SegmentIsExact(text: seq<byte>, words: seq<Word>, w: seq<byte>, at: nat, j: nat)
    requires Joined(words) == text && Ordered(words) && w != [] && at in Scan(text, w, 0)
    requires j < |words| && words[j].text != []
    ensures var hit := SegmentAt(words, w, at);
            && hit.text == w
            && if Meets(words, j, at, at + |w|) then hit.start <= words[j].startTime && words[j].endTime <= hit.end
               else words[j].endTime <= hit.start || hit.end <= words[j].startTime
  {
    ScanMember(text, w, at);
    SpanIsExact(words, at, at + |w|, j);
  }

  /** A word with white space in it is never hit: the sentence has none left. */
  lemma SpacedWordNeverHit(sentence: seq<byte>, w: seq<byte>, i: nat)
    requires i < |w| && IsSpace(w[i])
    ensures Scan(Strip(sentence), w, 0) == []
  {
    var text := Strip(sentence);
    StripHasNoSpace(sentence);
    forall p: nat ensures !OccursAt(text, w, p) {
      if p + |w| <= |text| {
        assert text[p + i] in text;
        assert text[p..p + |w|][i] == text[p + i];
      }
    }
    FindIs(text, w, 0, None);
  }
}
