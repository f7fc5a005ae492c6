/** The blacklist: one word a line. */
module BlacklistFile {
  import opened Bytes
  import opened Substrings

  const NEWLINE: byte := 10

  /** The lines `std::getline` yields from position `at` on: what follows the last newline counts as a
      line only if it is not empty. */
  function LinesFrom(file: seq<byte>, at: nat): seq<seq<byte>>
    decreases |file| - at
  {
    if at >= |file| then []
    else
      match Find(file, [NEWLINE], at)
      case None => [file[at..]]
      case Some(p) => [file[at..p]] + LinesFrom(file, p + 1)
  }

  function Lines(file: seq<byte>): seq<seq<byte>> {
    LinesFrom(file, 0)
  }

  /** A file holding the given lines, each ended by a newline. */
  function Unlines(lines: seq<seq<byte>>): seq<byte> {
    if lines == [] then [] else lines[0] + [10] + Unlines(lines[1..])
  }

  ghost predicate IsLine(line: seq<byte>) {
    10 !in line
  }

  lemma LinesUnfold(file: seq<byte>, at: nat)
    requires at < |file|
    ensures var found := Find(file, [NEWLINE], at);
            LinesFrom(file, at) == if found.None? then [file[at..]]
                                   else [file[at..found.value]] + LinesFrom(file, found.value + 1)
  {
  }

  lemma NewlineAt(file: seq<byte>, p: nat)
    ensures OccursAt(file, [NEWLINE], p) <==> p < |file| && file[p] == NEWLINE
  {
    if p < |file| { assert file[p..p + 1] == [file[p]]; }
  }

  lemma LineAt(file: seq<byte>, at: nat, p: nat)
    requires at <= p < |file| && file[p] == NEWLINE && IsLine(file[at..p])
    ensures LinesFrom(file, at) == [file[at..p]] + LinesFrom(file, p + 1)
  {
    NewlineAt(file, p);
    forall q | at <= q < p ensures !OccursAt(file, [NEWLINE], q) {
      NewlineAt(file, q);
      assert file[q] == file[at..p][q - at];
    }
    FindIs(file, [NEWLINE], at, Some(p));
    LinesUnfold(file, at);
  }

  lemma FirstLine(file: seq<byte>, at: nat, line: seq<byte>, rest: seq<byte>)
    requires at <= |file| && file[at..] == line + [NEWLINE] + rest
    ensures var p := at + |line|;
            p < |file| && file[at..p] == line && file[p] == NEWLINE && file[p + 1..] == rest
  {
    var p := at + |line|;
    assert file[at..p] == file[at..][..|line|];
    assert file[p] == file[at..][|line|];
    assert file[p + 1..] == file[at..][|line| + 1..];
  }

  lemma LineThenRest(file: seq<byte>, at: nat, line: seq<byte>, rest: seq<byte>)
    requires at <= |file| && file[at..] == line + [NEWLINE] + rest && IsLine(line)
    ensures var next := at + |line| + 1;
            next <= |file| && file[next..] == rest && LinesFrom(file, at) == [line] + LinesFrom(file, next)
  {
    FirstLine(file, at, line, rest);
    LineAt(file, at, at + |line|);
  }

  lemma UnlinesFirst(lines: seq<seq<byte>>, last: seq<byte>)
    requires lines != []
    ensures Unlines(lines) + last == lines[0] + [NEWLINE] + (Unlines(lines[1..]) + last)
  {
  }

  lemma LastLine(file: seq<byte>, at: nat)
    requires at < |file| && IsLine(file[at..])
    ensures LinesFrom(file, at) == [file[at..]]
  {
    forall q | at <= q ensures !OccursAt(file, [NEWLINE], q) {
      NewlineAt(file, q);
      if q < |file| { assert file[q] == file[at..][q - at]; }
    }
    FindIs(file, [NEWLINE], at, None);
  }

  function Tail(last: seq<byte>): seq<seq<byte>> {
    if last == [] then [] else [last]
  }

  lemma {:induction false} UnlinesThenLast(file: seq<byte>, at: nat, lines: seq<seq<byte>>, last: seq<byte>)
    requires at <= |file| && file[at..] == Unlines(lines) + last && IsLine(last)
    requires forall i :: 0 <= i < |lines| ==> IsLine(lines[i])
    ensures LinesFrom(file, at) == lines + Tail(last)
    decreases |lines|
  {
    if lines == [] {
      assert file[at..] == last;
      if last != [] { LastLine(file, at); }
    } else {
      var next := at + |lines[0]| + 1;
      assert LinesFrom(file, at) == [lines[0]] + LinesFrom(file, next)
          && next <= |file| && file[next..] == Unlines(lines[1..]) + last by {
        UnlinesFirst(lines, last);
        LineThenRest(file, at, lines[0], Unlines(lines[1..]) + last);
      }
      UnlinesThenLast(file, next, lines[1..], last);
      assert lines == [lines[0]] + lines[1..];
    }
  }

  /** Loading a saved list of words gives back exactly those words in order. */
  lemma LinesRoundTrip(lines: seq<seq<byte>>)
    requires forall i :: 0 <= i < |lines| ==> IsLine(lines[i])
    ensures Lines(Unlines(lines)) == lines
  {
    var file := Unlines(lines);
    assert file[0..] == Unlines(lines) + [];
    UnlinesThenLast(file, 0, lines, []);
  }

  /** A last line needs no newline. */
  lemma UnendedRoundTrip(lines: seq<seq<byte>>, last: seq<byte>)
    requires last != [] && IsLine(last) && forall i :: 0 <= i < |lines| ==> IsLine(lines[i])
    ensures Lines(Unlines(lines) + last) == lines + [last]
  {
    var file := Unlines(lines) + last;
    assert file[0..] == file;
    UnlinesThenLast(file, 0, lines, last);
  }

  /** The file has an empty line: a newline at its beginning or right after another newline. */
  ghost predicate HasBlankLine(file: seq<byte>, at: nat) {
    exists i :: BlankAt(file, at, i)
  }

  ghost predicate BlankAt(file: seq<byte>, at: nat, i: int) {
    at <= i < |file| && file[i] == 10 && (i == at || file[i - 1] == 10)
  }

  lemma BlankShift(file: seq<byte>, at: nat, p: nat)
    requires at <= p < |file| && file[p] == NEWLINE && forall q :: at <= q < p ==> file[q] != NEWLINE
    ensures HasBlankLine(file, at) <==> p == at || HasBlankLine(file, p + 1)
  {
    if p == at {
      assert BlankAt(file, at, at);
    } else {
      if HasBlankLine(file, at) {
        var i: int :| BlankAt(file, at, i);
        assert BlankAt(file, p + 1, i);
      }
      if HasBlankLine(file, p + 1) {
        var i: int :| BlankAt(file, p + 1, i);
        assert BlankAt(file, at, i);
      }
    }
  }

  lemma FindsNewline(file: seq<byte>, at: nat)
    ensures var found := Find(file, [NEWLINE], at);
            && (found.Some? ==> found.value < |file| && file[found.value] == NEWLINE)
            && forall q :: at <= q < |file| && (found.None? || q < found.value) ==> file[q] != NEWLINE
  {
    var found := Find(file, [NEWLINE], at);
    FindIsFirst(file, [NEWLINE], at);
    if found.Some? { NewlineAt(file, found.value); }
    forall q | at <= q < |file| && (found.None? || q < found.value) ensures file[q] != NEWLINE {
      NewlineAt(file, q);
    }
  }

  lemma BlankOrLater(file: seq<byte>, at: nat, p: nat, rest: seq<seq<byte>>)
    requires at <= p < |file| && file[p] == NEWLINE && forall q :: at <= q < p ==> file[q] != NEWLINE
    requires [] in rest <==> HasBlankLine(file, p + 1)
    ensures [] in [file[at..p]] + rest <==> HasBlankLine(file, at)
  {
    BlankShift(file, at, p);
    var lines := [file[at..p]] + rest;
    assert lines[0] == file[at..p] && lines[1..] == rest;
    assert file[at..p] == [] <==> p == at;
  }

  lemma {:induction false} BlankFrom(file: seq<byte>, at: nat)
    ensures [] in LinesFrom(file, at) <==> HasBlankLine(file, at)
    decreases |file| - at
  {
    if at >= |file| {
    } else {
      FindsNewline(file, at);
      LinesUnfold(file, at);
      match Find(file, [NEWLINE], at)
      case None =>
      case Some(p) =>
        BlankFrom(file, p + 1);
        BlankOrLater(file, at, p, LinesFrom(file, p + 1));
    }
  }

  /** The empty word, on which the scan never ends, is loaded if and only if the file has a blank line. */
  lemma EmptyWordIffBlankLine(file: seq<byte>)
    ensures [] in Lines(file) <==> HasBlankLine(file, 0)
  {
    BlankFrom(file, 0);
  }

  /** `std::getline`: the line at the read position, and the position after it. */
  method GetLine(file: seq<byte>, at: nat) returns (line: seq<byte>, next: nat)
    requires at < |file|
    ensures at < next && LinesFrom(file, at) == [line] + LinesFrom(file, next)
  {
    LinesUnfold(file, at);
    var found := Find(file, [NEWLINE], at);
    if found.Some? {
      line, next := file[at..found.value], found.value + 1;
    } else {
      line, next := file[at..], |file|;
    }
  }

  /** The dictionary holding exactly these words. */
  function WordSet(words: seq<seq<byte>>): map<seq<byte>, bool> {
    map w | w in words :: true
  }

  lemma WordSetGrows(before: map<seq<byte>, bool>, words: seq<seq<byte>>, w: seq<byte>)
    ensures before + WordSet(words + [w]) == (before + WordSet(words))[w := true]
  {
  }

  /** What the program's dictionary is after loading this file. */
  function Loaded(file: seq<byte>): map<seq<byte>, bool> {
    WordSet(Lines(file))
  }

  class Dictionary {
    var data: map<seq<byte>, bool>

    constructor ()
      ensures data == map[]
    {
      data := map[];
    }

    /** A file that cannot be opened changes nothing; otherwise every line becomes a key. The order and
        repetition of lines leave no trace. */
    method LoadFromFile(file: Option<seq<byte>>)
      modifies this
      ensures file.None? ==> data == old(data)
      ensures file.Some? ==> data == old(data) + Loaded(file.value)
    {
      if file.None? { return; }
      var text := file.value;
      var at := 0;
      ghost var done: seq<seq<byte>> := [];
      assert [] + Lines(text) == Lines(text) && data == old(data) + WordSet(done);
      while at < |text|
        invariant done + LinesFrom(text, at) == Lines(text)
        invariant data == old(data) + WordSet(done)
        decreases |text| - at
      {
        var line, next := GetLine(text, at);
        WordSetGrows(old(data), done, line);
        assert done + ([line] + LinesFrom(text, next)) == (done + [line]) + LinesFrom(text, next);
        data := data[line := true];
        done, at := done + [line], next;
      }
      assert done == Lines(text);
    }
  }
}
