/** Byte strings, and the removal of white space from them. */
module Bytes {

  type byte = b: int | 0 <= b < 256

  /** `isspace` in the C locale: tab to carriage return, and blank. */
  predicate IsSpace(c: int) {
    9 <= c <= 13 || c == 32
  }

  /** What is left of a text when white space is dropped. */
  function Strip(s: seq<byte>): (r: seq<byte>)
    ensures |r| <= |s|
  {
    if s == [] then []
    else
      var n := |s| - 1;
      Strip(s[..n]) + if IsSpace(s[n]) then [] else [s[n]]
  }

  lemma {:induction false} StripAppend(a: seq<byte>, b: seq<byte>)
    ensures Strip(a + b) == Strip(a) + Strip(b)
  {
    if b == [] {
      assert a + b == a;
    } else {
      var n := |b| - 1;
      assert (a + b)[..|a| + n] == a + b[..n];
      StripAppend(a, b[..n]);
    }
  }

  /** What is dropped is exactly tab, line feed, vertical tab, form feed, carriage return and blank. */
  lemma {:induction false} StripHasNoSpace(s: seq<byte>)
    ensures forall c :: c in Strip(s) <==> c in s && c != 9 && c != 10 && c != 11 && c != 12 && c != 13 && c != 32
  {
    if s == [] {
    } else {
      var n := |s| - 1;
      StripHasNoSpace(s[..n]);
      assert s == s[..n] + [s[n]];
    }
  }

  /** Every byte kept lands right behind those kept before it; so they stay in order, and none is lost. */
  lemma {:induction false} StripKeepsOrder(s: seq<byte>, i: nat)
    requires i < |s| && !IsSpace(s[i])
    ensures |Strip(s[..i])| < |Strip(s)| && Strip(s)[|Strip(s[..i])|] == s[i]
  {
    var n := |s| - 1;
    if i == n {
    } else {
      StripKeepsOrder(s[..n], i);
      assert s[..n][..i] == s[..i];
    }
  }

  /** And nothing else is there: each place is that of a byte kept. */
  lemma {:induction false} StripComesFrom(s: seq<byte>, k: nat) returns (i: nat)
    requires k < |Strip(s)|
    ensures i < |s| && !IsSpace(s[i]) && |Strip(s[..i])| == k && Strip(s)[k] == s[i]
  {
    var n := |s| - 1;
    if k < |Strip(s[..n])| {
      i := StripComesFrom(s[..n], k);
      assert s[..n][..i] == s[..i];
    } else {
      i := n;
    }
  }

  /** The erase-remove idiom: compact a copy in place with two cursors, then cut off the rest. */
  method RemoveSpaces(input: seq<byte>) returns (result: seq<byte>)
    ensures result == Strip(input)
  {
    var a := new byte[|input|](i requires 0 <= i < |input| => input[i]);
    var i, kept := 0, 0;
    while i < a.Length
      invariant kept <= i <= a.Length == |input|
      invariant a[..kept] == Strip(input[..i])
      invariant forall k :: i <= k < a.Length ==> a[k] == input[k]
    {
      assert input[..i + 1][..i] == input[..i];
      if !IsSpace(a[i]) {
        a[kept] := a[i];
        kept := kept + 1;
      }
      i := i + 1;
    }
    assert input[..i] == input;
    result := a[..kept];
  }
}
