/** Turning a buffered audio packet into an equally long silent one: decode, clear the samples,
    encode again. The codec is an arbitrary answer script, so every proof holds for every codec that
    does not answer "try again" for ever. */
module MuteTranscoder {
  import opened Bytes
  import opened Packets
  import opened Substrings

  datatype Reply = Ok | Again | Eof | Error

  /** From `calm` on the script never says Again. */
  ghost predicate Calms(script: nat -> Reply, calm: nat) {
    forall n: nat :: n >= calm ==> script(n) != Again
  }

  /** The first call at or after `n`, in strides, that is not answered Again. */
  ghost function Settle(script: nat -> Reply, calm: nat, n: nat, stride: nat): (m: nat)
    requires Calms(script, calm) && stride > 0
    ensures n <= m && script(m) != Again
    decreases if n < calm then calm - n else 0
  {
    if script(n) == Again then Settle(script, calm, n + stride, stride) else n
  }

  /** The number of the `k`-th retry. */
  function Retry(n: nat, k: nat, stride: nat): nat {
    n + k * stride
  }

  /** The loop stops at the first retry that is not answered Again, after `agains` that are. */
  lemma {:induction false} SettleIsFirst(script: nat -> Reply, calm: nat, n: nat, stride: nat) returns (agains: nat)
    requires Calms(script, calm) && stride > 0
    ensures Settle(script, calm, n, stride) == Retry(n, agains, stride)
    ensures forall k: nat :: k < agains ==> script(Retry(n, k, stride)) == Again
    decreases if n < calm then calm - n else 0
  {
    if script(n) != Again {
      agains := 0;
    } else {
      var more := SettleIsFirst(script, calm, n + stride, stride);
      agains := more + 1;
      RetryShifts(n, more, stride);
      forall k: nat | k < agains ensures script(Retry(n, k, stride)) == Again {
        if k > 0 { RetryShifts(n, k - 1, stride); }
      }
    }
  }

  lemma RetryShifts(n: nat, k: nat, stride: nat)
    ensures Retry(n + stride, k, stride) == Retry(n, k + 1, stride)
  {
  }

  // ----- When the loops end, on any script

  /** Where a loop has ended after at most `turns` retries, if it has. */
  function SettledWithin(script: nat -> Reply, n: nat, stride: nat, turns: nat): Option<nat>
    decreases turns
  {
    if script(n) != Again then Some(n)
    else if turns == 0 then None
    else SettledWithin(script, n + stride, stride, turns - 1)
  }

  /** Loops one after the other, with these strides, each entered only if the one before it settled on Ok:
      whether the work is over when none may retry more than `turns` times. */
  predicate OverWithin(script: nat -> Reply, n: nat, strides: seq<nat>, turns: nat)
    decreases |strides|
  {
    strides == [] ||
    match SettledWithin(script, n, strides[0], turns)
    case None => false
    case Some(m) => script(m) == Ok ==> OverWithin(script, m + 1, strides[1..], turns)
  }

  /** The `k`-th retry is the first one not answered Again. */
  ghost predicate SettlesAfter(script: nat -> Reply, n: nat, stride: nat, k: nat) {
    script(Retry(n, k, stride)) != Again && forall j: nat :: j < k ==> script(Retry(n, j, stride)) == Again
  }

  /** Each loop that is reached meets, on its own pattern of calls, an answer other than Again. */
  ghost predicate EachMeetsAnswer(script: nat -> Reply, n: nat, strides: seq<nat>)
    decreases |strides|
  {
    strides == [] ||
    exists k: nat :: && SettlesAfter(script, n, strides[0], k)
                     && (script(Retry(n, k, strides[0])) == Ok ==> EachMeetsAnswer(script, Retry(n, k, strides[0]) + 1, strides[1..]))
  }

  lemma SettlesLater(script: nat -> Reply, n: nat, stride: nat, next: nat, k: nat)
    requires script(n) == Again && next == n + stride
    ensures Retry(n, k + 1, stride) == Retry(next, k, stride)
    ensures SettlesAfter(script, n, stride, k + 1) <==> SettlesAfter(script, next, stride, k)
  {
    RetryShifts(n, k, stride);
    if SettlesAfter(script, next, stride, k) {
      forall j: nat | j < k + 1 ensures script(Retry(n, j, stride)) == Again {
        if j > 0 {
          RetryShifts(n, j - 1, stride);
          assert script(Retry(next, j - 1, stride)) == Again;
        }
      }
    }
    if SettlesAfter(script, n, stride, k + 1) {
      forall j: nat | j < k ensures script(Retry(next, j, stride)) == Again {
        RetryShifts(n, j, stride);
        assert script(Retry(n, j + 1, stride)) == Again;
      }
    }
  }

  /** A loop that has settled has done so at the first retry not answered Again. */
  lemma {:induction false} SettledIsFirst(script: nat -> Reply, n: nat, stride: nat, turns: nat) returns (k: nat)
    requires SettledWithin(script, n, stride, turns).Some?
    ensures SettlesAfter(script, n, stride, k) && SettledWithin(script, n, stride, turns) == Some(Retry(n, k, stride))
    decreases turns
  {
    if script(n) != Again {
      k := 0;
    } else {
      var j := SettledIsFirst(script, n + stride, stride, turns - 1);
      SettlesLater(script, n, stride, n + stride, j);
      k := j + 1;
    }
  }

  /** Given enough turns, a loop that settles after `k` retries has settled there. */
  lemma {:induction false} SettledEnough(script: nat -> Reply, n: nat, stride: nat, k: nat, turns: nat)
    requires SettlesAfter(script, n, stride, k) && k <= turns
    ensures SettledWithin(script, n, stride, turns) == Some(Retry(n, k, stride))
    decreases k
  {
    if k == 0 {
    } else {
      assert script(Retry(n, 0, stride)) == Again;
      SettlesLater(script, n, stride, n + stride, k - 1);
      SettledEnough(script, n + stride, stride, k - 1, turns - 1);
    }
  }

  lemma {:induction false} OverMeets(script: nat -> Reply, n: nat, strides: seq<nat>, turns: nat)
    requires OverWithin(script, n, strides, turns)
    ensures EachMeetsAnswer(script, n, strides)
    decreases |strides|
  {
    if strides == [] {
    } else {
      var k := SettledIsFirst(script, n, strides[0], turns);
      var m := Retry(n, k, strides[0]);
      if script(m) == Ok { OverMeets(script, m + 1, strides[1..], turns); }
    }
  }

  lemma {:induction false} MeetsOver(script: nat -> Reply, n: nat, strides: seq<nat>) returns (enough: nat)
    requires EachMeetsAnswer(script, n, strides)
    ensures forall turns: nat :: turns >= enough ==> OverWithin(script, n, strides, turns)
    decreases |strides|
  {
    if strides == [] {
      enough := 0;
    } else {
      var k: nat :| && SettlesAfter(script, n, strides[0], k)
                    && (script(Retry(n, k, strides[0])) == Ok ==>
                          EachMeetsAnswer(script, Retry(n, k, strides[0]) + 1, strides[1..]));
      var m := Retry(n, k, strides[0]);
      enough := k;
      if script(m) == Ok {
        var rest := MeetsOver(script, m + 1, strides[1..]);
        enough := if rest > k then rest else k;
      }
      forall turns: nat | turns >= enough ensures OverWithin(script, n, strides, turns) {
        SettledEnough(script, n, strides[0], k, turns);
      }
    }
  }

  ghost predicate IsOver(script: nat -> Reply, n: nat, strides: seq<nat>) {
    exists turns: nat :: OverWithin(script, n, strides, turns)
  }

  /** Loops one after the other end, on any script whatever, if and only if each one that is reached meets
      an answer other than Again on its own pattern of calls. */
  lemma LoopsEndIff(script: nat -> Reply, n: nat, strides: seq<nat>)
    ensures IsOver(script, n, strides) <==> EachMeetsAnswer(script, n, strides)
  {
    if IsOver(script, n, strides) {
      var turns: nat :| OverWithin(script, n, strides, turns);
      OverMeets(script, n, strides, turns);
    }
    if EachMeetsAnswer(script, n, strides) {
      var enough := MeetsOver(script, n, strides);
      assert OverWithin(script, n, strides, enough);
    }
  }

  /** The four loops of muting: sending and receiving, for the decoder and for the encoder. */
  const MUTING: seq<nat> := [1, 2, 1, 2]

  lemma MutingEndsIff(script: nat -> Reply, n: nat)
    ensures IsOver(script, n, MUTING) <==> EachMeetsAnswer(script, n, MUTING)
  {
    LoopsEndIff(script, n, MUTING);
  }

  datatype Outcome = Outcome(ok: bool, next: nat)

  /** Two calls in a row, the second only if the first is accepted: a send, which repeats alone, and
      a receive, whose repetition is preceded by one more send with an ignored answer. */
  ghost function Exchange(script: nat -> Reply, calm: nat, n: nat): Outcome
    requires Calms(script, calm)
  {
    var s := Settle(script, calm, n, 1);
    if script(s) != Ok then Outcome(false, s + 1)
    else
      var r := Settle(script, calm, s + 1, 2);
      Outcome(script(r) == Ok, r + 1)
  }

  /** Decoding and then encoding, starting with call number `n`. */
  ghost function Transcode(script: nat -> Reply, calm: nat, n: nat): Outcome
    requires Calms(script, calm)
  {
    var d := Exchange(script, calm, n);
    if d.ok then Exchange(script, calm, d.next) else d
  }

  /** Loops one after the other, with these strides, end like this: each settles at its first call not
      answered Again, and only an Ok leads on to the next one. `o.ok` says whether all of them settled on Ok,
      and `o.next` is the first call left over. */
  ghost predicate EndWith(script: nat -> Reply, n: nat, strides: seq<nat>, o: Outcome)
    decreases |strides|
  {
    if strides == [] then o == Outcome(true, n)
    else
      exists k: nat :: && SettlesAfter(script, n, strides[0], k)
                       && var m := Retry(n, k, strides[0]);
                          if script(m) == Ok then EndWith(script, m + 1, strides[1..], o) else o == Outcome(false, m + 1)
  }

  /** They end in one way only. */
  lemma {:induction false} EndOneWay(script: nat -> Reply, n: nat, strides: seq<nat>, o: Outcome, other: Outcome)
    requires EndWith(script, n, strides, o) && EndWith(script, n, strides, other)
    ensures o == other
    decreases |strides|
  {
    if strides == [] {
    } else {
      var j := HeadOfEnd(script, n, strides, o);
      var k := HeadOfEnd(script, n, strides, other);
      SettlesOnce(script, n, strides[0], j, k);
      var m := Retry(n, k, strides[0]);
      if script(m) == Ok { EndOneWay(script, m + 1, strides[1..], o, other); }
    }
  }

  lemma HeadOfEnd(script: nat -> Reply, n: nat, strides: seq<nat>, o: Outcome) returns (k: nat)
    requires strides != [] && EndWith(script, n, strides, o)
    ensures SettlesAfter(script, n, strides[0], k)
    ensures var m := Retry(n, k, strides[0]);
            if script(m) == Ok then EndWith(script, m + 1, strides[1..], o) else o == Outcome(false, m + 1)
  {
    k :| && SettlesAfter(script, n, strides[0], k)
         && var m := Retry(n, k, strides[0]);
            if script(m) == Ok then EndWith(script, m + 1, strides[1..], o) else o == Outcome(false, m + 1);
  }

  lemma SettlesOnce(script: nat -> Reply, n: nat, stride: nat, j: nat, k: nat)
    requires SettlesAfter(script, n, stride, j) && SettlesAfter(script, n, stride, k)
    ensures j == k
  {
  }

  /** One loop, and then the others. */
  lemma EndWithOneMore(script: nat -> Reply, calm: nat, n: nat, strides: seq<nat>, o: Outcome)
    requires Calms(script, calm) && strides != [] && strides[0] > 0
    requires var m := Settle(script, calm, n, strides[0]);
             if script(m) == Ok then EndWith(script, m + 1, strides[1..], o) else o == Outcome(false, m + 1)
    ensures EndWith(script, n, strides, o)
  {
    var k := SettleIsFirst(script, calm, n, strides[0]);
    assert SettlesAfter(script, n, strides[0], k);
  }

  lemma ExchangeThen(script: nat -> Reply, calm: nat, n: nat, strides: seq<nat>, o: Outcome)
    requires Calms(script, calm) && |strides| >= 2 && strides[0] == 1 && strides[1] == 2
    requires var x := Exchange(script, calm, n);
             if x.ok then EndWith(script, x.next, strides[2..], o) else o == x
    ensures EndWith(script, n, strides, o)
  {
    var s := Settle(script, calm, n, 1);
    assert strides[1..][0] == 2 && strides[1..][1..] == strides[2..];
    if script(s) == Ok {
      EndWithOneMore(script, calm, s + 1, strides[1..], o);
    }
    EndWithOneMore(script, calm, n, strides, o);
  }

  const EXCHANGE: seq<nat> := [1, 2]

  /** The outcome of sending and receiving: exactly the one in which these two loops end. */
  lemma ExchangeIs(script: nat -> Reply, calm: nat, n: nat, o: Outcome)
    requires Calms(script, calm)
    ensures EndWith(script, n, EXCHANGE, o) <==> o == Exchange(script, calm, n)
  {
    var x := Exchange(script, calm, n);
    ExchangeThen(script, calm, n, EXCHANGE, x);
    if EndWith(script, n, EXCHANGE, o) { EndOneWay(script, n, EXCHANGE, o, x); }
  }

  /** The outcome of muting: exactly the one in which its four loops end. */
  lemma TranscodeIs(script: nat -> Reply, calm: nat, n: nat, o: Outcome)
    requires Calms(script, calm)
    ensures EndWith(script, n, MUTING, o) <==> o == Transcode(script, calm, n)
  {
    var d, t := Exchange(script, calm, n), Transcode(script, calm, n);
    if d.ok {
      assert MUTING[2..][2..] == [];
      ExchangeThen(script, calm, d.next, MUTING[2..], t);
    }
    ExchangeThen(script, calm, n, MUTING, t);
    if EndWith(script, n, MUTING, o) { EndOneWay(script, n, MUTING, o, t); }
  }

  /** What the decoder puts into a frame at a given call. */
  datatype Decoded = Decoded(samples: nat, planeLength: nat, at: (nat, nat) -> byte)

  class Codec {
    const script: nat -> Reply
    ghost const calm: nat
    const decoded: nat -> Decoded
    const channels: nat
    const planeCount: nat
    const sampleSize: nat
    var calls: nat

    constructor (script: nat -> Reply, ghost calm: nat, decoded: nat -> Decoded, channels: nat, planeCount: nat, sampleSize: nat)
      requires Calms(script, calm) && channels <= planeCount
      requires forall n: nat :: decoded(n).samples * sampleSize <= decoded(n).planeLength
      ensures Valid() && calls == 0
      ensures this.script == script && this.calm == calm
    {
      this.script, this.calm, this.decoded := script, calm, decoded;
      this.channels, this.planeCount, this.sampleSize := channels, planeCount, sampleSize;
      calls := 0;
    }

    /** Frames are planar: one plane per channel, long enough for all its samples. */
    ghost predicate Valid() {
      && Calms(script, calm) && channels <= planeCount
      && forall n: nat :: decoded(n).samples * sampleSize <= decoded(n).planeLength
    }

    ghost predicate AlwaysOk() {
      forall n: nat :: script(n) == Ok
    }

    method Call() returns (r: Reply)
      modifies this
      ensures r == script(old(calls)) && calls == old(calls) + 1
    {
      r := script(calls);
      calls := calls + 1;
    }

    /** The retry loop around `avcodec_send_packet` and `avcodec_send_frame`. */
    method Send() returns (r: Reply)
      requires Valid()
      modifies this
      ensures r == script(Settle(script, calm, old(calls), 1)) && calls == Settle(script, calm, old(calls), 1) + 1
    {
      while true
        invariant Settle(script, calm, calls, 1) == Settle(script, calm, old(calls), 1)
        decreases if calls < calm then calm - calls else 0
      {
        r := Call();
        if r != Again { return; }
      }
    }

    /** The retry loop around `avcodec_receive_frame` and `avcodec_receive_packet`. */
    method Receive() returns (r: Reply)
      requires Valid()
      modifies this
      ensures r == script(Settle(script, calm, old(calls), 2)) && calls == Settle(script, calm, old(calls), 2) + 1
    {
      while true
        invariant Settle(script, calm, calls, 2) == Settle(script, calm, old(calls), 2)
        decreases if calls < calm then calm - calls else 0
      {
        r := Call();
        if r != Again { return; }
        var _ := Call();
      }
    }

    /** The decoder hands over the frame it has just decoded. */
    method Fill(frame: AVFrame)
      requires Valid()
      modifies frame
      ensures Planar(frame, channels, sampleSize) && fresh(frame.planes)
    {
      var d := decoded(calls);
      var planes: seq<array<byte>> := [];
      while |planes| < planeCount
        invariant |planes| <= planeCount && fresh(planes)
        invariant forall c :: 0 <= c < |planes| ==> planes[c].Length == d.planeLength
        invariant Disjoint(planes)
      {
        var c := |planes|;
        var plane := new byte[d.planeLength](i requires i >= 0 => d.at(c, i));
        planes := planes + [plane];
      }
      frame.samples, frame.planes := d.samples, planes;
    }
  }

  ghost predicate Planar(frame: AVFrame, channels: nat, size: nat)
    reads frame
  {
    && channels <= |frame.planes|
    && (forall c :: 0 <= c < |frame.planes| ==> frame.samples * size <= frame.planes[c].Length)
    && Disjoint(frame.planes)
  }

  // ----- Clearing the samples

  function Zeros(n: nat): (r: seq<byte>)
    ensures |r| == n && forall i :: 0 <= i < n ==> r[i] == 0
  {
    seq(n, _ => 0)
  }

  /** The first `n` bytes zero, the rest as it was. */
  function Cleared(s: seq<byte>, n: nat): (r: seq<byte>)
    requires n <= |s|
    ensures |r| == |s|
  {
    Zeros(n) + s[n..]
  }

  /** `n` bytes zeroed from `from` on. */
  function Patched(s: seq<byte>, from: nat, n: nat): (r: seq<byte>)
    requires from + n <= |s|
    ensures |r| == |s|
  {
    s[..from] + Zeros(n) + s[from + n..]
  }

  lemma ClearedGrows(s: seq<byte>, n: nat, size: nat)
    requires n + size <= |s|
    ensures Patched(Cleared(s, n), n, size) == Cleared(s, n + size)
  {
  }

  /** Row number `i` begins at byte `i * size`, and ends where the next one begins, within the plane. */
  lemma RowFits(i: nat, samples: nat, size: nat) returns (from: nat, next: nat)
    requires i < samples
    ensures from == size * i == i * size && next == (i + 1) * size
    ensures next == from + size && next <= samples * size
  {
    from, next := i * size, (i + 1) * size;
    MoreRows(i + 1, samples, size);
  }

  lemma MoreRows(i: nat, j: nat, size: nat)
    requires i <= j
    ensures i * size <= j * size
  {
    assert (j - i) * size >= 0;
  }

  method MemsetZero(a: array<byte>, from: nat, n: nat)
    requires from + n <= a.Length
    modifies a
    ensures a[..] == Patched(old(a[..]), from, n)
    ensures forall j :: 0 <= j < a.Length ==> a[j] == if from <= j < from + n then 0 else old(a[j])
  {
    var i := 0;
    while i < n
      invariant i <= n
      invariant forall j :: 0 <= j < a.Length ==> a[j] == if from <= j < from + i then 0 else old(a[j])
    {
      a[from + i] := 0;
      i := i + 1;
    }
    PatchedAt(old(a[..]), from, n, a[..]);
  }

  lemma PatchedAt(s: seq<byte>, from: nat, n: nat, r: seq<byte>)
    requires from + n <= |s| == |r|
    requires forall j :: 0 <= j < |r| ==> r[j] == if from <= j < from + n then 0 else s[j]
    ensures r == Patched(s, from, n)
  {
  }

  ghost predicate Disjoint(planes: seq<array<byte>>) {
    forall a, b :: 0 <= a < b < |planes| ==> planes[a] != planes[b]
  }

  ghost function Contents(planes: seq<array<byte>>): (r: seq<seq<byte>>)
    reads planes
    ensures |r| == |planes|
    ensures forall c :: 0 <= c < |planes| ==> r[c] == planes[c][..]
  {
    seq(|planes|, c requires 0 <= c < |planes| reads planes => planes[c][..])
  }

  /** The first `n` bytes of every channel's plane are zero; all other bytes are what they were. */
  ghost predicate ClearedUpTo(now: seq<seq<byte>>, was: seq<seq<byte>>, channels: nat, n: nat) {
    && |now| == |was|
    && forall c :: 0 <= c < |was| ==> n <= |was[c]| && now[c] == if c < channels then Cleared(was[c], n) else was[c]
  }

  lemma ClearedByPatches(now: seq<seq<byte>>, before: seq<seq<byte>>, was: seq<seq<byte>>, channels: nat, from: nat, size: nat, next: nat)
    requires ClearedUpTo(before, was, channels, from) && |now| == |before| && next == from + size
    requires forall c :: 0 <= c < |before| ==> next <= |before[c]|
    requires forall c :: 0 <= c < |before| ==> now[c] == if c < channels then Patched(before[c], from, size) else before[c]
    ensures ClearedUpTo(now, was, channels, next)
  {
    forall c | 0 <= c < |was|
      ensures next <= |was[c]| && now[c] == if c < channels then Cleared(was[c], next) else was[c]
    {
      assert |before[c]| == |was[c]|;
      if c < channels {
        assert before[c] == Cleared(was[c], from) && now[c] == Patched(before[c], from, size);
        ClearedGrows(was[c], from, size);
      }
    }
  }

  /** The inner loop: the bytes of one sample, in every channel. */
  method ClearSample(planes: seq<array<byte>>, channels: nat, from: nat, size: nat)
    requires channels <= |planes| && Disjoint(planes)
    requires forall c :: 0 <= c < |planes| ==> from + size <= planes[c].Length
    modifies planes
    ensures forall c :: 0 <= c < |planes| ==>
              planes[c][..] == if c < channels then Patched(old(planes[c][..]), from, size) else old(planes[c][..])
  {
    var ch := 0;
    while ch < channels
      invariant ch <= channels
      invariant forall c :: 0 <= c < |planes| ==>
                  planes[c][..] == if c < ch then Patched(old(planes[c][..]), from, size) else old(planes[c][..])
    {
      label L:
      MemsetZero(planes[ch], from, size);
      forall c | 0 <= c < |planes| && c != ch ensures planes[c][..] == old@L(planes[c][..]) {
        assert planes[c] != planes[ch];
      }
      ch := ch + 1;
    }
  }

  /** The nested loops clear exactly the samples of every channel and no other byte of any plane. */
  method ClearSamples(frame: AVFrame, channels: nat, size: nat)
    requires Planar(frame, channels, size)
    modifies frame.planes
    ensures Planar(frame, channels, size)
    ensures ClearedUpTo(Contents(frame.planes), old(Contents(frame.planes)), channels, frame.samples * size)
    ensures forall c, b :: 0 <= c < |frame.planes| && 0 <= b < frame.planes[c].Length ==>
              frame.planes[c][b] == if c < channels && b < frame.samples * size then 0 else old(frame.planes[c][b])
  {
    ClearRows(frame, channels, size);
    ClearedMeans(frame.planes, old(Contents(frame.planes)), channels, frame.samples * size);
  }

  lemma ClearedMeans(planes: seq<array<byte>>, was: seq<seq<byte>>, channels: nat, n: nat)
    requires ClearedUpTo(Contents(planes), was, channels, n)
    ensures forall c, b :: 0 <= c < |planes| && 0 <= b < planes[c].Length ==>
              |was| == |planes| && |was[c]| == planes[c].Length
              && planes[c][b] == if c < channels && b < n then 0 else was[c][b]
  {
    forall c, b | 0 <= c < |planes| && 0 <= b < planes[c].Length
      ensures |was| == |planes| && |was[c]| == planes[c].Length
      ensures planes[c][b] == if c < channels && b < n then 0 else was[c][b]
    {
      var now := Contents(planes);
      assert now[c] == planes[c][..] && planes[c][b] == now[c][b];
    }
  }

  /** The outer loop. */
  method ClearRows(frame: AVFrame, channels: nat, size: nat)
    requires Planar(frame, channels, size)
    modifies frame.planes
    ensures Planar(frame, channels, size)
    ensures ClearedUpTo(Contents(frame.planes), old(Contents(frame.planes)), channels, frame.samples * size)
  {
    ghost var was := Contents(frame.planes);
    var i := 0;
    while i < frame.samples
      invariant i <= frame.samples && ClearedUpTo(Contents(frame.planes), was, channels, i * size)
    {
      ClearRow(frame, channels, size, i, was);
      i := i + 1;
    }
  }

  method ClearRow(frame: AVFrame, channels: nat, size: nat, i: nat, ghost was: seq<seq<byte>>)
    requires Planar(frame, channels, size) && i < frame.samples
    requires ClearedUpTo(Contents(frame.planes), was, channels, i * size)
    modifies frame.planes
    ensures ClearedUpTo(Contents(frame.planes), was, channels, (i + 1) * size)
  {
    ghost var before := Contents(frame.planes);
    ghost var from, next := RowFits(i, frame.samples, size);
    ClearSample(frame.planes, channels, size * i, size);
    ClearedByPatches(Contents(frame.planes), before, was, channels, from, size, next);
  }

  /** What the encoder makes of a frame: silence if and only if every sample of every channel is zero. */
  predicate IsSilent(frame: AVFrame, channels: nat, size: nat)
    requires Planar(frame, channels, size)
    reads frame, frame.planes
  {
    forall c | 0 <= c < channels :: forall b | 0 <= b < frame.samples * size :: frame.planes[c][b] == 0
  }

  lemma ClearedIsSilent(frame: AVFrame, channels: nat, size: nat, was: seq<seq<byte>>)
    requires Planar(frame, channels, size)
    requires ClearedUpTo(Contents(frame.planes), was, channels, frame.samples * size)
    ensures IsSilent(frame, channels, size)
  {
    forall c, b | 0 <= c < channels && 0 <= b < frame.samples * size ensures frame.planes[c][b] == 0 {
      assert Contents(frame.planes)[c] == Cleared(was[c], frame.samples * size);
      assert frame.planes[c][b] == frame.planes[c][..][b];
    }
  }

  // ----- The transcoder

  class Replacer {
    const heap: Heap
    const codec: Codec
    const audioIndex: int

    constructor (heap: Heap, codec: Codec, audioIndex: int)
      ensures this.heap == heap && this.codec == codec && this.audioIndex == audioIndex
    {
      this.heap, this.codec, this.audioIndex := heap, codec, audioIndex;
    }

    /** What happens to a decoded frame before it is encoded again. */
    method Silence(frame: AVFrame)
      requires codec.Valid()
      modifies frame
      ensures Planar(frame, codec.channels, codec.sampleSize)
      ensures IsSilent(frame, codec.channels, codec.sampleSize)
    {
      codec.Fill(frame);
      ghost var was := Contents(frame.planes);
      ClearSamples(frame, codec.channels, codec.sampleSize);
      ClearedIsSilent(frame, codec.channels, codec.sampleSize, was);
    }

    /** The decoding half: a silenced frame, or null when the decoder refuses and no frame is left. */
    method DecodeSilent() returns (frame: AVFrame?)
      requires codec.Valid()
      modifies heap, codec
      ensures heap.packets == old(heap.packets)
      ensures var d := Exchange(codec.script, codec.calm, old(codec.calls));
              codec.calls == d.next && (frame != null <==> d.ok)
      ensures if frame == null then heap.frames == old(heap.frames)
              else && fresh(frame) && heap.frames == old(heap.frames) + {frame}
                   && Planar(frame, codec.channels, codec.sampleSize) && IsSilent(frame, codec.channels, codec.sampleSize)
    {
      var reply := codec.Send();
      if reply != Ok { return null; }
      var decoded := heap.AllocFrame();
      reply := codec.Receive();
      if reply != Ok {
        heap.FreeFrame(decoded);
        return null;
      }
      Silence(decoded);
      frame := decoded;
    }

    /** The encoding half: the frame is given up, for a new packet or, when the encoder refuses, null. */
    method Encode(frame: AVFrame) returns (out: AVPacket?)
      requires codec.Valid() && frame in heap.frames
      requires Planar(frame, codec.channels, codec.sampleSize)
      modifies heap, codec
      ensures heap.frames == old(heap.frames) - {frame}
      ensures var e := Exchange(codec.script, codec.calm, old(codec.calls));
              codec.calls == e.next && (out != null <==> e.ok)
      ensures if out == null then heap.packets == old(heap.packets)
              else && fresh(out) && heap.packets == old(heap.packets) + {out}
                   && out.payload == if old(IsSilent(frame, codec.channels, codec.sampleSize)) then Silent else Original
    {
      // the encoder's output is determined by the frame it is sent
      var encoded := if IsSilent(frame, codec.channels, codec.sampleSize) then Silent else Original;
      var reply := codec.Send();
      if reply != Ok {
        heap.FreeFrame(frame);
        return null;
      }
      var packet := heap.AllocPacket();
      reply := codec.Receive();
      heap.FreeFrame(frame);
      if reply != Ok {
        heap.FreePacket(packet);
        return null;
      }
      packet.payload := encoded;
      out := packet;
    }

    /** Muting always terminates, leaves no frame behind, and leaves exactly one of input and output
        alive: the untouched input when some step is refused, else a new silent packet with the
        input's times, which is the case if and only if all four settled answers are Ok. */
    method ReplaceAudioToMute(packet: AVPacket) returns (out: AVPacket)
      requires codec.Valid() && packet in heap.packets
      modifies heap, codec
      ensures heap.frames == old(heap.frames)
      ensures Outcome(out != packet, codec.calls) == Transcode(codec.script, codec.calm, old(codec.calls))
      ensures EndWith(codec.script, old(codec.calls), MUTING, Outcome(out != packet, codec.calls))
      ensures if out != packet
              then && fresh(out) && heap.packets == old(heap.packets) - {packet} + {out}
                   && out.Value() == Packet(packet.pts, packet.dts, packet.duration, audioIndex, Silent)
              else out == packet && heap.packets == old(heap.packets)
    {
      TranscodeIs(codec.script, codec.calm, codec.calls, Transcode(codec.script, codec.calm, codec.calls));
      var origPts, origDts, origDuration := packet.pts, packet.dts, packet.duration;
      var frame := DecodeSilent();
      if frame == null { return packet; }
      var encoded := Encode(frame);
      if encoded == null { return packet; }
      out := encoded;
      out.pts, out.dts, out.stream, out.duration := origPts, origDts, audioIndex, origDuration;
      heap.FreePacket(packet);
    }
  }
}
