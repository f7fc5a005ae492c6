/** The relay as two threads over shared state: the reader sends audio to the recogniser and pushes
    packets; the recogniser's callbacks move the time base, look sentences up, and go through the hits:
    for each one they read the base anew, and then take the lock and mute. Any interleaving of these
    steps is a run. */
module RelaySystem {
  import opened Bytes
  import opened Substrings
  import opened Packets
  import opened DelayLine
  import opened WordTimes
  import opened Blacklist
  import opened TimeBase

  datatype Relay = Relay(cfg: Config, dict: seq<seq<byte>>) {
    ghost predicate Valid() { NoEmptyWord(dict) }
  }

  datatype Act =
    | PushVideo(pkt: Packet)
    | SendAudio(pkt: Packet, accepted: bool)
    | PushAudio
    | ResetBase
    | SentenceEnd(sentence: seq<byte>, words: seq<Word>)
    | ReadBase
    | MuteNext(done: set<nat>)

  /** `hand` is the audio packet the reader has sent but not yet pushed; `pending` are the hits the
      sentence callback has still to mute, and `read` is the base it has read for the first of them. */
  datatype Sys = Sys(line: State, base: int, hand: Option<Packet>, pending: seq<AudioSegment>, read: Option<int>)

  const START := Sys(INIT, 0, None, [], None)

  /** Program order within each thread: a packet in hand is pushed before the next one is read, and a
      sentence callback finishes its hits before the next one starts. */
  predicate Enabled(s: Sys, a: Act) {
    match a
    case PushVideo(_) => s.hand.None?
    case SendAudio(_, _) => s.hand.None?
    case PushAudio => s.hand.Some?
    case ResetBase => true
    case SentenceEnd(_, _) => s.pending == []
    case ReadBase => s.pending != [] && s.read.None?
    case MuteNext(_) => s.pending != [] && s.read.Some?
  }

  /** The event on the delay buffer that an enabled step amounts to, if any. */
  function LineEvent(s: Sys, a: Act): Option<Event>
    requires Enabled(s, a)
  {
    match a
    case PushVideo(p) => Some(Push(p))
    case PushAudio => Some(Push(s.hand.value))
    case MuteNext(done) => Some(Mute(s.read.value + s.pending[0].start, s.read.value + s.pending[0].end, done))
    case _ => None
  }

  ghost function Next(r: Relay, s: Sys, a: Act): Sys
    requires r.Valid() && Enabled(s, a)
  {
    var line := match LineEvent(s, a) case None => s.line case Some(e) => Step(r.cfg, s.line, e);
    match a
    case PushVideo(_) => s.(line := line)
    case SendAudio(p, accepted) => s.(base := BaseStep(s.base, Sent(p.pts, accepted)), hand := Some(p))
    case PushAudio => s.(line := line, hand := None)
    case ResetBase => s.(base := BaseStep(s.base, Reset))
    case SentenceEnd(sentence, words) => s.(pending := Hits(Strip(sentence), words, r.dict))
    case ReadBase => s.(read := Some(s.base))
    case MuteNext(_) => s.(line := line, pending := s.pending[1..], read := None)
  }

  /** A run: a state sequence, one step apart, from the start. */
  ghost predicate IsRun(r: Relay, acts: seq<Act>, states: seq<Sys>) {
    && r.Valid() && |states| == |acts| + 1 && states[0] == START
    && forall n :: 0 <= n < |acts| ==> Stepped(r, acts, states, n)
  }

  ghost predicate Stepped(r: Relay, acts: seq<Act>, states: seq<Sys>, n: nat)
    requires r.Valid() && |states| == |acts| + 1 && n < |acts|
  {
    Enabled(states[n], acts[n]) && states[n + 1] == Next(r, states[n], acts[n])
  }

  /** Neither thread is ever stuck, and neither waits for the other: a run can always be continued by the
      packet in hand, or else by any packet that is read; by a reset; and by the next half step of a mute,
      or else by any sentence. */
  lemma NeverStuck(r: Relay, acts: seq<Act>, states: seq<Sys>, a: Act)
    requires IsRun(r, acts, states)
    requires var s := states[|acts|];
             match a
             case PushVideo(_) => s.hand.None?
             case SendAudio(_, _) => s.hand.None?
             case PushAudio => s.hand.Some?
             case ResetBase => true
             case SentenceEnd(_, _) => s.pending == []
             case ReadBase => s.pending != [] && s.read.None?
             case MuteNext(_) => s.read.Some?
    ensures exists more :: IsRun(r, acts + [a], states + [more])
  {
    var s := states[|acts|];
    ReadIsForPending(r, acts, states, |acts|);
    var all, more := acts + [a], states + [Next(r, s, a)];
    forall n: nat | n < |all| ensures Stepped(r, all, more, n) {
      if n < |acts| { assert Stepped(r, acts, states, n); }
    }
    assert IsRun(r, all, more);
  }

  /** The buffer events of the first `n` steps of a run. */
  ghost function Trace(r: Relay, acts: seq<Act>, states: seq<Sys>, n: nat): seq<Event>
    requires IsRun(r, acts, states) && n <= |acts|
  {
    if n == 0 then []
    else
      assert Stepped(r, acts, states, n - 1);
      Trace(r, acts, states, n - 1) +
      match LineEvent(states[n - 1], acts[n - 1]) case None => [] case Some(e) => [e]
  }

  /** The delay buffer inside any run of the two threads is in the state the buffer machine reaches on
      the run's buffer events; so everything proved about the machine holds here. */
  lemma {:induction false} LineFollowsMachine(r: Relay, acts: seq<Act>, states: seq<Sys>, n: nat)
    requires IsRun(r, acts, states) && n <= |acts|
    ensures states[n].line == Run(r.cfg, Trace(r, acts, states, n))
  {
    if n == 0 {
    } else {
      LineFollowsMachine(r, acts, states, n - 1);
      assert Stepped(r, acts, states, n - 1);
      var before, now := Trace(r, acts, states, n - 1), Trace(r, acts, states, n);
      match LineEvent(states[n - 1], acts[n - 1])
      case None => assert now == before;
      case Some(e) => assert now == before + [e] && now[..|now| - 1] == before;
    }
  }

  lemma {:induction false} TraceGrows(r: Relay, acts: seq<Act>, states: seq<Sys>, m: nat, n: nat)
    requires IsRun(r, acts, states) && m <= n <= |acts|
    ensures Trace(r, acts, states, m) <= Trace(r, acts, states, n)
  {
    if m == n {
    } else {
      TraceGrows(r, acts, states, m, n - 1);
    }
  }

  function BaseEvents(a: Act): seq<BaseEvent> {
    match a
    case SendAudio(p, accepted) => [Sent(p.pts, accepted)]
    case ResetBase => [Reset]
    case _ => []
  }

  /** What the first `n` steps of a run did to the time base. */
  function BaseTrace(acts: seq<Act>, n: nat): seq<BaseEvent>
    requires n <= |acts|
  {
    if n == 0 then [] else BaseTrace(acts, n - 1) + BaseEvents(acts[n - 1])
  }

  lemma BaseAfterStep(r: Relay, s: Sys, a: Act, history: seq<BaseEvent>)
    requires r.Valid() && Enabled(s, a) && s.base == BaseRun(history)
    ensures Next(r, s, a).base == BaseRun(history + BaseEvents(a))
  {
    var more := BaseEvents(a);
    if more == [] {
      assert history + more == history;
    } else {
      assert (history + more)[..|history|] == history;
    }
  }

  /** In any run the base is what the history of sends and resets makes it. */
  lemma {:induction false} BaseFollowsHistory(r: Relay, acts: seq<Act>, states: seq<Sys>, n: nat)
    requires IsRun(r, acts, states) && n <= |acts|
    ensures states[n].base == BaseRun(BaseTrace(acts, n))
  {
    if n == 0 {
    } else {
      BaseFollowsHistory(r, acts, states, n - 1);
      assert Stepped(r, acts, states, n - 1);
      BaseAfterStep(r, states[n - 1], acts[n - 1], BaseTrace(acts, n - 1));
    }
  }

  // ----- The sentence callback's work list

  /** Step number `n` muted this hit. */
  ghost predicate MutedAt(r: Relay, acts: seq<Act>, states: seq<Sys>, n: nat, hit: AudioSegment)
    requires IsRun(r, acts, states)
  {
    n < |acts| && acts[n].MuteNext? && states[n].read.Some? && states[n].pending != [] && states[n].pending[0] == hit
  }

  /** A pending hit is either still pending later or was muted in between, whatever the reader did. */
  lemma {:induction false} PendingIsServed(r: Relay, acts: seq<Act>, states: seq<Sys>, m: nat, n: nat, hit: AudioSegment)
    requires IsRun(r, acts, states) && m <= n <= |acts| && hit in states[m].pending
    ensures hit in states[n].pending || exists k :: m <= k < n && MutedAt(r, acts, states, k, hit)
  {
    if m == n {
    } else {
      PendingIsServed(r, acts, states, m, n - 1, hit);
      assert Stepped(r, acts, states, n - 1);
      if hit in states[n - 1].pending && acts[n - 1].MuteNext? && hit !in states[n].pending {
        assert MutedAt(r, acts, states, n - 1, hit);
      }
    }
  }

  /** Hits only come from sentences: whatever is pending was found in the sentence that ended last. */
  ghost predicate FromSentence(r: Relay, acts: seq<Act>, k: nat, hit: AudioSegment)
    requires r.Valid()
  {
    k < |acts| && acts[k].SentenceEnd? && hit in Hits(Strip(acts[k].sentence), acts[k].words, r.dict)
  }

  lemma {:induction false} PendingHasOrigin(r: Relay, acts: seq<Act>, states: seq<Sys>, n: nat, hit: AudioSegment)
    requires IsRun(r, acts, states) && n <= |acts| && hit in states[n].pending
    ensures exists k: nat :: k < n && FromSentence(r, acts, k, hit)
  {
    assert n > 0;
    assert Stepped(r, acts, states, n - 1);
    if acts[n - 1].SentenceEnd? {
      assert FromSentence(r, acts, n - 1, hit);
    } else {
      assert hit in states[n - 1].pending;
      PendingHasOrigin(r, acts, states, n - 1, hit);
    }
  }

  /** A base that has been read belongs to a hit that is still to be muted. */
  lemma {:induction false} ReadIsForPending(r: Relay, acts: seq<Act>, states: seq<Sys>, n: nat)
    requires IsRun(r, acts, states) && n <= |acts|
    ensures states[n].read.Some? ==> states[n].pending != []
  {
    if n == 0 {
    } else {
      ReadIsForPending(r, acts, states, n - 1);
      assert Stepped(r, acts, states, n - 1);
    }
  }

  /** The base used for a mute after sentence number `k` ended was the base when it was read, since then,
      though it may have moved before the lock was taken. */
  lemma {:induction false} ReadSinceSentence(r: Relay, acts: seq<Act>, states: seq<Sys>, k: nat, n: nat)
    requires IsRun(r, acts, states) && k < n <= |acts| && acts[k].SentenceEnd? && states[n].read.Some?
    ensures exists m :: k < m < n && acts[m].ReadBase? && states[m].base == states[n].read.value
  {
    assert Stepped(r, acts, states, n - 1);
    if n == k + 1 {
      ReadIsForPending(r, acts, states, k);
    } else if acts[n - 1] != ReadBase {
      ReadSinceSentence(r, acts, states, k, n - 1);
    } else {
      assert acts[n - 1].ReadBase? && states[n - 1].base == states[n].read.value;
    }
  }

  /** The packets the reader has read in the first `n` steps, in order. */
  function ReadBy(acts: seq<Act>, n: nat): seq<Packet>
    requires n <= |acts|
  {
    if n == 0 then [] else ReadBy(acts, n - 1) + ReadOf(acts[n - 1])
  }

  function ReadOf(a: Act): seq<Packet> {
    match a
    case PushVideo(p) => [p]
    case SendAudio(p, _) => [p]
    case _ => []
  }

  /** Step number `k` could set the base: accepted audio with a time other than zero, with no reset before
      step `n`. */
  ghost predicate Sets(acts: seq<Act>, n: nat, k: nat) {
    && k < n <= |acts| && acts[k].SendAudio? && acts[k].accepted && acts[k].pkt.pts != 0
    && forall j :: k < j < n ==> !acts[j].ResetBase?
  }

  lemma SetsExtends(acts: seq<Act>, n: nat, k: nat)
    requires k + 1 < n <= |acts|
    ensures Sets(acts, n, k) <==> Sets(acts, n - 1, k) && !acts[n - 1].ResetBase?
  {
    if Sets(acts, n - 1, k) && !acts[n - 1].ResetBase? {
      forall j | k < j < n ensures !acts[j].ResetBase? {
        if j < n - 1 { assert !acts[j].ResetBase?; }
      }
    }
  }

  /** In any run the base is the time of the first audio packet accepted with a time other than zero since
      the last reset, and zero when there is none. */
  lemma {:induction false} BaseIsFirstSent(r: Relay, acts: seq<Act>, states: seq<Sys>, n: nat)
    requires IsRun(r, acts, states) && n <= |acts|
    ensures states[n].base == 0 <==> forall k: nat :: !Sets(acts, n, k)
    ensures forall k: nat :: FirstSets(acts, n, k) ==> states[n].base == acts[k].pkt.pts
  {
    if n == 0 {
    } else {
      BaseIsFirstSent(r, acts, states, n - 1);
      assert Stepped(r, acts, states, n - 1);
      var a, before := acts[n - 1], states[n - 1].base;
      forall k: nat | k + 1 < n ensures Sets(acts, n, k) <==> Sets(acts, n - 1, k) && !a.ResetBase? {
        SetsExtends(acts, n, k);
      }
      assert Sets(acts, n, n - 1) <==> a.SendAudio? && a.accepted && a.pkt.pts != 0;
      if before == 0 {
        forall k: nat | k + 1 < n ensures !Sets(acts, n, k) { assert !Sets(acts, n - 1, k); }
      } else {
        var some: nat :| Sets(acts, n - 1, some);
        var first := FirstSetting(acts, n - 1, some);
        assert !a.ResetBase? ==> FirstSets(acts, n, first);
        forall k: nat | FirstSets(acts, n, k) ensures !a.ResetBase? ==> k == first {
        }
      }
    }
  }

  ghost predicate FirstSets(acts: seq<Act>, n: nat, k: nat) {
    Sets(acts, n, k) && forall j: nat :: j < k ==> !Sets(acts, n, j)
  }

  lemma {:induction false} FirstSetting(acts: seq<Act>, n: nat, k: nat) returns (first: nat)
    requires Sets(acts, n, k)
    ensures FirstSets(acts, n, first)
    decreases k
  {
    first := k;
    if j: nat :| j < k && Sets(acts, n, j) {
      first := FirstSetting(acts, n, j);
    }
  }
}
