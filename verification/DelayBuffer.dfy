/** The delay buffer as the program keeps it: a list of owned packets updated in place, proved to
    follow the step machine of `DelayLine` and to own every packet it holds exactly once. */
module DelayBuffer {
  import opened Packets
  import opened DelayLine
  import opened DelayGuarantees
  import opened MuteTranscoder
  import opened MuteRuns

  /** What reaches the output: the stream header, then packets. */
  datatype Wire = Header | Frame(pkt: Packet)

  /** How the output answers the handshake: `avio_open` (skipped for formats without a file) and
      `avformat_write_header`. */
  datatype Sink = Sink(noFile: bool, open: int, header: int) {
    predicate Accepts() { (noFile || open >= 0) && header >= 0 }
  }

  ghost function View(ps: seq<AVPacket>): (r: seq<Packet>)
    reads ps
    ensures |r| == |ps| && forall i :: 0 <= i < |ps| ==> r[i] == ps[i].Value()
  {
    seq(|ps|, i requires 0 <= i < |ps| reads ps => ps[i].Value())
  }

  ghost function Frames(ps: seq<Packet>): (r: seq<Wire>)
    ensures |r| == |ps|
  {
    seq(|ps|, i requires 0 <= i < |ps| => Frame(ps[i]))
  }

  ghost predicate Distinct(ps: seq<AVPacket>) {
    forall i, j :: 0 <= i < j < |ps| ==> ps[i] != ps[j]
  }

  ghost function Members(ps: seq<AVPacket>): set<AVPacket> {
    set p | p in ps
  }

  lemma MembersOfMore(ps: seq<AVPacket>, p: AVPacket)
    requires Distinct(ps) && p !in ps
    ensures Distinct(ps + [p]) && Members(ps + [p]) == Members(ps) + {p}
  {
  }

  lemma MembersOfTail(ps: seq<AVPacket>)
    requires Distinct(ps) && ps != []
    ensures Distinct(ps[1..]) && Members(ps[1..]) == Members(ps) - {ps[0]}
  {
    assert forall p :: p in ps <==> p == ps[0] || p in ps[1..];
  }

  lemma MembersOfUpdate(ps: seq<AVPacket>, i: nat, q: AVPacket)
    requires Distinct(ps) && i < |ps| && q !in ps
    ensures Distinct(ps[i := q]) && Members(ps[i := q]) == Members(ps) - {ps[i]} + {q}
  {
    var r := ps[i := q];
    forall p ensures p in r <==> (p in ps && p != ps[i]) || p == q {
      if p in ps && p != ps[i] {
        var j :| 0 <= j < |ps| && ps[j] == p;
        assert r[j] == p;
      }
      if p == q { assert r[i] == q; }
    }
  }

  /** The output of a relay that has sent these packets: the header once, before the first. */
  ghost function WireOf(sent: seq<Packet>): seq<Wire> {
    if sent == [] then [] else [Header] + Frames(sent)
  }

  /** The header comes first, and only once; then exactly the packets, in the order they were sent. */
  lemma WireMeans(sent: seq<Packet>)
    ensures var wire := WireOf(sent);
            if sent == [] then wire == []
            else && |wire| == |sent| + 1 && wire[0] == Header
                 && forall i :: 0 <= i < |sent| ==> wire[i + 1] == Frame(sent[i])
  {
    if sent == [] {
    } else {
      var frames := Frames(sent);
      forall i | 0 <= i < |sent| ensures ([Header] + frames)[i + 1] == Frame(sent[i]) {
        assert ([Header] + frames)[i + 1] == frames[i];
      }
    }
  }

  lemma WireAppend(sent: seq<Packet>, p: Packet)
    ensures WireOf(sent + [p]) == (if sent == [] then [Header] else WireOf(sent)) + [Frame(p)]
  {
  }

  function Popped(st: State): State
    requires st.buf != []
  {
    State(st.out + [st.buf[0]], st.buf[1..], st.total - st.buf[0].duration, st.crashed)
  }

  /** One turn of the flush loop, when the front packet is due. */
  lemma PopStep(st: State, limit: int)
    requires 0 <= limit && Sound(st) && st.buf != [] && st.total - st.buf[0].duration > limit
    ensures var next := Popped(st);
            && Pop(st, limit) == Pop(next, limit) && Pop(st, limit).out != [] && Sound(next)
            && limit < next.total == Wrap32(st.total - st.buf[0].duration)
  {
    var next := Popped(st);
    PopConserves(next, limit);
    WrapUnique(Sum(next.buf), next.total, (Sum(st.buf) + 0x8000_0000) / 0x1_0000_0000);
  }

  /** The walk has decided about the first packets: those of the window that the codec did not refuse
      are silent, and all others are as they were. */
  ghost predicate Walked(audio: int, was: seq<Packet>, now: seq<Packet>, start: int, end: int, oks: seq<bool>) {
    && |oks| <= |was| == |now|
    && forall k :: 0 <= k < |was| ==>
         now[k] == if k < |oks| then MutePacket(audio, was[k], start, end, oks[k]) else was[k]
  }

  lemma WalkOn(audio: int, was: seq<Packet>, now: seq<Packet>, start: int, end: int, oks: seq<bool>, ok: bool, next: seq<Packet>)
    requires Walked(audio, was, now, start, end, oks) && |oks| < |was|
    requires next == now[|oks| := MutePacket(audio, now[|oks|], start, end, ok)]
    ensures Walked(audio, was, next, start, end, oks + [ok])
  {
  }

  lemma SoundAfterMute(st: State, i: nat, p: Packet)
    requires Sound(st) && i < |st.buf| && SameTimes(st.buf[i], p)
    ensures Sound(st.(buf := st.buf[i := p]))
  {
    SumSame(st.buf, st.buf[i := p]);
  }

  lemma WalkedAll(audio: int, was: seq<Packet>, now: seq<Packet>, first: nat, start: int, end: int, oks: seq<bool>)
    requires Walked(audio, was, now, start, end, oks) && |oks| == |was|
    ensures now == MuteBuffer(audio, was, first, start, end, Numbered(first, oks))
  {
  }

  lemma ElsewhereSame(live: set<AVPacket>, held: set<AVPacket>, p: AVPacket, q: AVPacket)
    requires p in held && held <= live && q !in live
    ensures (live - {p} + {q}) - (held - {p} + {q}) == live - held
  {
  }

  class Delayer {
    const heap: Heap
    const replacer: Replacer
    const sink: Sink
    const delaySec: int
    var packets: seq<AVPacket>
    var totalDelay: int
    var handshakeDone: bool
    ghost var sent: seq<Packet>
    ghost var wire: seq<Wire>

    ghost function Cfg(): Config {
      Config(delaySec * 1000 * 2, replacer.audioIndex)
    }

    ghost function Abs(): State
      reads this, packets
    {
      State(sent, View(packets), totalDelay, false)
    }

    /** The buffer and the codec are where playing a plan has taken them. */
    ghost predicate IsAt(played: Played)
      reads this, packets, replacer.codec
    {
      Abs() == played.st && replacer.codec.calls == played.calls
    }

    ghost predicate Valid()
      reads this, heap, packets
    {
      && Cfg().Valid() && replacer.heap == heap && replacer.codec.Valid()
      && Distinct(packets) && Members(packets) <= heap.packets
      && Sound(Abs())
      && (handshakeDone <==> sent != []) && (handshakeDone ==> sink.Accepts()) && wire == WireOf(sent)
    }

    constructor (delaySec: int, sink: Sink, replacer: Replacer)
      requires 0 <= delaySec * 1000 * 2 <= INT_MAX && replacer.codec.Valid()
      ensures Valid() && Abs() == INIT && fresh(this)
      ensures this.replacer == replacer && heap == replacer.heap && this.sink == sink && this.delaySec == delaySec
    {
      this.delaySec, this.sink, this.replacer, this.heap := delaySec, sink, replacer, replacer.heap;
      packets, totalDelay, handshakeDone := [], 0, false;
      sent, wire := [], [];
    }

    /** Live packets that are not in the buffer. */
    ghost function Elsewhere(): set<AVPacket>
      reads this, heap
    {
      heap.packets - Members(packets)
    }

    /** Append and flush. The process exits (`ok` false) exactly when a packet is due and the output
        refuses the handshake; then nothing at all has been written. Otherwise the buffer takes
        the step of the machine and takes over the packet; what it lets go of is written and freed. */
    method Push(pkt: AVPacket) returns (ok: bool)
      requires Valid() && pkt in Elsewhere() && pkt.duration >= 0
      modifies this, heap
      ensures ok <==> sink.Accepts() || Step(Cfg(), old(Abs()), Event.Push(pkt.Value())).out == []
      ensures ok ==> Valid() && Abs() == Step(Cfg(), old(Abs()), Event.Push(pkt.Value()))
      ensures ok ==> Elsewhere() == old(Elsewhere()) - {pkt} && heap.frames == old(heap.frames)
      ensures !ok ==> wire == []
    {
      EnqueueTotal(Abs(), pkt.Value());
      MembersOfMore(packets, pkt);
      packets := packets + [pkt];
      totalDelay := Wrap32(totalDelay + pkt.duration);
      assert View(packets) == old(View(packets)) + [pkt.Value()];
      assert Abs() == Enqueue(old(Abs()), pkt.Value());
      ok := Flush();
    }

    method Flush() returns (ok: bool)
      requires Valid()
      modifies this, heap
      ensures ok <==> sink.Accepts() || DelayLine.Flush(old(Abs()), Cfg().limit).out == []
      ensures ok ==> Valid() && Abs() == DelayLine.Flush(old(Abs()), Cfg().limit)
      ensures ok ==> Elsewhere() == old(Elsewhere()) && heap.frames == old(heap.frames)
      ensures !ok ==> wire == []
    {
      ghost var limit := Cfg().limit;
      if totalDelay > delaySec * 1000 * 2 {
        ghost var goal := Pop(Abs(), limit);
        while true
          invariant Valid() && limit < totalDelay && Pop(Abs(), limit) == goal
          invariant Elsewhere() == old(Elsewhere()) && heap.frames == old(heap.frames)
          decreases |packets|
        {
          assert packets != [];
          var p := packets[0];
          if totalDelay - p.duration > delaySec * 1000 * 2 {
            PopStep(Abs(), limit);
            ok := EmitFront();
            if !ok { return; }
          } else {
            break;
          }
        }
      }
      return true;
    }

    /** Write and free the front packet, after the handshake if it is the first one. */
    method EmitFront() returns (ok: bool)
      requires Valid() && packets != [] && totalDelay - packets[0].duration > Cfg().limit
      modifies this, heap
      ensures ok <==> sink.Accepts()
      ensures ok ==> Valid() && handshakeDone && packets == old(packets[1..])
      ensures ok ==> Abs() == old(Popped(Abs()))
      ensures ok ==> Elsewhere() == old(Elsewhere()) && heap.frames == old(heap.frames)
      ensures !ok ==> wire == []
    {
      var p := packets[0];
      PopStep(Abs(), Cfg().limit);
      MembersOfTail(packets);
      WireAppend(sent, p.Value());
      ok := Handshake();
      if !ok { return; }
      packets := packets[1..];
      totalDelay := Wrap32(totalDelay - p.duration);
      sent := sent + [p.Value()];
      wire := wire + [Frame(p.Value())];
      heap.FreePacket(p);
      assert View(packets) == old(View(packets))[1..];
    }

    /** Before the first packet, open the output and write the header, or exit. */
    method Handshake() returns (ok: bool)
      requires (handshakeDone <==> sent != []) && (handshakeDone ==> sink.Accepts()) && wire == WireOf(sent)
      modifies this`handshakeDone, this`wire
      ensures ok <==> sink.Accepts()
      ensures !ok <==> !old(handshakeDone) && ((!sink.noFile && sink.open < 0) || sink.header < 0)
      ensures ok ==> handshakeDone && wire == if sent == [] then [Header] else WireOf(sent)
      ensures !ok ==> wire == []
    {
      if !handshakeDone {
        if !sink.noFile {
          if sink.open < 0 { return false; }
        }
        if sink.header < 0 { return false; }
        handshakeDone := true;
        wire := wire + [Header];
      }
      return true;
    }

    /** Re-encode every held audio packet of the widened window as silence, in place. A packet the codec
        refuses stays as it was, and the walk goes on with the next one. */
    method ReplaceAudioPacket(start: int, end: int)
      requires Valid()
      modifies this`packets, heap, replacer.codec
      ensures Valid()
      ensures var st, n := old(Abs()), old(replacer.codec.calls);
              var answers := AnswersTo(replacer.codec, n, Cfg().audio, st.buf, start, end);
              && Abs() == Step(Cfg(), st, Mute(start, end, Numbered(|st.out|, answers.oks)))
              && replacer.codec.calls == answers.next
      ensures Elsewhere() == old(Elsewhere()) && heap.frames == old(heap.frames)
    {
      ghost var st, n := Abs(), replacer.codec.calls;
      ghost var others, frames := Elsewhere(), heap.frames;
      var i := 0;
      while i < |packets|
        invariant WalkedTo(i, st, n, start, end, others, frames)
      {
        Visit(i, start, end, st, n, others, frames);
        i := i + 1;
      }
      assert st.buf[..i] == st.buf;
      WalkedAll(Cfg().audio, st.buf, View(packets), |st.out|, start, end, AnswersTo(replacer.codec, n, Cfg().audio, st.buf, start, end).oks);
    }

    /** The walk, which began in state `st` with the codec's call number `n`, has passed the first `i` packets. */
    ghost predicate WalkedTo(i: nat, st: State, n: nat, start: int, end: int, others: set<AVPacket>, frames: set<AVFrame>)
      reads this, heap, packets, replacer.codec
    {
      && Valid() && Elsewhere() == others && heap.frames == frames
      && Abs() == st.(buf := View(packets)) && i <= |packets| == |st.buf|
      && var answers := AnswersTo(replacer.codec, n, Cfg().audio, st.buf[..i], start, end);
         Walked(Cfg().audio, st.buf, View(packets), start, end, answers.oks) && replacer.codec.calls == answers.next
    }

    /** One turn of the walk. */
    method Visit(i: nat, start: int, end: int, ghost st: State, ghost n: nat, ghost others: set<AVPacket>, ghost frames: set<AVFrame>)
      requires i < |packets| && WalkedTo(i, st, n, start, end, others, frames)
      modifies this`packets, heap, replacer.codec
      ensures WalkedTo(i + 1, st, n, start, end, others, frames)
    {
      ghost var now, oks := View(packets), AnswersTo(replacer.codec, n, Cfg().audio, st.buf[..i], start, end).oks;
      AnswersUpTo(replacer.codec, n, Cfg().audio, st.buf, start, end, i);
      assert now[i] == st.buf[i];
      ghost var ok := VisitOne(i, start, end);
      WalkOn(Cfg().audio, st.buf, now, start, end, oks, ok, View(packets));
    }

    /** `ok` if the packet lies in the window and the codec did not refuse it. */
    method VisitOne(i: nat, start: int, end: int) returns (ghost ok: bool)
      requires Valid() && i < |packets|
      modifies this`packets, heap, replacer.codec
      ensures Valid() && Elsewhere() == old(Elsewhere()) && heap.frames == old(heap.frames)
      ensures View(packets) == old(View(packets)[i := MutePacket(Cfg().audio, View(packets)[i], start, end, ok)])
      ensures Outcome(ok, replacer.codec.calls)
           == Answer(replacer.codec, old(replacer.codec.calls), Cfg().audio, old(View(packets)[i]), start, end)
    {
      var p := packets[i];
      if p.stream != replacer.audioIndex {
        ok := false;
      } else if p.pts >= start - 200 && p.pts <= end {
        ok := MuteAt(i);
      } else {
        ok := false;
      }
    }

    /** The list entry is replaced by what the transcoder returns. */
    method MuteAt(i: nat) returns (ghost ok: bool)
      requires Valid() && i < |packets| && packets[i].stream == replacer.audioIndex
      modifies this`packets, heap, replacer.codec
      ensures Valid() && Elsewhere() == old(Elsewhere()) && heap.frames == old(heap.frames)
      ensures var p := old(View(packets)[i]);
              View(packets) == old(View(packets))[i := if ok then p.(payload := Silent) else p]
      ensures Outcome(ok, replacer.codec.calls)
           == Transcode(replacer.codec.script, replacer.codec.calm, old(replacer.codec.calls))
    {
      var p := packets[i];
      var out := replacer.ReplaceAudioToMute(p);
      ok := out != p;
      SoundAfterMute(Abs(), i, out.Value());
      if ok {
        MembersOfUpdate(packets, i, out);
      } else {
        assert packets[i := out] == packets;
      }
      packets := packets[i := out];
      assert View(packets) == old(View(packets))[i := out.Value()];
      if ok { ElsewhereSame(old(heap.packets), old(Members(packets)), p, out); }
    }

    /** The destructor: nothing the buffer held stays alive, and nothing else is touched. */
    method Destroy()
      requires Valid()
      modifies heap
      ensures heap.packets == old(Elsewhere()) && heap.frames == old(heap.frames)
    {
      var i := 0;
      while i < |packets|
        invariant i <= |packets| && heap.frames == old(heap.frames)
        invariant heap.packets == old(heap.packets) - Members(packets[..i])
      {
        assert packets[i] !in packets[..i];
        heap.FreePacket(packets[i]);
        assert Members(packets[..i + 1]) == Members(packets[..i]) + {packets[i]};
        i := i + 1;
      }
      assert packets[..i] == packets;
    }
  }

  // ----- The delay, in seconds

  /** A packet that the buffer has sent was followed by audio or video lasting more than the configured
      delay, the audio stream being the transcoder's. */
  lemma BufferKeepsDelay(d: Delayer, video: int, evs: seq<Event>, i: nat)
    requires 0 <= d.delaySec * 1000 * 2 <= INT_MAX && NonNegative(Pushed(evs)) && i < |Run(d.Cfg(), evs).out|
    requires forall j :: 0 <= j < |Pushed(evs)| ==> Pushed(evs)[j].stream == d.replacer.audioIndex || Pushed(evs)[j].stream == video
    ensures |Run(d.Cfg(), evs).out| <= |Pushed(evs)| && Sum(Pushed(evs)[i + 1..]) > 2000 * d.delaySec
    ensures var later := Pushed(evs)[i + 1..];
            StreamSum(later, d.replacer.audioIndex) > 1000 * d.delaySec || StreamSum(later, video) > 1000 * d.delaySec
  {
    NeverEarly(d.Cfg(), evs, i);
    OneStreamLasts(Pushed(evs)[i + 1..], d.replacer.audioIndex, video, d.delaySec);
  }

  lemma OneStreamLasts(ps: seq<Packet>, audio: int, video: int, delaySec: nat)
    requires Sum(ps) > 2000 * delaySec && forall i :: 0 <= i < |ps| ==> ps[i].stream == audio || ps[i].stream == video
    ensures StreamSum(ps, audio) > 1000 * delaySec || StreamSum(ps, video) > 1000 * delaySec
  {
    if audio == video {
      OneStream(ps, audio);
    } else {
      TwoStreams(ps, audio, video);
    }
  }

  lemma {:induction false} OneStream(ps: seq<Packet>, stream: int)
    requires forall i :: 0 <= i < |ps| ==> ps[i].stream == stream
    ensures StreamSum(ps, stream) == Sum(ps)
  {
    if ps == [] {
    } else {
      OneStream(ps[1..], stream);
    }
  }

  /** And it keeps packets no longer: on a timely run a packet has been sent exactly if what was pushed
      after it lasts more than 2000 times the delay. */
  lemma BufferSendsWhenDue(d: Delayer, evs: seq<Event>, i: nat)
    requires 0 <= d.delaySec * 1000 * 2 <= INT_MAX && NonNegative(Pushed(evs)) && i < |Pushed(evs)| && Timely(d.Cfg(), evs)
    ensures i < |Run(d.Cfg(), evs).out| <==> Sum(Pushed(evs)[i + 1..]) > 2000 * d.delaySec
  {
    EmittedExactlyWhenDue(d.Cfg(), evs);
    assert evs[..|evs|] == evs;
    assert SentIffDue(d.Cfg(), evs);
    assert i < |Run(d.Cfg(), evs).out| <==> Due(Pushed(evs), i, d.Cfg().limit);
  }

  /** Packets of at most `longest`, with room for two of them beside the limit, make every run timely. */
  lemma ShortPacketsAreTimely(d: Delayer, evs: seq<Event>, longest: nat)
    requires 0 <= d.delaySec && 2000 * d.delaySec + 2 * longest <= INT_MAX
    requires NonNegative(Pushed(evs)) && AtMost(Pushed(evs), longest)
    ensures Timely(d.Cfg(), evs)
  {
    RoomIsEnough(d.Cfg(), evs, longest);
  }
}
