/** The callback that takes a sender's packets, as a recorder that may refuse. */
module PacketSinks {
  import opened Bytes
  import opened Rtp

  /** Records every packet it is handed, and accepts the first `limit` of them. */
  class PacketSink {
    const limit: nat
    var sent: seq<seq<byte>>

    constructor (limit: nat)
      ensures this.limit == limit && sent == []
    {
      this.limit := limit;
      sent := [];
    }

    /** Whether `n` more packets after the first `already` are all accepted. */
    predicate Accepts(already: nat, n: nat) {
      n == 0 || already + n <= limit
    }

    /** How many of `n` packets are handed over before the sender stops: it stops at the first refusal. */
    function Reached(already: nat, n: nat): (r: nat)
      ensures r <= n && (r == n || (0 < r && !Accepts(already, r)))
    {
      if Accepts(already, n) then n else if already >= limit then 1 else limit - already + 1
    }

    /** A sender that had `wire` to send and the sink's record `before` has sent it, up to the first refusal. */
    predicate Carried(before: seq<seq<byte>>, wire: seq<seq<byte>>, ok: bool)
      reads this
    {
      && ok == Accepts(|before|, |wire|)
      && sent == before + wire[..Reached(|before|, |wire|)]
    }

    method Take(packet: seq<byte>) returns (ok: bool)
      modifies this`sent
      ensures sent == old(sent) + [packet]
      ensures ok == (|sent| <= limit)
    {
      sent := sent + [packet];
      ok := |sent| <= limit;
    }
  }

  /** Sending the middle part `a` to `b` of `wire` after its first part went well: either the
      first `b` are through, or the whole is cut short where the part was. */
  lemma CarriedPart(sink: PacketSink, before: seq<seq<byte>>, wire: seq<seq<byte>>, a: nat, b: nat, ok: bool)
    requires a < b <= |wire| && sink.Accepts(|before|, a)
    requires sink.Carried(before + wire[..a], wire[a..b], ok)
    ensures ok ==> sink.sent == before + wire[..b] && sink.Accepts(|before|, b)
    ensures !ok ==> sink.Carried(before, wire, false)
  {
    ReachedPart(sink, |before|, a, b, |wire|);
    PrefixPart(before, wire, a, b, sink.Reached(|before| + a, b - a));
  }

  /** A sender that stops in a part stops at the same packet as one that sends the whole. */
  lemma ReachedPart(sink: PacketSink, already: nat, a: nat, b: nat, n: nat)
    requires a < b <= n && sink.Accepts(already, a)
    ensures sink.Accepts(already + a, b - a) <==> sink.Accepts(already, b)
    ensures !sink.Accepts(already, b) ==> sink.Reached(already, n) == a + sink.Reached(already + a, b - a)
  {
  }

  lemma PrefixPart<T>(before: seq<T>, xs: seq<T>, a: nat, b: nat, r: nat)
    requires a <= b <= |xs| && r <= b - a
    ensures (before + xs[..a]) + xs[a..b][..r] == before + xs[..a + r]
  {
    assert xs[..a] + xs[a..b][..r] == xs[..a + r];
  }

  /** After packet `j` of `wire`: the sender stops there if it was refused. */
  lemma CarriedUpTo(sink: PacketSink, before: seq<seq<byte>>, wire: seq<seq<byte>>, j: nat)
    requires j < |wire| && sink.Accepts(|before|, j) && sink.sent == before + wire[..j] + [wire[j]]
    ensures sink.sent == before + wire[..j + 1]
    ensures |sink.sent| <= sink.limit <==> sink.Accepts(|before|, j + 1)
    ensures !sink.Accepts(|before|, j + 1) ==>
              sink.Reached(|before|, |wire|) == j + 1 && sink.Carried(before, wire, false)
  {
    assert wire[..j + 1] == wire[..j] + [wire[j]];
  }

  /** The clock of a sender that has built `r` packets of the part that starts at `a`. */
  lemma AfterPart(c: Clock, increment: nat, a: nat, r: nat)
    requires c.Valid()
    ensures c.After(a, increment).After(r, if a == 0 then increment else 0) == c.After(a + r, increment)
  {
    SeqShift(c.seqNumber, a, r);
  }

  /** Builds one packet in a buffer of the maximal size and hands it to the callback. */
  method Send(state: RtpState, sink: PacketSink, payload: seq<byte>, marker: bool, increment: nat) returns (ok: bool)
    requires state.Valid() && 0 < |payload| <= MAX_PACKET - HEADER
    modifies state`seqNumber, state`timestamp, sink`sent
    ensures state.Valid() && state.View() == old(state.View()).After(1, increment)
    ensures sink.sent == old(sink.sent) + [Wire(old(state.View()), [payload], marker, increment)[0]]
    ensures ok == (|sink.sent| <= sink.limit)
  {
    hide Encode;
    var packet := new byte[MAX_PACKET](_ => 0);
    ghost var c := state.View();
    var n := state.BuildPacket(packet, payload, marker, increment);
    WireOne(c, payload, marker, increment);
    ok := sink.Take(packet[..n]);
  }

  lemma WireOne(c: Clock, payload: seq<byte>, marker: bool, increment: nat)
    requires c.Valid() && Fit([payload])
    ensures var p := Packet(c.payloadType, marker, c.seqNumber, (c.timestamp + increment) % U32, c.ssrc, payload);
            p.Valid() && Wire(c, [payload], marker, increment)[0] == Encode(p)
  {
    hide Encode;
    RunValid(c, [payload], marker, increment);
    var p := Packet(c.payloadType, marker, c.seqNumber, (c.timestamp + increment) % U32, c.ssrc, payload);
    assert Run(c, [payload], marker, increment)[0] == p;
  }

  /** Datagrams `a` to `b` of a run are themselves a run: only the first moves the timestamp, only
      the last is marked. */
  lemma WireSlice(c: Clock, payloads: seq<seq<byte>>, marker: bool, increment: nat, a: nat, b: nat)
    requires c.Valid() && Fit(payloads) && a <= b <= |payloads|
    ensures c.After(a, increment).Valid()
    ensures var step := if a == 0 then increment else 0;
            && Wire(c, payloads, marker, increment)[a..b]
               == Wire(c.After(a, increment), payloads[a..b], marker && b == |payloads|, step)
            && c.After(a, increment).After(b - a, step) == c.After(b, increment)
  {
    hide Encode, EncodeAll;
    var step := if a == 0 then increment else 0;
    var at := c.After(a, increment);
    assert at.Valid();
    SeqShift(c.seqNumber, a, b - a);
    RunValid(c, payloads, marker, increment);
    RunValid(at, payloads[a..b], marker && b == |payloads|, step);
    RunSlice(c, payloads, marker, increment, a, b);
    EncodeSlice(Run(c, payloads, marker, increment), a, b);
  }

  lemma RunSlice(c: Clock, payloads: seq<seq<byte>>, marker: bool, increment: nat, a: nat, b: nat)
    requires c.Valid() && a <= b <= |payloads|
    ensures Run(c, payloads, marker, increment)[a..b]
         == Run(c.After(a, increment), payloads[a..b], marker && b == |payloads|, if a == 0 then increment else 0)
  {
    var whole, at := Run(c, payloads, marker, increment), c.After(a, increment);
    var part := Run(at, payloads[a..b], marker && b == |payloads|, if a == 0 then increment else 0);
    hide Run;
    forall j | 0 <= j < b - a
      ensures whole[a..b][j] == part[j]
    {
      RunAt(c, payloads, marker, increment, a, b, j);
    }
  }

  lemma RunAt(c: Clock, payloads: seq<seq<byte>>, marker: bool, increment: nat, a: nat, b: nat, j: nat)
    requires c.Valid() && a + j < b <= |payloads|
    ensures Run(c, payloads, marker, increment)[a + j]
         == Run(c.After(a, increment), payloads[a..b], marker && b == |payloads|, if a == 0 then increment else 0)[j]
  {
    SeqShift(c.seqNumber, a, j);
    assert payloads[a..b][j] == payloads[a + j];
  }

  lemma EncodeSlice(ps: seq<Packet>, a: nat, b: nat)
    requires a <= b <= |ps| && forall j | 0 <= j < |ps| :: ps[j].Valid()
    ensures EncodeAll(ps)[a..b] == EncodeAll(ps[a..b])
  {
    hide Encode;
  }

  /** The same for one datagram. */
  lemma WireAt(c: Clock, payloads: seq<seq<byte>>, marker: bool, increment: nat, j: nat)
    requires c.Valid() && Fit(payloads) && j < |payloads|
    ensures c.After(j, increment).Valid()
    ensures Wire(c, payloads, marker, increment)[j]
         == Wire(c.After(j, increment), [payloads[j]], marker && j == |payloads| - 1,
                 if j == 0 then increment else 0)[0]
    ensures c.After(j, increment).After(1, if j == 0 then increment else 0) == c.After(j + 1, increment)
  {
    hide Wire;
    WireSlice(c, payloads, marker, increment, j, j + 1);
    assert payloads[j..j + 1] == [payloads[j]];
    var wire := Wire(c, payloads, marker, increment);
    assert wire[j..j + 1][0] == wire[j];
  }

  // ----- A run, packet by packet -----

  /** The first `j` packets of a run that started at clock `c` are out, all accepted. */
  ghost predicate Out(state: RtpState, sink: PacketSink, c: Clock, before: seq<seq<byte>>, payloads: seq<seq<byte>>,
                      marker: bool, increment: nat, j: nat)
    requires c.Valid() && Fit(payloads)
    reads state, sink
  {
    && j <= |payloads| && state.Valid() && state.View() == c.After(j, increment)
    && sink.sent == before + Wire(c, payloads, marker, increment)[..j]
    && sink.Accepts(|before|, j)
  }

  /** The run is over, cut at the first refusal if there was one. */
  ghost predicate Over(state: RtpState, sink: PacketSink, c: Clock, before: seq<seq<byte>>, payloads: seq<seq<byte>>,
                       marker: bool, increment: nat, ok: bool)
    requires c.Valid() && Fit(payloads)
    reads state, sink
  {
    && state.Valid() && state.View() == c.After(sink.Reached(|before|, |payloads|), increment)
    && sink.Carried(before, Wire(c, payloads, marker, increment), ok)
  }

  lemma OutNone(state: RtpState, sink: PacketSink, payloads: seq<seq<byte>>, marker: bool, increment: nat)
    requires state.Valid() && Fit(payloads)
    ensures Out(state, sink, state.View(), sink.sent, payloads, marker, increment, 0)
  {
    hide Wire;
  }

  lemma OutAll(state: RtpState, sink: PacketSink, c: Clock, before: seq<seq<byte>>, payloads: seq<seq<byte>>,
               marker: bool, increment: nat)
    requires c.Valid() && Fit(payloads)
    requires Out(state, sink, c, before, payloads, marker, increment, |payloads|)
    ensures Over(state, sink, c, before, payloads, marker, increment, true)
  {
    hide Wire;
  }

  /** Part `a` to `b` of a run, sent as a run of its own after the first `a` packets were accepted. */
  lemma OverPart(state: RtpState, sink: PacketSink, c: Clock, before: seq<seq<byte>>, payloads: seq<seq<byte>>,
                 marker: bool, increment: nat, a: nat, b: nat, ok: bool)
    requires c.Valid() && Fit(payloads) && a < b <= |payloads| && sink.Accepts(|before|, a)
    requires c.After(a, increment).Valid()
    requires Over(state, sink, c.After(a, increment), before + Wire(c, payloads, marker, increment)[..a],
                  payloads[a..b], marker && b == |payloads|, if a == 0 then increment else 0, ok)
    ensures ok ==> Out(state, sink, c, before, payloads, marker, increment, b)
    ensures !ok ==> Over(state, sink, c, before, payloads, marker, increment, false)
  {
    hide Wire, PacketSink.Reached, PacketSink.Accepts;
    var wire := Wire(c, payloads, marker, increment);
    WireSlice(c, payloads, marker, increment, a, b);
    CarriedPart(sink, before, wire, a, b, ok);
    ReachedPart(sink, |before|, a, b, |payloads|);
    AfterPart(c, increment, a, sink.Reached(|before| + a, b - a));
  }

  /** Sends packet `j` of a run. */
  method SendAt(state: RtpState, sink: PacketSink, payload: seq<byte>, marker: bool, increment: nat, ghost c: Clock,
                ghost before: seq<seq<byte>>, ghost payloads: seq<seq<byte>>, ghost runMarker: bool,
                ghost runIncrement: nat, ghost j: nat)
    returns (ok: bool)
    requires c.Valid() && Fit(payloads) && j < |payloads| && payload == payloads[j]
    requires marker == (runMarker && j == |payloads| - 1) && increment == if j == 0 then runIncrement else 0
    requires Out(state, sink, c, before, payloads, runMarker, runIncrement, j)
    modifies state`seqNumber, state`timestamp, sink`sent
    ensures state.Valid()
    ensures ok ==> Out(state, sink, c, before, payloads, runMarker, runIncrement, j + 1)
    ensures !ok ==> Over(state, sink, c, before, payloads, runMarker, runIncrement, false)
  {
    hide Wire, PacketSink.Reached, PacketSink.Accepts, PacketSink.Carried;
    WireAt(c, payloads, runMarker, runIncrement, j);
    ok := Send(state, sink, payload, marker, increment);
    CarriedUpTo(sink, before, Wire(c, payloads, runMarker, runIncrement), j);
  }
}
