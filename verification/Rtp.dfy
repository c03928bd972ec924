/** RTP packets (RFC 3550, section 5.1): the builder every sender uses and the
    header parsing every receiver starts with. */
module Rtp {
  import opened Bytes
  import opened Wrappers

  const MAX_PACKET: nat := 1200
  const HEADER: nat := 12

  /** What a packet says, with its two counters already reduced to their width. */
  datatype Packet = Packet(payloadType: nat, marker: bool, seqNumber: nat, timestamp: nat, ssrc: nat,
                           payload: seq<byte>)
  {
    predicate Valid() {
      payloadType < 128 && seqNumber < U16 && timestamp < U32 && ssrc < U32 && payload != []
    }
  }

  /** The bytes on the wire: version 2, no padding, no extension, no CSRC. */
  function Encode(p: Packet): (s: seq<byte>)
    requires p.Valid()
    ensures |s| == HEADER + |p.payload|
  {
    [0x80, (if p.marker then 0x80 else 0) + p.payloadType] + Be16(p.seqNumber) + Be32(p.timestamp) + Be32(p.ssrc)
    + p.payload
  }

  /** Payload types 64..95 are those RTCP would claim. */
  predicate IsRtp(rtp: seq<byte>) {
    |rtp| >= HEADER && (rtp[1] % 128 < 64 || rtp[1] % 128 >= 96)
  }

  /** Where the payload lies: after the CSRC list and the header extension, before the padding. */
  function PayloadSpan(rtp: seq<byte>): (r: Option<(nat, nat)>)
    ensures r.Some? ==> HEADER <= r.value.0 <= r.value.0 + r.value.1 <= |rtp|
  {
    if |rtp| < HEADER then None
    else
      var fixed := HEADER + rtp[0] % 16 * 4;
      var extended := Bit(rtp[0], 0x10);
      if extended && |rtp| < fixed + 4 then None
      else
        var offset := if extended then fixed + 4 + ReadBe16(rtp, fixed + 2) * 4 else fixed;
        if offset > |rtp| then None
        else
          var room := |rtp| - offset;
          var padding := if Bit(rtp[0], 0x20) && room > 0 then rtp[|rtp| - 1] else 0;
          Some((offset, if padding <= room then room - padding else room))
  }

  /** What the receiver reads out of a datagram; None when it drops it before the depacketiser. */
  function Decode(rtp: seq<byte>): (r: Option<Packet>)
    ensures r.Some? ==> r.value.Valid()
  {
    if !IsRtp(rtp) then None
    else
      match PayloadSpan(rtp)
      case None => None
      case Some((offset, len)) =>
        if len == 0 then None
        else Some(Packet(rtp[1] % 128, Bit(rtp[1], 0x80), ReadBe16(rtp, 2), ReadBe32(rtp, 4), ReadBe32(rtp, 8),
                         rtp[offset..offset + len]))
  }

  /** Stripping RTP gives back exactly what was built, unless the payload type reads as RTCP. */
  lemma DecodeEncode(p: Packet)
    requires p.Valid()
    ensures Decode(Encode(p)) == if 64 <= p.payloadType < 96 then None else Some(p)
  {
    var s := Encode(p);
    assert s[1] % 128 == p.payloadType && Bit(s[1], 0x80) == p.marker;
    assert s[0] % 16 == 0 && !Bit(s[0], 0x10) && !Bit(s[0], 0x20);
    assert s[2..4] == Be16(p.seqNumber) && s[4..8] == Be32(p.timestamp) && s[8..12] == Be32(p.ssrc);
    assert ReadBe16(s, 2) == p.seqNumber by {
      assert s[2] == s[2..4][0] && s[3] == s[2..4][1];
    }
    Be32Field(s, 4, p.timestamp);
    Be32Field(s, 8, p.ssrc);
    assert s[12..12 + |p.payload|] == p.payload;
  }

  /** The fixed header, byte by byte (RFC 3550, section 5.1). */
  lemma HeaderLayout(p: Packet)
    requires p.Valid()
    ensures var w := Encode(p);
            && w[0] == 128 && w[1] == p.payloadType + (if p.marker then 128 else 0)
            && Quad(0, 0, w[2], w[3]) == p.seqNumber
            && Quad(w[4], w[5], w[6], w[7]) == p.timestamp
            && Quad(w[8], w[9], w[10], w[11]) == p.ssrc
            && w[12..] == p.payload
  {
    var w, seq', ts, ssrc := Encode(p), Be16(p.seqNumber), Be32(p.timestamp), Be32(p.ssrc);
    BigEndian(p.seqNumber);
    BigEndian(p.timestamp);
    BigEndian(p.ssrc);
    hide Be16, Be32;
    assert w[2] == seq'[0] && w[3] == seq'[1];
    assert w[4] == ts[0] && w[5] == ts[1] && w[6] == ts[2] && w[7] == ts[3];
    assert w[8] == ssrc[0] && w[9] == ssrc[1] && w[10] == ssrc[2] && w[11] == ssrc[3];
  }

  /** A header with everything a sender may add: sources, an extension and padding. */
  predicate WellBuilt(fixed: seq<byte>, csrcs: seq<byte>, ext: seq<byte>, payload: seq<byte>, padding: seq<byte>) {
    && |fixed| == 12 && |csrcs| == 4 * (fixed[0] as int % 16)
    && (if fixed[0] / 16 % 2 == 1 then |ext| >= 4 && |ext| == 4 + 4 * (Quad(0, 0, ext[2], ext[3])) else ext == [])
    && (if fixed[0] / 32 % 2 == 1 then 0 < |padding| < 256 && padding[|padding| - 1] == |padding| else padding == [])
  }

  /** The receiver finds the payload between them (RFC 3550, sections 5.1 and 5.3.1). */
  lemma FindsPayload(fixed: seq<byte>, csrcs: seq<byte>, ext: seq<byte>, payload: seq<byte>, padding: seq<byte>)
    requires WellBuilt(fixed, csrcs, ext, payload, padding) && payload != []
    requires fixed[1] % 128 < 64 || fixed[1] % 128 >= 96
    ensures var p := Decode(fixed + csrcs + ext + payload + padding);
            p.Some? && p.value.payload == payload
            && p.value.payloadType == fixed[1] % 128 && (p.value.marker <==> fixed[1] >= 128)
            && p.value.seqNumber == Quad(0, 0, fixed[2], fixed[3])
            && p.value.timestamp == Quad(fixed[4], fixed[5], fixed[6], fixed[7])
            && p.value.ssrc == Quad(fixed[8], fixed[9], fixed[10], fixed[11])
  {
    hide ReadBe16, ReadBe32, PayloadSpan, Quad;
    var rtp := fixed + csrcs + ext + payload + padding;
    assert fixed + (csrcs + ext + payload + padding) == rtp;
    SpanOf(fixed, csrcs, ext, payload, padding);
    HeaderRead(fixed, rtp, csrcs + ext + payload + padding);
    PayloadRead(fixed + csrcs + ext, payload, padding);
  }

  lemma HeaderRead(fixed: seq<byte>, rtp: seq<byte>, rest: seq<byte>)
    requires |fixed| == 12 && rtp == fixed + rest
    ensures rtp[1] == fixed[1]
    ensures ReadBe16(rtp, 2) == Quad(0, 0, fixed[2], fixed[3])
    ensures ReadBe32(rtp, 4) == Quad(fixed[4], fixed[5], fixed[6], fixed[7])
    ensures ReadBe32(rtp, 8) == Quad(fixed[8], fixed[9], fixed[10], fixed[11])
  {
    ReadBigEndian(rtp, 2);
    ReadBigEndian(rtp, 4);
    ReadBigEndian(rtp, 8);
  }

  lemma PayloadRead(before: seq<byte>, payload: seq<byte>, padding: seq<byte>)
    ensures (before + payload + padding)[|before|..|before| + |payload|] == payload
  {
  }

  lemma SpanOf(fixed: seq<byte>, csrcs: seq<byte>, ext: seq<byte>, payload: seq<byte>, padding: seq<byte>)
    requires WellBuilt(fixed, csrcs, ext, payload, padding)
    ensures PayloadSpan(fixed + csrcs + ext + payload + padding) == Some((12 + |csrcs| + |ext|, |payload|))
  {
    var rtp := fixed + csrcs + ext + payload + padding;
    var at := 12 + |csrcs|;
    assert rtp[0] == fixed[0];
    if ext != [] {
      assert rtp[at + 2] == ext[2] && rtp[at + 3] == ext[3];
      ReadBigEndian(rtp, at + 2);
    }
    if padding != [] {
      assert rtp[|rtp| - 1] == padding[|padding| - 1];
    }
  }

  // ----- The sender's sequencing state -----

  /** The 90 kHz clock of the video payload formats. */
  const CLOCK: nat := 90000

  /** How far the timestamp moves from frame to frame. */
  function TimestampStep(fps: nat): nat
    requires fps > 0
  {
    CLOCK / fps
  }

  /** The clock of the video formats ticks 90000 times a second; the frame rate divides it, rounded down. */
  lemma NinetyKilohertz(fps: nat)
    requires fps > 0
    ensures TimestampStep(fps) * fps <= 90000 < (TimestampStep(fps) + 1) * fps
  {
    var q := CLOCK / fps;
    assert CLOCK == q * fps + CLOCK % fps;
    assert (q + 1) * fps == q * fps + fps;
  }

  /** The sender's counters, and the two constants it stamps on every packet. */
  datatype Clock = Clock(payloadType: nat, ssrc: nat, seqNumber: nat, timestamp: nat)
  {
    predicate Valid() {
      payloadType < 128 && ssrc < U32 && seqNumber < U16 && timestamp < U32
    }

    /** After `n > 0` packets of which the first moved the timestamp by `increment`. */
    function After(n: nat, increment: nat): Clock {
      if n == 0 then this
      else Clock(payloadType, ssrc, (seqNumber + n) % U16, (timestamp + increment) % U32)
    }
  }

  /** The packets of a run of payloads: consecutive numbers, one timestamp, and
      the marker on the last packet when `marker` is given. */
  function Run(c: Clock, payloads: seq<seq<byte>>, marker: bool, increment: nat): (ps: seq<Packet>)
    ensures |ps| == |payloads|
  {
    seq(|payloads|, (j: int) requires 0 <= j < |payloads| =>
      Packet(c.payloadType, marker && j == |payloads| - 1, (c.seqNumber + j) % U16, (c.timestamp + increment) % U32,
             c.ssrc, payloads[j]))
  }

  /** Payloads a packet can carry. */
  predicate Fit(payloads: seq<seq<byte>>) {
    forall j | 0 <= j < |payloads| :: 0 < |payloads[j]| <= MAX_PACKET - HEADER
  }

  lemma RunValid(c: Clock, payloads: seq<seq<byte>>, marker: bool, increment: nat)
    requires c.Valid() && Fit(payloads)
    ensures forall j | 0 <= j < |payloads| :: Run(c, payloads, marker, increment)[j].Valid()
  {
  }

  function EncodeAll(ps: seq<Packet>): (s: seq<seq<byte>>)
    requires forall j | 0 <= j < |ps| :: ps[j].Valid()
    ensures |s| == |ps|
    ensures forall j | 0 <= j < |ps| :: s[j] == Encode(ps[j])
  {
    seq(|ps|, (j: int) requires 0 <= j < |ps| => Encode(ps[j]))
  }

  /** The datagrams of a run. */
  function Wire(c: Clock, payloads: seq<seq<byte>>, marker: bool, increment: nat): (s: seq<seq<byte>>)
    requires c.Valid() && Fit(payloads)
    ensures |s| == |payloads|
  {
    RunValid(c, payloads, marker, increment);
    EncodeAll(Run(c, payloads, marker, increment))
  }

  lemma SeqShift(first: nat, a: nat, b: nat)
    ensures ((first + a) % U16 + b) % U16 == (first + a + b) % U16
  {
  }

  /** The packetiser contract, shared by the three codecs: what a frame sent as `payloads` looks like on the wire. */
  lemma FrameContract(c: Clock, payloads: seq<seq<byte>>, increment: nat)
    requires c.Valid() && Fit(payloads)
    ensures forall j | 0 <= j < |payloads| ::
              var w := Wire(c, payloads, true, increment)[j];
              && |w| <= MAX_PACKET
              && ReadBe16(w, 2) == (c.seqNumber + j) % U16
              && ReadBe32(w, 4) == (c.timestamp + increment) % U32
              && (Bit(w[1], 0x80) <==> j == |payloads| - 1)
              && w[HEADER..] == payloads[j]
  {
    var ps := Run(c, payloads, true, increment);
    RunValid(c, payloads, true, increment);
    forall j | 0 <= j < |payloads|
      ensures var w := Wire(c, payloads, true, increment)[j];
              && |w| <= MAX_PACKET
              && ReadBe16(w, 2) == (c.seqNumber + j) % U16
              && ReadBe32(w, 4) == (c.timestamp + increment) % U32
              && (Bit(w[1], 0x80) <==> j == |payloads| - 1)
              && w[HEADER..] == payloads[j]
    {
      var w := Encode(ps[j]);
      assert Wire(c, payloads, true, increment)[j] == w;
      assert w[4..8] == Be32(ps[j].timestamp);
      Be32Field(w, 4, ps[j].timestamp);
      assert w[2..4] == Be16(ps[j].seqNumber);
      assert w[2] == w[2..4][0] && w[3] == w[2..4][1];
    }
  }

  /** imquic_roq_rtp_state: the counters move with every packet built. */
  class RtpState {
    const payloadType: byte
    const ssrc: nat
    var seqNumber: nat
    var timestamp: nat

    predicate Valid()
      reads this
    {
      View().Valid()
    }

    /** The payload type is truncated to the seven bits of its header field. */
    function View(): Clock
      reads this
    {
      Clock(payloadType % 128, ssrc, seqNumber, timestamp)
    }

    constructor (payloadType: byte, ssrc: nat, seqNumber: nat, timestamp: nat)
      requires ssrc < U32 && seqNumber < U16 && timestamp < U32
      ensures Valid() && View() == Clock(payloadType % 128, ssrc, seqNumber, timestamp)
    {
      this.payloadType, this.ssrc := payloadType, ssrc;
      this.seqNumber, this.timestamp := seqNumber, timestamp;
    }

    /** Writes one packet at the start of `buffer` and returns its length, or
        writes nothing, keeps the counters and returns 0. */
    method BuildPacket(buffer: array<byte>, payload: seq<byte>, marker: bool, increment: nat) returns (n: nat)
      requires Valid()
      modifies this`seqNumber, this`timestamp, buffer
      ensures Valid()
      ensures n == if payload == [] || buffer.Length < HEADER + |payload| then 0 else HEADER + |payload|
      ensures n == 0 ==> View() == old(View()) && buffer[..] == old(buffer[..])
      ensures n > 0 ==> View() == old(View()).After(1, increment)
      ensures n > 0 ==> buffer[n..] == old(buffer[n..])
      ensures n > 0 ==>
                buffer[..n] == Encode(Packet(old(View()).payloadType, marker, old(View()).seqNumber,
                                             (old(View()).timestamp + increment) % U32, ssrc, payload))
    {
      if payload == [] || buffer.Length < HEADER + |payload| {
        return 0;
      }
      var number := seqNumber;
      seqNumber := (seqNumber + 1) % U16;
      timestamp := (timestamp + increment) % U32;
      var header := [0x80, (if marker then 0x80 else 0) + payloadType % 128]
                    + Be16(number) + Be32(timestamp) + Be32(ssrc);
      forall i | 0 <= i < HEADER { buffer[i] := header[i]; }
      forall i | 0 <= i < |payload| { buffer[HEADER + i] := payload[i]; }
      assert buffer[..HEADER + |payload|] == header + payload;
      return HEADER + |payload|;
    }
  }
}
