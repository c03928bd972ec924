/** The VP8 (RFC 7741, section 4.2) and VP9 (RFC 9628, section 4.2) packetisers
    and depacketisers, and what a frame becomes when packets are lost. */
module Vpx {
  import opened Bytes
  import opened Wrappers
  import opened Rtp
  import opened Delivery
  import opened PacketSinks

  datatype Codec = VP8 | VP9

  /** Room for frame bytes in a packet: MAX_PACKET less the header and one byte of descriptor. */
  const CHUNK: nat := 1187
  /** The display drops larger frames. */
  const FRAME_MAX: nat := 512 * 1024

  // ----- Sender -----

  function Descriptor(codec: Codec, first: bool, last: bool, keyframe: bool): byte {
    match codec
    case VP8 => (if keyframe && first then 0 else 0x20) + (if first then 0x10 else 0)
    case VP9 => (if keyframe then 0 else 0x40) + (if first then 0x08 else 0) + (if last then 0x04 else 0)
  }

  /** Where chunk `j` of a frame of `len` bytes starts. */
  function Offset(len: nat, j: nat): (o: nat)
    ensures o <= len
  {
    if j * CHUNK <= len then j * CHUNK else len
  }

  lemma OffsetStep(len: nat, j: nat)
    ensures Offset(len, j) <= Offset(len, j + 1) <= Offset(len, j) + CHUNK
    ensures Offset(len, j) < len ==> Offset(len, j) < Offset(len, j + 1)
  {
  }

  function ChunkCount(len: nat): nat {
    (len + CHUNK - 1) / CHUNK
  }

  /** The payloads of a frame: its chunks, each behind its descriptor. */
  function Payloads(codec: Codec, frame: seq<byte>, keyframe: bool): (r: seq<seq<byte>>)
    ensures |r| == ChunkCount(|frame|) && Fit(r)
  {
    var n := ChunkCount(|frame|);
    var r := seq(n, (j: int) requires 0 <= j < n =>
      OffsetStep(|frame|, j);
      [Descriptor(codec, j == 0, j == n - 1, keyframe)] + frame[Offset(|frame|, j)..Offset(|frame|, j + 1)]);
    assert Fit(r) by {
      forall j | 0 <= j < n
        ensures 0 < |r[j]| <= MAX_PACKET - HEADER
      {
        OffsetStep(|frame|, j);
      }
    }
    r
  }

  /** The chunk loop's own bookkeeping: the chunk it cuts at `Offset(j)` is payload `j`. */
  lemma ChunkAt(codec: Codec, frame: seq<byte>, keyframe: bool, j: nat)
    requires j <= ChunkCount(|frame|)
    ensures var o := Offset(|frame|, j);
            && (o < |frame| <==> j < ChunkCount(|frame|))
            && (o == 0 <==> j == 0 || frame == [])
            && (o < |frame| ==>
                  var n := if |frame| - o > CHUNK then CHUNK else |frame| - o;
                  && Offset(|frame|, j + 1) == o + n
                  && Payloads(codec, frame, keyframe)[j]
                     == [Descriptor(codec, o == 0, o + n >= |frame|, keyframe)] + frame[o..o + n])
  {
    assert CHUNK == 1187;
  }

  /** The descriptor byte of every packet sent. VP8: N unless it is the first packet of a key frame, S on
      the first (RFC 7741). VP9: P unless it is a key frame, B on the first, E on the last (RFC 9628). */
  lemma SentDescriptors(codec: Codec, frame: seq<byte>, keyframe: bool, j: nat)
    requires j < |Payloads(codec, frame, keyframe)|
    ensures var payloads := Payloads(codec, frame, keyframe);
            var b := payloads[j][0];
            match codec
            case VP8 => b == (if keyframe && j == 0 then 0 else 0x20) + (if j == 0 then 0x10 else 0)
            case VP9 =>
              b == (if keyframe then 0 else 0x40) + (if j == 0 then 0x08 else 0)
                   + if j == |payloads| - 1 then 0x04 else 0
  {
  }

  /** What follows the descriptors is the frame, in packets of the maximal size but for the last. */
  lemma SentChunks(codec: Codec, frame: seq<byte>, keyframe: bool, j: nat)
    requires j < |Payloads(codec, frame, keyframe)|
    ensures var payloads := Payloads(codec, frame, keyframe);
            && 1187 * j + |payloads[j]| - 1 <= |frame|
            && payloads[j][1..] == frame[1187 * j..1187 * j + |payloads[j]| - 1]
            && (j < |payloads| - 1 ==> 12 + |payloads[j]| == 1200)
            && (j == |payloads| - 1 ==> 1187 * j + |payloads[j]| - 1 == |frame|)
  {
    ChunkAt(codec, frame, keyframe, j);
    ChunkAt(codec, frame, keyframe, j + 1);
  }

  function FrameOf(codec: Codec, frame: seq<byte>, keyframe: bool, fps: nat): Frame
    requires fps > 0
  {
    Frame(Payloads(codec, frame, keyframe), TimestampStep(fps))
  }

  /** Sends a frame. The short path for a frame that fits one packet has the contract of the chunk loop. */
  method Packetize(codec: Codec, state: RtpState, frame: seq<byte>, fps: int, keyframe: bool, sink: PacketSink)
    returns (ok: bool)
    requires state.Valid()
    modifies state`seqNumber, state`timestamp, sink`sent
    ensures frame == [] || fps <= 0 ==>
              !ok && state.Valid() && state.View() == old(state.View()) && sink.sent == old(sink.sent)
    ensures frame != [] && fps > 0 ==>
              var f := FrameOf(codec, frame, keyframe, fps);
              Over(state, sink, old(state.View()), old(sink.sent), f.payloads, true, f.increment, ok)
  {
    if frame == [] || fps <= 0 {
      return false;
    }
    var increment := TimestampStep(fps);
    if |frame| <= CHUNK {
      hide Descriptor, Out, Over, Payloads;
      ghost var c, payloads, before := state.View(), Payloads(codec, frame, keyframe), sink.sent;
      ChunkAt(codec, frame, keyframe, 0);
      ChunkAt(codec, frame, keyframe, 1);
      assert frame[0..|frame|] == frame;
      OutNone(state, sink, payloads, true, increment);
      ok := SendAt(state, sink, [Descriptor(codec, true, true, keyframe)] + frame, true, increment,
                   c, before, payloads, true, increment, 0);
      if ok {
        OutAll(state, sink, c, before, payloads, true, increment);
      }
    } else {
      ok := SendChunks(codec, state, frame, increment, keyframe, sink);
    }
  }

  method SendChunks(codec: Codec, state: RtpState, frame: seq<byte>, increment: nat, keyframe: bool, sink: PacketSink)
    returns (ok: bool)
    requires state.Valid() && frame != []
    modifies state`seqNumber, state`timestamp, sink`sent
    ensures Over(state, sink, old(state.View()), old(sink.sent), Payloads(codec, frame, keyframe), true, increment, ok)
  {
    hide Payloads, Offset, ChunkCount, Descriptor, Out, Over;
    ghost var c, payloads, before := state.View(), Payloads(codec, frame, keyframe), sink.sent;
    OutNone(state, sink, payloads, true, increment);
    ChunkAt(codec, frame, keyframe, 0);
    ChunkAt(codec, frame, keyframe, |payloads|);
    var offset := 0;
    ghost var j := 0;
    while offset < |frame|
      invariant j <= |payloads| && offset == Offset(|frame|, j) && (offset < |frame| <==> j < |payloads|)
      invariant Out(state, sink, c, before, payloads, true, increment, j)
    {
      var chunk := if |frame| - offset > CHUNK then CHUNK else |frame| - offset;
      var first := offset == 0;
      var last := offset + chunk >= |frame|;
      var payload := [Descriptor(codec, first, last, keyframe)] + frame[offset..offset + chunk];
      ChunkAt(codec, frame, keyframe, j);
      ChunkAt(codec, frame, keyframe, j + 1);
      ok := SendAt(state, sink, payload, last, if first then increment else 0,
                   c, before, payloads, true, increment, j);
      if !ok {
        return false;
      }
      offset := offset + chunk;
      j := j + 1;
    }
    OutAll(state, sink, c, before, payloads, true, increment);
    return true;
  }

  // ----- Receiver -----

  /** Length of the payload descriptor; 0 when the payload is too short for it. */
  function DescriptorLen(codec: Codec, p: seq<byte>): (n: nat)
    ensures n <= |p|
  {
    if p == [] then 0
    else
      match codec
      case VP8 =>
        if !Bit(p[0], 0x80) then 1
        else if |p| < 2 then 0
        else if Bit(p[1], 0x80) && |p| <= 2 then 0
        else
          var n := 2 + (if Bit(p[1], 0x80) then if Bit(p[2], 0x80) then 2 else 1 else 0)
                     + (if Bit(p[1], 0x40) then 1 else 0)
                     + (if Bit(p[1], 0x20) || Bit(p[1], 0x10) then 1 else 0);
          if n <= |p| then n else 0
      case VP9 =>
        if Bit(p[0], 0x80) && |p| < 2 then 0
        else
          var n := 1 + (if Bit(p[0], 0x80) then if Bit(p[1], 0x80) then 2 else 1 else 0)
                     + (if Bit(p[0], 0x20) && !Bit(p[0], 0x10) then 1 else 0);
          if n <= |p| then n else 0
  }

  /** The VP8 descriptor (RFC 7741, section 4.2): one byte; with X a second, then a picture id of one byte
      or two as I and its M say, a byte for L, and one for T or K or both. Nothing is read of a shorter payload. */
  lemma Vp8DescriptorLen(p: seq<byte>)
    ensures var n := DescriptorLen(VP8, p);
            if p == [] then n == 0
            else if p[0] < 128 then n == 1
            else if |p| == 1 || (p[1] >= 128 && |p| == 2) then n == 0
            else
              var x := p[1];
              var id := if x < 128 then 0 else if p[2] < 128 then 1 else 2;
              var tl0 := if x / 64 % 2 == 1 then 1 else 0;
              var tk := if x / 16 % 4 > 0 then 1 else 0;
              n == if 2 + id + tl0 + tk <= |p| then 2 + id + tl0 + tk else 0
  {
    if |p| >= 2 {
      DescriptorByte(p[1]);
    }
  }

  lemma DescriptorByte(b: byte)
    ensures b / 16 % 4 == (if Bit(b, 0x20) then 2 else 0) + if Bit(b, 0x10) then 1 else 0
    ensures b / 64 % 2 == 1 <==> Bit(b, 0x40)
    ensures b >= 128 <==> Bit(b, 0x80)
  {
    assert b / 32 == b / 16 / 2;
    LowTwoBits(b / 16);
  }

  lemma LowTwoBits(y: nat)
    ensures y % 4 == y / 2 % 2 * 2 + y % 2
  {
  }

  /** The VP9 descriptor (RFC 9628, section 4.2) as the program reads it: one byte, a picture id of one
      byte or two with I, and one more with L but not F. */
  lemma Vp9DescriptorLen(p: seq<byte>)
    ensures var n := DescriptorLen(VP9, p);
            if p == [] || (p[0] >= 128 && |p| == 1) then n == 0
            else
              var id := if p[0] < 128 then 0 else if p[1] < 128 then 1 else 2;
              var layers := if p[0] / 16 % 4 == 2 then 1 else 0;
              n == if 1 + id + layers <= |p| then 1 + id + layers else 0
  {
    if p != [] {
      DescriptorByte(p[0]);
      if |p| >= 2 {
        DescriptorByte(p[1]);
      }
    }
  }

  /** The receiver on any packet: what it ignores, what starts a frame, what ends it, and what empties
      the buffer first. */
  lemma PacketRule(codec: Codec, s: State, p: Packet)
    ensures var n := DescriptorLen(codec, p.payload);
            if n == 0 || n == |p.payload| then Feed(codec, s, p) == (s, [])
            else
              var b := p.payload[0];
              var starts := if codec.VP8? then b / 16 % 2 == 1 else b / 8 % 2 == 1;
              var ends := if codec.VP8? then p.marker else b / 4 % 2 == 1 || (p.marker && s.inFrame);
              var gap := s.lastTs != p.timestamp || (s.inFrame && p.seqNumber != (s.lastSeq + 1) % 65536);
              var frame := if starts || gap then p.payload[n..] else s.frame + p.payload[n..];
              Feed(codec, s, p) == if !ends then (State(frame, p.timestamp, p.seqNumber, true), [])
                                   else (State([], p.timestamp, p.seqNumber, false),
                                         if |frame| <= 524288 then [frame] else [])
  {
    hide DescriptorLen;
    var data := p.payload[DescriptorLen(codec, p.payload)..];
    var none: seq<byte> := [];
    assert none + data == data;
  }

  datatype State = State(frame: seq<byte>, lastTs: nat, lastSeq: nat, inFrame: bool)

  predicate Starts(codec: Codec, p: seq<byte>)
    requires p != []
  {
    match codec case VP8 => Bit(p[0], 0x10) case VP9 => Bit(p[0], 0x08)
  }

  predicate Ends(codec: Codec, p: seq<byte>, marker: bool, inFrame: bool)
    requires p != []
  {
    match codec case VP8 => marker case VP9 => Bit(p[0], 0x04) || (marker && inFrame)
  }

  /** One packet through the depacketiser: the new state, and the frame it completes. */
  function Depay(codec: Codec, s: State, p: Packet): (State, Option<seq<byte>>) {
    var h := DescriptorLen(codec, p.payload);
    if h == 0 || h >= |p.payload| then (s, None)
    else
      var end := Ends(codec, p.payload, p.marker, s.inFrame);
      var cut := s.lastTs != p.timestamp || (s.inFrame && (s.lastSeq + 1) % U16 != p.seqNumber);
      var frame := (if cut || Starts(codec, p.payload) then [] else s.frame) + p.payload[h..];
      (State(frame, p.timestamp, p.seqNumber, !end), if end then Some(frame) else None)
  }

  /** The caller's side: a completed frame is decoded unless it is oversized, and the buffer emptied. */
  function Feed(codec: Codec, s: State, p: Packet): (State, seq<seq<byte>>) {
    match Depay(codec, s, p)
    case (t, None) => (t, [])
    case (t, Some(frame)) => (t.(frame := [], inFrame := false), Decodable(frame))
  }

  function Decodable(frame: seq<byte>): seq<seq<byte>> {
    if |frame| <= FRAME_MAX then [frame] else []
  }

  function Stepper(codec: Codec): (State, Packet) -> (State, seq<seq<byte>>) {
    (s, p) => Feed(codec, s, p)
  }

  /** A whole run of packets: the final state and the frames handed to the decoder. */
  function FeedAll(codec: Codec, s: State, ps: seq<Packet>): (State, seq<seq<byte>>) {
    Fold(Stepper(codec), s, ps)
  }

  /** imquic_roq_vp8_depay and imquic_roq_vp9_depay: the same fields, two entry points. */
  class Depacketizer {
    var frame: seq<byte>
    var lastTs: nat
    var lastSeq: nat
    var inFrame: bool

    function View(): State
      reads this
    {
      State(frame, lastTs, lastSeq, inFrame)
    }

    constructor ()
      ensures View() == State([], 0, 0, false)
    {
      frame, lastTs, lastSeq, inFrame := [], 0, 0, false;
    }

    method Reset()
      modifies this
      ensures View() == old(View()).(frame := [], inFrame := false)
    {
      frame, inFrame := [], false;
    }

    method DepayPacket(codec: Codec, p: Packet) returns (out: Option<seq<byte>>)
      requires p.Valid()
      modifies this
      ensures (View(), out) == Depay(codec, old(View()), p)
    {
      var h := DescriptorLen(codec, p.payload);
      if h == 0 || h >= |p.payload| {
        return None;
      }
      var start := Starts(codec, p.payload);
      var end := Ends(codec, p.payload, p.marker, inFrame);
      if lastTs != p.timestamp {
        Reset();
        lastTs := p.timestamp;
      } else if inFrame && (lastSeq + 1) % U16 != p.seqNumber {
        Reset();
      }
      lastSeq := p.seqNumber;
      if start || (end && |frame| == 0) {
        Reset();
      }
      frame := frame + p.payload[h..];
      inFrame := true;
      if !end {
        return None;
      }
      inFrame := false;
      return Some(frame);
    }

    /** A datagram from the network; the frames for the decoder come back. */
    method FeedDatagram(codec: Codec, rtp: seq<byte>) returns (out: seq<seq<byte>>)
      modifies this
      ensures match Decode(rtp)
              case None => View() == old(View()) && out == []
              case Some(p) => (View(), out) == Feed(codec, old(View()), p)
    {
      match Decode(rtp) {
        case None => return [];
        case Some(p) =>
          var done := DepayPacket(codec, p);
          match done {
            case None => return [];
            case Some(f) =>
              Reset();
              return Decodable(f);
          }
      }
    }

    /** Datagrams in arrival order; all the frames for the decoder come back. */
    method Receive(codec: Codec, datagrams: seq<seq<byte>>) returns (out: seq<seq<byte>>)
      modifies this
      ensures (View(), out) == FeedAll(codec, old(View()), Parse(datagrams))
    {
      hide Feed, Decode;
      out := [];
      for i := 0 to |datagrams|
        invariant (View(), out) == FeedAll(codec, old(View()), Parse(datagrams[..i]))
      {
        var more := FeedDatagram(codec, datagrams[i]);
        assert datagrams[..i + 1] == datagrams[..i] + [datagrams[i]];
        ParseSnoc(datagrams[..i], datagrams[i]);
        if Decode(datagrams[i]).Some? {
          FeedSnoc(codec, old(View()), Parse(datagrams[..i]), Decode(datagrams[i]).value);
        } else {
          assert Parse(datagrams[..i]) + [] == Parse(datagrams[..i]) && out + more == out;
        }
        out := out + more;
      }
      assert datagrams[..|datagrams|] == datagrams;
    }
  }

  // ----- What loss leaves of a frame -----

  /** Packet `p` carries chunk `j` of the `n` chunks of frame `f`; chunk 0 is numbered `first`. */
  predicate IsChunk(codec: Codec, p: Packet, f: seq<byte>, n: nat, ts: nat, first: nat, j: nat) {
    && DescriptorLen(codec, p.payload) == 1 && |p.payload| > 1
    && Offset(|f|, j) <= Offset(|f|, j + 1)
    && p.payload[1..] == f[Offset(|f|, j)..Offset(|f|, j + 1)]
    && (Starts(codec, p.payload) <==> j == 0)
    && (p.marker <==> j == n - 1)
    && Ends(codec, p.payload, p.marker, true) == Ends(codec, p.payload, p.marker, false) == p.marker
    && p.timestamp == ts
    && p.seqNumber == (first + j) % U16
  }

  lemma DescriptorBits(codec: Codec, first: bool, last: bool, keyframe: bool, rest: seq<byte>)
    ensures var p := [Descriptor(codec, first, last, keyframe)] + rest;
            && DescriptorLen(codec, p) == 1
            && (Starts(codec, p) <==> first)
            && Ends(codec, p, last, true) == Ends(codec, p, last, false) == last
  {
  }

  lemma PayloadsAreChunks(codec: Codec, c: Clock, f: seq<byte>, keyframe: bool, increment: nat, j: nat)
    requires j < ChunkCount(|f|)
    ensures IsChunk(codec, Run(c, Payloads(codec, f, keyframe), true, increment)[j], f, ChunkCount(|f|),
                    (c.timestamp + increment) % U32, c.seqNumber, j)
  {
    var n := ChunkCount(|f|);
    var chunk := f[Offset(|f|, j)..Offset(|f|, j + 1)];
    DescriptorBits(codec, j == 0, j == n - 1, keyframe, chunk);
    var p := Run(c, Payloads(codec, f, keyframe), true, increment)[j];
    assert p.payload[1..] == chunk;
  }

  /** Sixteen-bit numbers of one frame tell a gap from no gap. */
  lemma FrameStep(first: nat, l: nat, i: nat)
    requires 0 < i <= U16 && l < i
    ensures l > 0 ==> (((first + l - 1) % U16 + 1) % U16 == (first + i - 1) % U16 <==> l == i - 1)
  {
  }

  /** The state after the part of a frame that `mask` keeps of its first `i` packets:
      the buffer holds the gap-free run of received chunks that ends with the last one. */
  function Progress(s: State, f: seq<byte>, ts: nat, first: nat, mask: seq<bool>, i: nat): State
    requires i <= |mask|
  {
    var l := LastKept(mask, i);
    if l == 0 then s
    else State(f[Offset(|f|, TailStart(mask, l))..Offset(|f|, l)], ts, (first + l - 1) % U16, true)
  }

  lemma DepayChunk(codec: Codec, s: State, p: Packet, f: seq<byte>, n: nat, ts: nat, first: nat, j: nat)
    requires IsChunk(codec, p, f, n, ts, first, j)
    ensures p.marker <==> j == n - 1
    ensures var cut := s.lastTs != ts || (s.inFrame && (s.lastSeq + 1) % U16 != (first + j) % U16) || j == 0;
            var frame := (if cut then [] else s.frame) + f[Offset(|f|, j)..Offset(|f|, j + 1)];
            Depay(codec, s, p)
            == (State(frame, ts, (first + j) % U16, !p.marker), if p.marker then Some(frame) else None)
  {
    hide DescriptorLen, Starts, Ends, Bit, Offset;
  }

  lemma Runs(f: seq<byte>, mask: seq<bool>, j: nat)
    requires j < |mask| && mask[j]
    ensures var l, r := LastKept(mask, j), TailStart(mask, j + 1);
            && Offset(|f|, r) <= Offset(|f|, j) <= Offset(|f|, j + 1)
            && if l == j then
                 && r == TailStart(mask, j)
                 && f[Offset(|f|, r)..Offset(|f|, j)] + f[Offset(|f|, j)..Offset(|f|, j + 1)]
                    == f[Offset(|f|, r)..Offset(|f|, j + 1)]
               else r == j
  {
    OffsetStep(|f|, j);
  }

  /** The next received packet either continues the gap-free run or starts a new one. */
  lemma NextPacket(codec: Codec, s: State, p: Packet, f: seq<byte>, ts: nat, first: nat, mask: seq<bool>, j: nat)
    requires j < |mask| <= U16 && mask[j] && s.lastTs != ts
    requires IsChunk(codec, p, f, |mask|, ts, first, j)
    ensures Offset(|f|, TailStart(mask, j + 1)) <= Offset(|f|, j + 1)
    ensures var run := f[Offset(|f|, TailStart(mask, j + 1))..Offset(|f|, j + 1)];
            Depay(codec, Progress(s, f, ts, first, mask, j), p)
            == (State(run, ts, (first + j) % U16, !p.marker), if p.marker then Some(run) else None)
    ensures p.marker <==> j == |mask| - 1
  {
    hide Depay, IsChunk, Offset, TailStart, LastKept;
    var l := LastKept(mask, j);
    FrameStep(first, l, j + 1);
    DepayChunk(codec, Progress(s, f, ts, first, mask, j), p, f, |mask|, ts, first, j);
    Runs(f, mask, j);
    var chunk := f[Offset(|f|, j)..Offset(|f|, j + 1)];
    assert [] + chunk == chunk;
  }

  lemma FeedSnoc(codec: Codec, s: State, ps: seq<Packet>, p: Packet)
    ensures FeedAll(codec, s, ps + [p])
         == (Feed(codec, FeedAll(codec, s, ps).0, p).0,
             FeedAll(codec, s, ps).1 + Feed(codec, FeedAll(codec, s, ps).0, p).1)
  {
    hide Fold, Feed;
    FoldSnoc(Stepper(codec), s, ps, p);
  }

  lemma {:induction false} FramePrefix(codec: Codec, s: State, ps: seq<Packet>, f: seq<byte>, ts: nat, first: nat,
                                       mask: seq<bool>, i: nat)
    requires |ps| == |mask| <= U16 && i < |mask| && s.lastTs != ts
    requires forall j | 0 <= j < |ps| :: IsChunk(codec, ps[j], f, |ps|, ts, first, j)
    ensures FeedAll(codec, s, Keep(ps[..i], mask[..i])) == (Progress(s, f, ts, first, mask, i), [])
    decreases i
  {
    hide IsChunk, Depay, Progress, Keep, FeedAll, TailStart, LastKept;
    if i == 0 {
      assert ps[..0] == [] && mask[..0] == [];
      NothingYet(codec, s, f, ts, first, mask);
    } else {
      FramePrefix(codec, s, ps, f, ts, first, mask, i - 1);
      KeepSnoc(ps[..i], mask[..i]);
      assert ps[..i][..i - 1] == ps[..i - 1] && mask[..i][..i - 1] == mask[..i - 1];
      ProgressStep(s, f, ts, first, mask, i - 1);
      if mask[i - 1] {
        assert IsChunk(codec, ps[i - 1], f, |ps|, ts, first, i - 1);
        NextPacket(codec, s, ps[i - 1], f, ts, first, mask, i - 1);
        FeedSnoc(codec, s, Keep(ps[..i - 1], mask[..i - 1]), ps[i - 1]);
        assert Feed(codec, Progress(s, f, ts, first, mask, i - 1), ps[i - 1])
            == (Progress(s, f, ts, first, mask, i), []);
        var none: seq<seq<byte>> := [];
        assert none + none == none;
      }
    }
  }

  lemma ProgressStep(s: State, f: seq<byte>, ts: nat, first: nat, mask: seq<bool>, j: nat)
    requires j < |mask|
    ensures Progress(s, f, ts, first, mask, j + 1)
         == if mask[j] then
              State(f[Offset(|f|, TailStart(mask, j + 1))..Offset(|f|, j + 1)], ts, (first + j) % U16, true)
            else Progress(s, f, ts, first, mask, j)
  {
  }

  lemma NothingYet(codec: Codec, s: State, f: seq<byte>, ts: nat, first: nat, mask: seq<bool>)
    ensures FeedAll(codec, s, Keep([], [])) == (Progress(s, f, ts, first, mask, 0), [])
  {
  }

  /** What is left of a frame: from the start of the maximal gap-free tail, if its last packet arrives. */
  function Survivor(f: seq<byte>, mask: seq<bool>): seq<seq<byte>> {
    if mask == [] || !mask[|mask| - 1] then [] else Decodable(f[Offset(|f|, TailStart(mask, |mask|))..])
  }

  lemma FrameUnderLoss(codec: Codec, s: State, ps: seq<Packet>, f: seq<byte>, ts: nat, first: nat, mask: seq<bool>)
    requires f != [] && |ps| == |mask| == ChunkCount(|f|) <= U16 && s.lastTs != ts
    requires forall j | 0 <= j < |ps| :: IsChunk(codec, ps[j], f, |ps|, ts, first, j)
    ensures FeedAll(codec, s, Keep(ps, mask)).1 == Survivor(f, mask)
    ensures FeedAll(codec, s, Keep(ps, mask)).0.lastTs in {s.lastTs, ts}
  {
    hide IsChunk, Depay, Progress, Keep, TailStart, FeedAll;
    var n := |ps| - 1;
    FramePrefix(codec, s, ps, f, ts, first, mask, n);
    KeepSnoc(ps, mask);
    if mask[n] {
      FrameEnds(codec, s, ps, f, ts, first, mask);
    } else {
      ProgressTs(s, f, ts, first, mask, n);
    }
  }

  /** The last packet arrives. */
  lemma FrameEnds(codec: Codec, s: State, ps: seq<Packet>, f: seq<byte>, ts: nat, first: nat, mask: seq<bool>)
    requires f != [] && |ps| == |mask| == ChunkCount(|f|) <= U16 && s.lastTs != ts && mask[|mask| - 1]
    requires forall j | 0 <= j < |ps| :: IsChunk(codec, ps[j], f, |ps|, ts, first, j)
    requires var n := |ps| - 1;
             FeedAll(codec, s, Keep(ps[..n], mask[..n])) == (Progress(s, f, ts, first, mask, n), [])
    ensures FeedAll(codec, s, Keep(ps, mask)).1 == Survivor(f, mask)
    ensures FeedAll(codec, s, Keep(ps, mask)).0.lastTs == ts
  {
    hide IsChunk, Depay, Progress, Keep, TailStart, FeedAll, Decodable;
    var n := |ps| - 1;
    KeepSnoc(ps, mask);
    assert IsChunk(codec, ps[n], f, |ps|, ts, first, n);
    NextPacket(codec, s, ps[n], f, ts, first, mask, n);
    FeedSnoc(codec, s, Keep(ps[..n], mask[..n]), ps[n]);
    OffsetAtEnd(|f|);
    var from := Offset(|f|, TailStart(mask, |mask|));
    assert f[from..|f|] == f[from..];
    var none: seq<seq<byte>> := [];
    assert none + Decodable(f[from..]) == Decodable(f[from..]);
  }

  lemma OffsetAtEnd(len: nat)
    ensures Offset(len, ChunkCount(len)) == len
  {
  }

  lemma ProgressTs(s: State, f: seq<byte>, ts: nat, first: nat, mask: seq<bool>, i: nat)
    requires i <= |mask|
    ensures Progress(s, f, ts, first, mask, i).lastTs in {s.lastTs, ts}
  {
  }

  // ----- Whole streams -----

  datatype Picture = Picture(bytes: seq<byte>, keyframe: bool, fps: nat)
  {
    /** A frame the sender accepts, in few enough packets for 16-bit numbers to order them. */
    predicate Valid() {
      bytes != [] && fps > 0 && ChunkCount(|bytes|) <= U16
    }
  }

  function Frames(codec: Codec, pics: seq<Picture>): (r: seq<Frame>)
    requires forall k | 0 <= k < |pics| :: pics[k].Valid()
    ensures |r| == |pics|
  {
    seq(|pics|, (k: int) requires 0 <= k < |pics| && pics[k].Valid() =>
      FrameOf(codec, pics[k].bytes, pics[k].keyframe, pics[k].fps))
  }

  function Survivors(pics: seq<Picture>, masks: seq<seq<bool>>): seq<seq<byte>>
    requires |pics| == |masks|
  {
    if pics == [] then [] else Survivor(pics[0].bytes, masks[0]) + Survivors(pics[1..], masks[1..])
  }

  lemma {:induction false} PacketsUnderLoss(codec: Codec, s: State, c: Clock, pics: seq<Picture>,
                                            masks: seq<seq<bool>>)
    requires forall k | 0 <= k < |pics| :: pics[k].Valid()
    requires MasksFit(masks, Frames(codec, pics)) && DistinctTimestamps(s.lastTs, c, Frames(codec, pics))
    ensures FeedAll(codec, s, Deliver(c, Frames(codec, pics), masks)).1 == Survivors(pics, masks)
    decreases |pics|
  {
    hide Depay, IsChunk, Payloads, Survivor, Run, TimestampOf;
    if pics != [] {
      var frames, p := Frames(codec, pics), pics[0];
      var increment, next := frames[0].increment, NextClock(c, frames[0]);
      var ts := (c.timestamp + increment) % U32;
      var ps := Run(c, frames[0].payloads, true, increment);
      assert frames[1..] == Frames(codec, pics[1..]);
      DistinctTail(s.lastTs, c, frames);
      FirstTimestamp(s.lastTs, c, frames);
      forall j | 0 <= j < |ps|
        ensures IsChunk(codec, ps[j], p.bytes, |ps|, ts, c.seqNumber, j)
      {
        PayloadsAreChunks(codec, c, p.bytes, p.keyframe, increment, j);
      }
      FrameUnderLoss(codec, s, ps, p.bytes, ts, c.seqNumber, masks[0]);
      var t := FeedAll(codec, s, Keep(ps, masks[0])).0;
      PacketsUnderLoss(codec, t, next, pics[1..], masks[1..]);
      FoldAppend(Stepper(codec), s, Keep(ps, masks[0]), Deliver(next, frames[1..], masks[1..]));
    }
  }

  /** Whatever part of a stream arrives in order, the decoder gets of each frame exactly its
      maximal gap-free tail, or nothing when its last packet is lost; never bytes of two frames. */
  lemma StreamUnderLoss(codec: Codec, s: State, c: Clock, pics: seq<Picture>, masks: seq<seq<bool>>)
    requires forall k | 0 <= k < |pics| :: pics[k].Valid()
    requires MasksFit(masks, Frames(codec, pics)) && Sendable(c, Frames(codec, pics))
    requires DistinctTimestamps(s.lastTs, c, Frames(codec, pics))
    ensures FeedAll(codec, s, Parse(Datagrams(c, Frames(codec, pics), masks))).1 == Survivors(pics, masks)
  {
    ParseDatagrams(c, Frames(codec, pics), masks);
    PacketsUnderLoss(codec, s, c, pics, masks);
  }

  /** The frames as the decoder is to get them. */
  function Whole(pics: seq<Picture>): (r: seq<seq<byte>>)
    ensures |r| == |pics|
  {
    if pics == [] then [] else [pics[0].bytes] + Whole(pics[1..])
  }

  /** The round trip and its converse: from the sender's frames over the wire to the decoder's, every
      frame comes out whole if and only if no packet of the stream was lost. */
  lemma WholeIffNothingLost(codec: Codec, s: State, c: Clock, pics: seq<Picture>, masks: seq<seq<bool>>)
    requires forall k | 0 <= k < |pics| :: pics[k].Valid() && |pics[k].bytes| <= FRAME_MAX
    requires MasksFit(masks, Frames(codec, pics)) && Sendable(c, Frames(codec, pics))
    requires DistinctTimestamps(s.lastTs, c, Frames(codec, pics))
    ensures FeedAll(codec, s, Parse(Datagrams(c, Frames(codec, pics), masks))).1 == Whole(pics) <==> AllFull(masks)
  {
    hide FeedAll, Survivors, AllFull, Whole, Payloads, ChunkCount;
    StreamUnderLoss(codec, s, c, pics, masks);
    SurvivorsWhole(pics, masks);
  }

  /** The same for a single frame. */
  lemma FrameRoundTrip(codec: Codec, s: State, c: Clock, p: Picture, mask: seq<bool>)
    requires p.Valid() && |p.bytes| <= FRAME_MAX
    requires MasksFit([mask], Frames(codec, [p])) && Sendable(c, Frames(codec, [p]))
    requires s.lastTs != (c.timestamp + TimestampStep(p.fps)) % U32
    ensures FeedAll(codec, s, Parse(Datagrams(c, Frames(codec, [p]), [mask]))).1 == [p.bytes] <==> Full(mask)
  {
    hide FeedAll, Full, AllFull, Payloads, TimestampOf, DistinctTimestamps, Datagrams, Parse;
    OneIsDistinct(s.lastTs, c, Frames(codec, [p]));
    WholeIffNothingLost(codec, s, c, [p], [mask]);
    AllFullCons([mask]);
    NoMasks();
    assert [mask][1..] == [] && [p][1..] == [] && Whole([]) == [];
  }

  lemma {:induction false} SurvivorsWhole(pics: seq<Picture>, masks: seq<seq<bool>>)
    requires |pics| == |masks|
    requires forall k | 0 <= k < |pics| ::
               pics[k].Valid() && |pics[k].bytes| <= FRAME_MAX && |masks[k]| == ChunkCount(|pics[k].bytes|)
    ensures |Survivors(pics, masks)| <= |pics|
    ensures Survivors(pics, masks) == Whole(pics) <==> AllFull(masks)
  {
    hide Survivor, Full, AllFull, ChunkCount, Picture.Valid;
    if pics == [] {
      NoMasks();
    } else {
      SurvivorsWhole(pics[1..], masks[1..]);
      AllFullCons(masks);
      WholeSurvivor(pics[0], masks[0]);
      HeadAndRest(Survivor(pics[0].bytes, masks[0]), Survivors(pics[1..], masks[1..]), pics[0].bytes, Whole(pics[1..]));
    }
  }

  /** What survives of a frame is all of it if and only if none of its packets was lost. */
  lemma WholeSurvivor(p: Picture, mask: seq<bool>)
    requires p.Valid() && |mask| == ChunkCount(|p.bytes|) && |p.bytes| <= FRAME_MAX
    ensures |Survivor(p.bytes, mask)| <= 1
    ensures Survivor(p.bytes, mask) == [p.bytes] <==> Full(mask)
  {
    hide ChunkCount, Offset;
    var r := TailStart(mask, |mask|);
    OffsetInside(|p.bytes|, r);
    if r > 0 {
      assert |p.bytes[Offset(|p.bytes|, r)..]| < |p.bytes|;
    } else {
      assert p.bytes[0..] == p.bytes;
    }
  }

  lemma OffsetInside(len: nat, j: nat)
    requires len > 0
    ensures Offset(len, j) == 0 <==> j == 0
    ensures ChunkCount(len) > 0
  {
  }
}
