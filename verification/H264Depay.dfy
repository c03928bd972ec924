/** The H.264 depacketiser of the display (RFC 6184, sections 5.6 to 5.8), and
    what it makes of an access unit when packets are lost. */
module H264Depay {
  import opened AnnexB
  import opened Bytes
  import opened Wrappers
  import opened Rtp
  import opened Delivery
  import opened H264Sender

  /** The display drops larger access units. */
  const UNIT_MAX: nat := 512 * 1024

  // ----- The depacketiser as a function -----

  datatype State = State(unit: seq<byte>, fu: seq<byte>, inFu: bool, broken: bool, lastSeq: nat, lastTs: nat)

  datatype Verdict = Rejected | Accepted(complete: bool)

  function AppendNal(unit: seq<byte>, nal: seq<byte>): seq<byte> {
    if nal == [] then unit else unit + StartCode(true) + nal
  }

  /** A new timestamp starts afresh; a gap under the same one spoils the access unit. */
  function Sync(s: State, p: Packet): State {
    if s.lastTs != p.timestamp then State([], [], false, false, p.seqNumber, p.timestamp)
    else if (s.lastSeq + 1) % U16 != p.seqNumber then State([], [], false, true, p.seqNumber, p.timestamp)
    else s.(lastSeq := p.seqNumber)
  }

  /** The NALs of an aggregation packet, up to the first length that does not fit. */
  function AppendStap(unit: seq<byte>, payload: seq<byte>, offset: nat): seq<byte>
    decreases |payload| - offset
  {
    if offset + 2 > |payload| then unit
    else
      var size := ReadBe16(payload, offset);
      if size == 0 || offset + 2 + size > |payload| then unit
      else AppendStap(AppendNal(unit, payload[offset + 2..offset + 2 + size]), payload, offset + 2 + size)
  }

  /** The receiver on a payload whose packet is in sequence, by NAL unit type: a single NAL unit, an
      aggregation packet, a fragment (FU-B is read like FU-A), and what is rejected. */
  lemma PayloadRule(s: State, p: Packet)
    requires p.payload != [] && s.lastTs == p.timestamp && p.seqNumber == (s.lastSeq + 1) % 65536 && !s.broken
    ensures var b, t := p.payload, s.(lastSeq := p.seqNumber);
            var nalType := b[0] % 32;
            var starts, ends := |b| >= 2 && b[1] >= 128, |b| >= 2 && b[1] / 64 % 2 == 1;
            var (u, verdict) := Depay(s, p);
            if 1 <= nalType <= 23 then u == t.(unit := s.unit + [0, 0, 0, 1] + b)
            else if nalType == 24 then u == t.(unit := AppendStap(s.unit, b, 1))
            else if (nalType == 28 || nalType == 29) && |b| >= 2 && (starts || s.inFu) then
              var fu := if starts then [b[0] / 32 * 32 + b[1] % 32] + b[2..] else s.fu + b[2..];
              u == if !ends then t.(fu := fu, inFu := true)
                   else t.(unit := s.unit + (if fu == [] then [] else [0, 0, 0, 1] + fu), fu := [], inFu := false)
            else u == t
    ensures var b, nalType := p.payload, p.payload[0] % 32;
            var (u, verdict) := Depay(s, p);
            if 1 <= nalType <= 24 || ((nalType == 28 || nalType == 29) && |b| >= 2 && (b[1] >= 128 || s.inFu)) then
              verdict == Accepted(p.marker && u.unit != [])
            else verdict == Rejected
  {
    hide AppendStap;
    if |p.payload| >= 2 {
      FuBits(p.payload[1]);
    }
    UnitAppends(s, p.payload);
  }

  lemma FuBits(b: byte)
    ensures (b >= 128 <==> Bit(b, 0x80)) && (b / 64 % 2 == 1 <==> Bit(b, 0x40))
  {
  }

  lemma UnitAppends(s: State, b: seq<byte>)
    ensures AppendNal(s.unit, b) == s.unit + if b == [] then [] else [0, 0, 0, 1] + b
  {
  }

  /** The caller: a complete access unit goes to the decoder unless it is oversized, and is forgotten either way. */
  lemma FeedRule(s: State, p: Packet)
    ensures if p.payload == [] then Feed(s, p) == (s, [])
            else
              var (u, verdict) := Depay(s, p);
              Feed(s, p) == if verdict != Accepted(true) then (u, [])
                            else (u.(unit := [], fu := [], inFu := false), if |u.unit| <= 524288 then [u.unit] else [])
  {
    hide Depay;
  }

  /** And out of sequence: a new timestamp empties the buffers, a gap under the same one spoils the
      access unit, of which nothing more is taken up to the packet with the marker. */
  lemma SequenceRule(s: State, p: Packet)
    requires p.Valid()
    ensures s.lastTs != p.timestamp ==>
              Depay(s, p) == Depay(State([], [], false, false, (p.seqNumber + 65535) % 65536, p.timestamp), p)
    ensures s.lastTs == p.timestamp && (s.broken || p.seqNumber != (s.lastSeq + 1) % 65536) ==>
              var gap := p.seqNumber != (s.lastSeq + 1) % 65536;
              var (u, verdict) := Depay(s, p);
              && verdict == Accepted(false) && u.broken == !p.marker
              && u.lastSeq == p.seqNumber && u.lastTs == p.timestamp
              && if gap then u.unit == [] && u.fu == [] && !u.inFu
                 else u.unit == s.unit && u.fu == s.fu && u.inFu == s.inFu
  {
    hide TakePayload;
  }

  /** Units in an aggregation packet, each behind its size. */
  function Aggregated(nals: seq<seq<byte>>): seq<byte>
    requires forall k | 0 <= k < |nals| :: 0 < |nals[k]| < U16
  {
    if nals == [] then [] else Be16(|nals[0]|) + nals[0] + Aggregated(nals[1..])
  }

  /** Nothing more can be taken: no size is left, or it is zero, or more than what follows it. */
  predicate CutOff(rest: seq<byte>) {
    |rest| < 2 || ReadBe16(rest, 0) == 0 || 2 + ReadBe16(rest, 0) > |rest|
  }

  /** An aggregation packet adds exactly its units, up to where it is cut off. */
  lemma {:induction false} AggregatedUnits(unit: seq<byte>, payload: seq<byte>, offset: nat, nals: seq<seq<byte>>,
                                           rest: seq<byte>)
    requires forall k | 0 <= k < |nals| :: 0 < |nals[k]| < U16
    requires offset <= |payload| && payload[offset..] == Aggregated(nals) + rest && CutOff(rest)
    ensures AppendStap(unit, payload, offset) == unit + Unit(nals)
    decreases nals
  {
    hide Unit, Aggregated, AppendStap;
    if nals == [] {
      NoneAggregated();
      UnitNone();
      StapStops(unit, payload, offset);
      assert unit + Unit(nals) == unit;
    } else {
      AggregatedCons(nals);
      var tail := Aggregated(nals[1..]) + rest;
      StapTakes(unit, payload, offset, nals[0], tail);
      AggregatedUnits(unit + StartCode(true) + nals[0], payload, offset + 2 + |nals[0]|, nals[1..], rest);
      UnitCons(nals);
    }
  }

  lemma NoneAggregated()
    ensures Aggregated([]) == []
  {
  }

  lemma AggregatedCons(nals: seq<seq<byte>>)
    requires nals != [] && forall k | 0 <= k < |nals| :: 0 < |nals[k]| < U16
    ensures Aggregated(nals) == Be16(|nals[0]|) + nals[0] + Aggregated(nals[1..])
  {
  }

  lemma StapStops(unit: seq<byte>, payload: seq<byte>, offset: nat)
    requires offset <= |payload| && CutOff(payload[offset..])
    ensures AppendStap(unit, payload, offset) == unit
  {
  }

  lemma StapTakes(unit: seq<byte>, payload: seq<byte>, offset: nat, nal: seq<byte>, tail: seq<byte>)
    requires 0 < |nal| < U16 && offset <= |payload| && payload[offset..] == Be16(|nal|) + nal + tail
    ensures var next := offset + 2 + |nal|;
            && next <= |payload| && payload[next..] == tail
            && AppendStap(unit, payload, offset) == AppendStap(unit + StartCode(true) + nal, payload, next)
  {
    hide AppendStap, ReadBe16, Be16;
    StapAt(payload, offset, nal, tail);
    StapUnfold(unit, payload, offset);
  }

  lemma StapAt(payload: seq<byte>, offset: nat, nal: seq<byte>, tail: seq<byte>)
    requires 0 < |nal| < U16 && offset <= |payload| && payload[offset..] == Be16(|nal|) + nal + tail
    ensures var next := offset + 2 + |nal|;
            && next <= |payload| && payload[next..] == tail && payload[offset + 2..next] == nal
            && ReadBe16(payload, offset) == |nal|
  {
    var all, next := payload[offset..], offset + 2 + |nal|;
    assert |all| == |payload| - offset == 2 + |nal| + |tail|;
    assert all[0] == payload[offset] && all[1] == payload[offset + 1] && all[..2] == Be16(|nal|);
    assert all[0] == all[..2][0] && all[1] == all[..2][1];
    hide Be16;
    assert payload[offset + 2..next] == all[2..2 + |nal|] == nal;
    assert payload[next..] == all[2 + |nal|..] == tail;
  }

  lemma StapUnfold(unit: seq<byte>, payload: seq<byte>, offset: nat)
    requires offset + 2 <= |payload|
    ensures var size := ReadBe16(payload, offset);
            0 < size <= |payload| - offset - 2 ==>
              AppendStap(unit, payload, offset)
              == AppendStap(unit + StartCode(true) + payload[offset + 2..offset + 2 + size], payload, offset + 2 + size)
  {
    hide ReadBe16;
  }

  function TakeFragment(s: State, p: seq<byte>): Option<State>
    requires p != []
  {
    if |p| < 2 || (!Bit(p[1], 0x80) && !s.inFu) then None
    else
      var fu := if Bit(p[1], 0x80) then [p[0] / 32 * 32 + p[1] % 32] + p[2..] else s.fu + p[2..];
      Some(if Bit(p[1], 0x40) then s.(unit := AppendNal(s.unit, fu), fu := [], inFu := false)
           else s.(fu := fu, inFu := true))
  }

  /** The payload of a packet that is in sequence; None when it is rejected. */
  function TakePayload(s: State, p: seq<byte>): Option<State>
    requires p != []
  {
    var nalType := p[0] % 32;
    if 1 <= nalType <= 23 then Some(s.(unit := AppendNal(s.unit, p)))
    else if nalType == 28 || nalType == 29 then TakeFragment(s, p)
    else if nalType == 24 then Some(s.(unit := AppendStap(s.unit, p, 1)))
    else None
  }

  function Depay(s: State, p: Packet): (State, Verdict)
    requires p.payload != []
  {
    var t := Sync(s, p);
    if t.broken then (t.(broken := !p.marker), Accepted(false))
    else
      match TakePayload(t, p.payload)
      case None => (t, Rejected)
      case Some(u) => (u, Accepted(p.marker && u.unit != []))
  }

  /** The caller's side: a complete access unit is decoded unless it is oversized, and the buffers emptied. */
  function Feed(s: State, p: Packet): (State, seq<seq<byte>>) {
    if p.payload == [] then (s, [])
    else
      var (t, verdict) := Depay(s, p);
      if verdict == Accepted(true) then (t.(unit := [], fu := [], inFu := false), Decodable(t.unit)) else (t, [])
  }

  function Decodable(unit: seq<byte>): seq<seq<byte>> {
    if |unit| <= UNIT_MAX then [unit] else []
  }

  function Stepper(): (State, Packet) -> (State, seq<seq<byte>>) {
    (s, p) => Feed(s, p)
  }

  /** A whole run of packets: the final state and the access units handed to the decoder. */
  function FeedAll(s: State, ps: seq<Packet>): (State, seq<seq<byte>>) {
    Fold(Stepper(), s, ps)
  }

  lemma FeedSnoc(s: State, ps: seq<Packet>, p: Packet)
    ensures FeedAll(s, ps + [p])
         == (Feed(FeedAll(s, ps).0, p).0, FeedAll(s, ps).1 + Feed(FeedAll(s, ps).0, p).1)
  {
    hide Fold, Feed;
    FoldSnoc(Stepper(), s, ps, p);
  }

  // ----- The depacketiser as the program has it -----

  class Depacketizer {
    var unit: seq<byte>
    var fu: seq<byte>
    var inFu: bool
    var broken: bool
    var lastSeq: nat
    var lastTs: nat

    function View(): State
      reads this
    {
      State(unit, fu, inFu, broken, lastSeq, lastTs)
    }

    constructor ()
      ensures View() == State([], [], false, false, 0, 0)
    {
      unit, fu, inFu, broken, lastSeq, lastTs := [], [], false, false, 0, 0;
    }

    method Reset()
      modifies this
      ensures View() == old(View()).(unit := [], fu := [], inFu := false)
    {
      unit, fu, inFu := [], [], false;
    }

    method MarkLoss()
      modifies this
      ensures View() == old(View()).(unit := [], fu := [], inFu := false, broken := true)
    {
      Reset();
      broken := true;
    }

    method TakeStap(payload: seq<byte>)
      requires payload != []
      modifies this`unit
      ensures unit == AppendStap(old(unit), payload, 1)
    {
      hide AppendNal, ReadBe16;
      var offset := 1;
      while offset + 2 <= |payload|
        invariant offset <= |payload|
        invariant AppendStap(old(unit), payload, 1) == AppendStap(unit, payload, offset)
        decreases |payload| - offset
      {
        var size := ReadBe16(payload, offset);
        offset := offset + 2;
        if size == 0 || offset + size > |payload| {
          return;
        }
        unit := AppendNal(unit, payload[offset..offset + size]);
        offset := offset + size;
      }
    }

    /** Timestamp and sequence number, before the payload is looked at. */
    method Synchronise(p: Packet)
      modifies this
      ensures View() == Sync(old(View()), p)
    {
      if lastTs != p.timestamp {
        if |unit| > 0 {
          MarkLoss();
        }
        Reset();
        lastTs := p.timestamp;
        broken := false;
      } else if (lastSeq + 1) % U16 != p.seqNumber {
        MarkLoss();
      }
      lastSeq := p.seqNumber;
    }

    method TakeFu(p: seq<byte>) returns (ok: bool)
      requires p != []
      modifies this
      ensures match TakeFragment(old(View()), p)
              case None => !ok && View() == old(View())
              case Some(t) => ok && View() == t
    {
      hide AppendNal, Bit;
      if |p| < 2 {
        return false;
      }
      var header := p[1];
      if Bit(header, 0x80) {
        fu := [p[0] / 32 * 32 + header % 32] + p[2..];
        inFu := true;
      } else if inFu {
        fu := fu + p[2..];
      } else {
        return false;
      }
      if Bit(header, 0x40) {
        unit := AppendNal(unit, fu);
        fu, inFu := [], false;
      }
      return true;
    }

    method DepayPacket(p: Packet) returns (verdict: Verdict)
      requires p.Valid()
      modifies this
      ensures (View(), verdict) == Depay(old(View()), p)
    {
      hide AppendStap, AppendNal, TakeFragment, Sync;
      Synchronise(p);
      if broken {
        if p.marker {
          broken := false;
        }
        return Accepted(false);
      }
      var nalType := p.payload[0] % 32;
      if 1 <= nalType <= 23 {
        unit := AppendNal(unit, p.payload);
      } else if nalType == 28 || nalType == 29 {
        var ok := TakeFu(p.payload);
        if !ok {
          return Rejected;
        }
      } else if nalType == 24 {
        TakeStap(p.payload);
      } else {
        return Rejected;
      }
      return Accepted(p.marker && |unit| > 0);
    }

    /** A datagram from the network; the access units for the decoder come back. */
    method FeedDatagram(rtp: seq<byte>) returns (out: seq<seq<byte>>)
      modifies this
      ensures match Decode(rtp)
              case None => View() == old(View()) && out == []
              case Some(p) => (View(), out) == Feed(old(View()), p)
    {
      match Decode(rtp) {
        case None => return [];
        case Some(p) =>
          var verdict := DepayPacket(p);
          if verdict != Accepted(true) || |unit| == 0 {
            return [];
          }
          out := Decodable(unit);
          Reset();
      }
    }

    /** Datagrams in arrival order; all the access units for the decoder come back. */
    method Receive(datagrams: seq<seq<byte>>) returns (out: seq<seq<byte>>)
      modifies this
      ensures (View(), out) == FeedAll(old(View()), Parse(datagrams))
    {
      hide Feed, Decode;
      out := [];
      for i := 0 to |datagrams|
        invariant (View(), out) == FeedAll(old(View()), Parse(datagrams[..i]))
      {
        var more := FeedDatagram(datagrams[i]);
        assert datagrams[..i + 1] == datagrams[..i] + [datagrams[i]];
        ParseSnoc(datagrams[..i], datagrams[i]);
        if Decode(datagrams[i]).Some? {
          FeedSnoc(old(View()), Parse(datagrams[..i]), Decode(datagrams[i]).value);
        } else {
          assert Parse(datagrams[..i]) + [] == Parse(datagrams[..i]) && out + more == out;
        }
        out := out + more;
      }
      assert datagrams[..|datagrams|] == datagrams;
    }
  }

  // ----- One NAL, packet by packet -----

  /** NAL unit types 1 to 23 with the forbidden bit clear: what FU-A can carry and the receiver keeps. */
  predicate Carriable(nal: seq<byte>) {
    nal != [] && nal[0] < 128 && 1 <= nal[0] % 32 <= 23
  }

  lemma FuHeader(header: byte, first: bool, last: bool, rest: seq<byte>)
    requires header < 128 && !(first && last)
    ensures var p := FuBytes(header, first, last) + rest;
            && |p| >= 2 && p[0] % 32 == 28 && p[0] / 32 * 32 + p[1] % 32 == header
            && Bit(p[1], 0x80) == first && Bit(p[1], 0x40) == last && p[2..] == rest
  {
    FuIndicator(header / 32);
    FuFlags(header % 32, first, last);
  }

  lemma FuIndicator(nri: nat)
    requires nri < 4
    ensures var b := 28 + nri % 4 * 32;
            b % 32 == 28 && b / 32 == nri
  {
  }

  lemma FuFlags(nalType: nat, first: bool, last: bool)
    requires nalType < 32 && !(first && last)
    ensures var b := (if first then 0x80 else 0) + (if last then 0x40 else 0) + nalType;
            b < 0x100 && b % 32 == nalType && Bit(b, 0x80) == first && Bit(b, 0x40) == last
  {
  }

  /** What the receiver does with a fragment of a carriable unit. */
  lemma TakeFuPayload(s: State, header: byte, first: bool, last: bool, rest: seq<byte>)
    requires header < 128 && 1 <= header % 32 <= 23 && rest != [] && !(first && last) && s.inFu == !first
    ensures var fu := (if first then [header] else s.fu) + rest;
            TakePayload(s, FuBytes(header, first, last) + rest)
            == Some(if last then s.(unit := s.unit + StartCode(true) + fu, fu := [], inFu := false)
                    else s.(fu := fu, inFu := true))
  {
    hide FuBytes, Bit;
    FuHeader(header, first, last, rest);
  }

  lemma TakePiece(s: State, nal: seq<byte>, j: nat)
    requires Carriable(nal) && |nal| > SINGLE_MAX && j < FragmentCount(|nal|)
    requires if j == 0 then !s.inFu else s.inFu && s.fu == nal[..FragmentOffset(|nal|, j)]
    ensures TakePayload(s, NalPayloads(nal)[j])
         == Some(if j == FragmentCount(|nal|) - 1 then
                   s.(unit := s.unit + StartCode(true) + nal, fu := [], inFu := false)
                 else s.(fu := nal[..FragmentOffset(|nal|, j + 1)], inFu := true))
  {
    hide FragmentOffset, FragmentCount, FuBytes, TakePayload, NalPayloads;
    FragmentAt(nal, j);
    FragmentStep(|nal|, j);
    FragmentStep(|nal|, j + 1);
    NoFragmentStartsAndEnds(nal, j);
    var o, o' := FragmentOffset(|nal|, j), FragmentOffset(|nal|, j + 1);
    TakeFuPayload(s, nal[0], j == 0, o' >= |nal|, nal[o..o']);
    assert (if j == 0 then [nal[0]] else nal[..o]) + nal[o..o'] == nal[..o'];
    if o' >= |nal| {
      assert nal[..o'] == nal;
    }
  }

  /** The buffers after payloads that come in sequence; rejected ones change nothing. */
  function Absorb(s: State, payloads: seq<seq<byte>>): State {
    if payloads == [] then s
    else
      var n := |payloads| - 1;
      var t := Absorb(s, payloads[..n]);
      if payloads[n] == [] then t else match TakePayload(t, payloads[n]) case None => t case Some(u) => u
  }

  lemma AbsorbSnoc(s: State, a: seq<seq<byte>>, p: seq<byte>)
    requires p != []
    ensures Absorb(s, a + [p])
         == match TakePayload(Absorb(s, a), p) case None => Absorb(s, a) case Some(u) => u
  {
    hide TakePayload;
    assert (a + [p])[..|a|] == a;
  }

  lemma AbsorbNone(s: State)
    ensures Absorb(s, []) == s
  {
  }

  lemma {:induction false} AbsorbAppend(s: State, a: seq<seq<byte>>, b: seq<seq<byte>>)
    requires AllNonempty(b)
    ensures Absorb(s, a + b) == Absorb(Absorb(s, a), b)
  {
    hide Absorb, TakePayload;
    if b == [] {
      assert a + b == a;
      AbsorbNone(Absorb(s, a));
    } else {
      var n := |b| - 1;
      AbsorbAppend(s, a, b[..n]);
      assert a + b == (a + b[..n]) + [b[n]] && b == b[..n] + [b[n]];
      AbsorbSnoc(s, a + b[..n], b[n]);
      AbsorbSnoc(Absorb(s, a), b[..n], b[n]);
    }
  }

  /** The first `j` fragments of a NAL leave its first bytes in the buffer. */
  lemma {:induction false} AbsorbPieces(s: State, nal: seq<byte>, j: nat)
    requires Carriable(nal) && |nal| > SINGLE_MAX && j < FragmentCount(|nal|) && !s.inFu
    ensures Absorb(s, NalPayloads(nal)[..j])
         == if j == 0 then s else s.(fu := nal[..FragmentOffset(|nal|, j)], inFu := true)
  {
    hide Absorb, TakePayload, NalPayloads, FragmentOffset, FragmentCount, Carriable;
    var pieces := NalPayloads(nal);
    if j == 0 {
      assert pieces[..0] == [];
      AbsorbNone(s);
    } else {
      AbsorbPieces(s, nal, j - 1);
      assert pieces[..j] == pieces[..j - 1] + [pieces[j - 1]];
      AbsorbSnoc(s, pieces[..j - 1], pieces[j - 1]);
      TakePiece(Absorb(s, pieces[..j - 1]), nal, j - 1);
    }
  }

  /** All packets of a NAL add it to the access unit, and the last of them is accepted. */
  lemma AbsorbNal(s: State, nal: seq<byte>)
    requires Carriable(nal) && !s.inFu && s.fu == []
    ensures var pieces := NalPayloads(nal);
            var n := |pieces| - 1;
            && Absorb(s, pieces) == s.(unit := s.unit + StartCode(true) + nal)
            && TakePayload(Absorb(s, pieces[..n]), pieces[n]).Some?
  {
    hide Absorb, FragmentOffset, FragmentCount;
    var pieces := NalPayloads(nal);
    var n := |pieces| - 1;
    assert pieces == pieces[..n] + [pieces[n]];
    AbsorbSnoc(s, pieces[..n], pieces[n]);
    if |nal| > SINGLE_MAX {
      hide TakePayload, NalPayloads, Carriable;
      AbsorbPieces(s, nal, n);
      TakePiece(Absorb(s, pieces[..n]), nal, n);
    } else {
      assert pieces[..n] == [];
      AbsorbNone(s);
    }
  }

  /** The packets of a NAL whose first fragment is missing change nothing. */
  lemma {:induction false} AbsorbRest(s: State, nal: seq<byte>, f: nat, j: nat)
    requires Carriable(nal) && !s.inFu && 0 < f <= j <= |NalPayloads(nal)|
    ensures Absorb(s, NalPayloads(nal)[f..j]) == s
    decreases j
  {
    hide Absorb;
    var pieces := NalPayloads(nal);
    if j == f {
      assert pieces[f..j] == [];
      AbsorbNone(s);
    } else {
      AbsorbRest(s, nal, f, j - 1);
      assert pieces[f..j] == pieces[f..j - 1] + [pieces[j - 1]];
      AbsorbSnoc(s, pieces[f..j - 1], pieces[j - 1]);
      hide FragmentOffset, FragmentCount;
      FragmentAt(nal, j - 1);
      FragmentStep(|nal|, j - 1);
      NoFragmentStartsAndEnds(nal, j - 1);
    }
  }

  // ----- One access unit -----

  predicate AllCarriable(nals: seq<seq<byte>>) {
    forall k | 0 <= k < |nals| :: Carriable(nals[k])
  }

  /** The first NAL of which no packet is among the first `f`. */
  function FirstWhole(nals: seq<seq<byte>>, f: nat): (k: nat)
    requires AllNonempty(nals)
    ensures k <= |nals|
  {
    if nals == [] then 0
    else
      var n := |nals| - 1;
      if f <= |Payloads(nals[..n])| then FirstWhole(nals[..n], f) else n + 1
  }

  lemma CarriableNonempty(nals: seq<seq<byte>>)
    requires AllCarriable(nals)
    ensures AllNonempty(nals) && AllNonempty(Payloads(nals))
  {
  }

  /** One more NAL behind payloads of which the receiver takes those from `f` on. */
  lemma AbsorbNext(s: State, before: seq<seq<byte>>, nal: seq<byte>, f: nat)
    requires Carriable(nal) && nal != [] && f <= |before|
    requires !Absorb(s, before[f..]).inFu && Absorb(s, before[f..]).fu == []
    ensures var t := Absorb(s, before[f..]);
            Absorb(s, (before + NalPayloads(nal))[f..]) == t.(unit := t.unit + StartCode(true) + nal)
  {
    hide Absorb, NalPayloads, Carriable;
    var pieces := NalPayloads(nal);
    assert (before + pieces)[f..] == before[f..] + pieces;
    AbsorbAppend(s, before[f..], pieces);
    AbsorbNal(Absorb(s, before[f..]), nal);
  }

  lemma AbsorbBroken(s: State, before: seq<seq<byte>>, nal: seq<byte>, f: nat)
    requires Carriable(nal) && nal != [] && !s.inFu && |before| < f <= |before + NalPayloads(nal)|
    ensures Absorb(s, (before + NalPayloads(nal))[f..]) == s
  {
    hide Absorb, NalPayloads, Carriable;
    var pieces := NalPayloads(nal);
    assert (before + pieces)[f..] == pieces[f - |before|..|pieces|];
    AbsorbRest(s, nal, f - |before|, |pieces|);
  }

  /** From packet `f` on, in sequence, the receiver builds the whole NALs of the rest and nothing else. */
  lemma {:induction false} AbsorbTail(s: State, nals: seq<seq<byte>>, f: nat)
    requires AllCarriable(nals) && AllNonempty(nals) && f <= |Payloads(nals)|
    requires s.unit == [] && !s.inFu && s.fu == []
    ensures Absorb(s, Payloads(nals)[f..]) == s.(unit := Unit(nals[FirstWhole(nals, f)..]))
  {
    hide Absorb, NalPayloads, Carriable, Unit, Payloads, FirstWhole;
    UnitNone();
    if nals == [] {
      NoPayloads();
      AbsorbNone(s);
    } else {
      var n := |nals| - 1;
      var init, nal := nals[..n], nals[n];
      assert nals == init + [nal];
      PayloadsSnoc(init, nal);
      FirstWholeSnoc(nals, f);
      if f <= |Payloads(init)| {
        var k := FirstWhole(init, f);
        AbsorbTail(s, init, f);
        AbsorbNext(s, Payloads(init), nal, f);
        assert nals[k..] == init[k..] + [nal];
        UnitSnoc(init[k..], nal);
      } else {
        AbsorbBroken(s, Payloads(init), nal, f);
        assert nals[n + 1..] == [];
      }
    }
  }

  lemma FirstWholeSnoc(nals: seq<seq<byte>>, f: nat)
    requires AllNonempty(nals) && nals != []
    ensures var n := |nals| - 1;
            FirstWhole(nals, f) == if f <= |Payloads(nals[..n])| then FirstWhole(nals[..n], f) else n + 1
  {
    hide Payloads;
  }

  lemma LastNonempty(nals: seq<seq<byte>>)
    requires AllCarriable(nals) && nals != []
    ensures var n := |nals| - 1;
            Carriable(nals[n]) && nals[n] != [] && AllCarriable(nals[..n]) && AllNonempty(nals[..n])
    ensures var pieces := NalPayloads(nals[|nals| - 1]);
            AllNonempty(pieces) && AllNonempty(pieces[..|pieces| - 1])
  {
  }

  /** When a whole NAL is left, the last packet is one the receiver accepts. */
  lemma LastAccepted(s: State, nals: seq<seq<byte>>, f: nat)
    requires AllCarriable(nals) && AllNonempty(nals) && FirstWhole(nals, f) < |nals|
    requires s.unit == [] && !s.inFu && s.fu == []
    ensures f < |Payloads(nals)|
    ensures var payloads := Payloads(nals);
            var n := |payloads| - 1;
            payloads[n] != [] && TakePayload(Absorb(s, payloads[f..n]), payloads[n]).Some?
  {
    hide Absorb, NalPayloads, Carriable, Unit, TakePayload, AllNonempty;
    LastNonempty(nals);
    var init, nal := nals[..|nals| - 1], nals[|nals| - 1];
    var before, pieces := Payloads(init), NalPayloads(nal);
    var m := |pieces| - 1;
    AbsorbTail(s, init, f);
    AbsorbNal(Absorb(s, before[f..]), nal);
    assert (before + pieces)[f..|before| + m] == before[f..] + pieces[..m];
    AbsorbAppend(s, before[f..], pieces[..m]);
    assert Fit(pieces) && pieces[m] != [];
  }

  // ----- The packets of an access unit -----

  predicate IsUnit(ps: seq<Packet>, payloads: seq<seq<byte>>, ts: nat, first: nat) {
    && |ps| == |payloads|
    && forall j | 0 <= j < |ps| ::
         && ps[j].payload == payloads[j] != []
         && ps[j].timestamp == ts && ps[j].seqNumber == (first + j) % U16 && (ps[j].marker <==> j == |ps| - 1)
  }

  lemma RunIsUnit(c: Clock, payloads: seq<seq<byte>>, increment: nat)
    requires Fit(payloads)
    ensures IsUnit(Run(c, payloads, true, increment), payloads, (c.timestamp + increment) % U32, c.seqNumber)
  {
  }

  function Fresh(ts: nat): State {
    State([], [], false, false, 0, ts)
  }

  /** Buffers do not depend on sequence numbers. */
  lemma TakeSeq(s: State, p: seq<byte>, n: nat)
    requires p != []
    ensures TakePayload(s.(lastSeq := n), p)
         == match TakePayload(s, p) case None => None case Some(u) => Some(u.(lastSeq := n))
  {
    hide AppendStap, AppendNal;
  }

  lemma TakeKeeps(s: State, p: seq<byte>)
    requires p != []
    ensures match TakePayload(s, p)
            case None => true
            case Some(u) => u.broken == s.broken && u.lastTs == s.lastTs && u.lastSeq == s.lastSeq
  {
    hide AppendStap, AppendNal;
  }

  lemma {:induction false} AbsorbKeeps(s: State, payloads: seq<seq<byte>>)
    ensures var t := Absorb(s, payloads); t.broken == s.broken && t.lastTs == s.lastTs && t.lastSeq == s.lastSeq
  {
    hide TakePayload;
    if payloads != [] {
      var n := |payloads| - 1;
      AbsorbKeeps(s, payloads[..n]);
      if payloads[n] != [] {
        TakeKeeps(Absorb(s, payloads[..n]), payloads[n]);
      }
    }
  }

  /** The state between two packets of a unit that has been received without a gap from packet `f` up to `i`. */
  function InSequence(payloads: seq<seq<byte>>, ts: nat, first: nat, f: nat, i: nat): State
    requires f < i <= |payloads|
  {
    Absorb(Fresh(ts), payloads[f..i]).(lastSeq := (first + i - 1) % U16)
  }

  /** What the next packet in sequence does. */
  lemma Continue(t: State, payloads: seq<seq<byte>>, p: Packet, ts: nat, first: nat, f: nat, i: nat)
    requires f <= i < |payloads| && p.payload == payloads[i] != []
    requires p.timestamp == ts && p.seqNumber == (first + i) % U16
    requires if f == i then t.lastTs != ts else t == InSequence(payloads, ts, first, f, i)
    ensures !p.marker ==> Feed(t, p) == (InSequence(payloads, ts, first, f, i + 1), [])
    ensures p.marker ==>
              var done := InSequence(payloads, ts, first, f, i + 1);
              Feed(t, p).1 == if TakePayload(Absorb(Fresh(ts), payloads[f..i]), p.payload).Some? && done.unit != []
                              then Decodable(done.unit) else []
    ensures Feed(t, p).0.lastTs == ts
  {
    hide TakePayload, Absorb;
    var before := Absorb(Fresh(ts), payloads[f..i]);
    AbsorbKeeps(Fresh(ts), payloads[f..i]);
    if f == i {
      assert payloads[f..i] == [];
      AbsorbNone(Fresh(ts));
    } else {
      NextNumber(first, i);
    }
    var synced := Sync(t, p);
    assert synced == before.(lastSeq := p.seqNumber);
    TakeSeq(before, p.payload, p.seqNumber);
    TakeKeeps(synced, p.payload);
    assert payloads[f..i + 1] == payloads[f..i] + [payloads[i]];
    AbsorbSnoc(Fresh(ts), payloads[f..i], payloads[i]);
  }

  lemma NextNumber(first: nat, i: nat)
    requires i > 0
    ensures ((first + i - 1) % U16 + 1) % U16 == (first + i) % U16
  {
  }

  /** After a gap nothing comes out before the next timestamp. */
  lemma AfterGap(t: State, p: Packet)
    requires p.payload != [] && t.lastTs == p.timestamp
    requires t.broken || (t.lastSeq + 1) % U16 != p.seqNumber
    ensures Feed(t, p).1 == [] && Feed(t, p).0.lastTs == p.timestamp && (Feed(t, p).0.broken <==> !p.marker)
  {
  }

  /** The state after the part of a unit that `mask` keeps of its first `i` packets, short of the last packet. */
  ghost predicate Progress(s: State, t: State, payloads: seq<seq<byte>>, ts: nat, first: nat, mask: seq<bool>, i: nat)
    requires i <= |mask| == |payloads|
  {
    var l := LastKept(mask, i);
    var f := TailStart(mask, l);
    if l == 0 then t == s
    else if LastKept(mask, f) == 0 && l == i then t == InSequence(payloads, ts, first, f, i)
    else t.lastTs == ts && (t.broken || (l < i && t.lastSeq == (first + l - 1) % U16))
  }

  lemma ProgressLost(s: State, t: State, payloads: seq<seq<byte>>, ts: nat, first: nat, mask: seq<bool>, i: nat)
    requires i < |mask| == |payloads| && !mask[i] && Progress(s, t, payloads, ts, first, mask, i)
    ensures Progress(s, t, payloads, ts, first, mask, i + 1)
  {
    hide Absorb;
    if LastKept(mask, i) > 0 {
      AbsorbKeeps(Fresh(ts), payloads[TailStart(mask, LastKept(mask, i))..LastKept(mask, i)]);
    }
  }

  /** One more packet arrives: in sequence since the first one, or after a gap. */
  lemma ProgressKept(s: State, t: State, payloads: seq<seq<byte>>, ts: nat, first: nat, mask: seq<bool>, i: nat,
                     p: Packet)
    requires i < |mask| == |payloads| <= U16 && mask[i] && s.lastTs != ts
    requires Progress(s, t, payloads, ts, first, mask, i)
    requires p.payload == payloads[i] != [] && p.timestamp == ts && p.seqNumber == (first + i) % U16
    ensures !p.marker ==>
              Feed(t, p).1 == [] && Progress(s, Feed(t, p).0, payloads, ts, first, mask, i + 1)
    ensures p.marker ==>
              var f := TailStart(mask, i + 1);
              Feed(t, p).1 == if LastKept(mask, f) == 0 then Completed(payloads, ts, f, i) else []
    ensures Feed(t, p).0.lastTs == ts
  {
    hide Feed, InSequence, Completed, TakePayload, Absorb, LastKept, TailStart;
    var l, f := LastKept(mask, i), TailStart(mask, i + 1);
    NextRun(mask, i);
    if LastKept(mask, f) == 0 {
      Continue(t, payloads, p, ts, first, f, i);
      CompletedIs(payloads, ts, first, f, i);
    } else {
      if l < i {
        NumberGap(first, l, i);
      }
      AfterGap(t, p);
    }
  }

  /** How the two ways to look back from a received packet fit together. */
  lemma NextRun(mask: seq<bool>, i: nat)
    requires i < |mask| && mask[i]
    ensures var l, f := LastKept(mask, i), TailStart(mask, i + 1);
            && LastKept(mask, i + 1) == i + 1
            && (l == i ==> f == TailStart(mask, l)) && (l < i ==> f == i)
            && (l == 0 ==> f == i) && LastKept(mask, f) <= l
  {
  }

  /** What the access unit's last packet completes when packets `f` to `i` came in sequence. */
  function Completed(payloads: seq<seq<byte>>, ts: nat, f: nat, i: nat): seq<seq<byte>>
    requires f <= i < |payloads| && payloads[i] != []
  {
    var unit := Absorb(Fresh(ts), payloads[f..i + 1]).unit;
    if TakePayload(Absorb(Fresh(ts), payloads[f..i]), payloads[i]).Some? && unit != [] then Decodable(unit) else []
  }

  lemma CompletedIs(payloads: seq<seq<byte>>, ts: nat, first: nat, f: nat, i: nat)
    requires f <= i < |payloads| && payloads[i] != []
    ensures var done := InSequence(payloads, ts, first, f, i + 1);
            Completed(payloads, ts, f, i)
            == if TakePayload(Absorb(Fresh(ts), payloads[f..i]), payloads[i]).Some? && done.unit != []
               then Decodable(done.unit) else []
  {
    hide Absorb, TakePayload;
  }

  /** Sixteen-bit numbers of one access unit show every gap. */
  lemma NumberGap(first: nat, l: nat, i: nat)
    requires 0 < l < i <= U16
    ensures ((first + l - 1) % U16 + 1) % U16 != (first + i) % U16
  {
  }

  lemma UnitPacket(ps: seq<Packet>, payloads: seq<seq<byte>>, ts: nat, first: nat, j: nat)
    requires IsUnit(ps, payloads, ts, first) && j < |ps|
    ensures |ps| == |payloads| && ps[j].payload == payloads[j] != []
    ensures ps[j].timestamp == ts && ps[j].seqNumber == (first + j) % U16 && (ps[j].marker <==> j == |ps| - 1)
  {
  }

  lemma {:induction false} UnitPrefix(s: State, ps: seq<Packet>, payloads: seq<seq<byte>>, ts: nat, first: nat,
                                      mask: seq<bool>, i: nat)
    requires IsUnit(ps, payloads, ts, first) && i < |ps| == |mask| <= U16 && s.lastTs != ts
    ensures var (t, out) := FeedAll(s, Keep(ps[..i], mask[..i]));
            out == [] && Progress(s, t, payloads, ts, first, mask, i)
    decreases i
  {
    hide FeedAll, Feed, Keep, Progress, InSequence, IsUnit;
    UnitPacket(ps, payloads, ts, first, i);
    if i == 0 {
      assert ps[..0] == [] && mask[..0] == [];
      NothingYet(s, payloads, ts, first, mask);
    } else {
      UnitPrefix(s, ps, payloads, ts, first, mask, i - 1);
      KeepSnoc(ps[..i], mask[..i]);
      assert ps[..i][..i - 1] == ps[..i - 1] && mask[..i][..i - 1] == mask[..i - 1];
      var kept := Keep(ps[..i - 1], mask[..i - 1]);
      var t := FeedAll(s, kept).0;
      if mask[i - 1] {
        UnitPacket(ps, payloads, ts, first, i - 1);
        FeedSnoc(s, kept, ps[i - 1]);
        ProgressKept(s, t, payloads, ts, first, mask, i - 1, ps[i - 1]);
        var none: seq<seq<byte>> := [];
        assert none + none == none;
      } else {
        ProgressLost(s, t, payloads, ts, first, mask, i - 1);
      }
    }
  }

  lemma NothingYet(s: State, payloads: seq<seq<byte>>, ts: nat, first: nat, mask: seq<bool>)
    requires |payloads| == |mask|
    ensures FeedAll(s, Keep([], [])) == (s, []) && Progress(s, s, payloads, ts, first, mask, 0)
  {
    FoldNone(Stepper(), s);
  }

  /** What is left of an access unit: if its packets arrived without a gap from some packet on,
      the last one included, the NALs that lie wholly in that part; otherwise nothing. */
  function Survivor(nals: seq<seq<byte>>, mask: seq<bool>): seq<seq<byte>>
    requires AllNonempty(nals)
  {
    var n := |mask|;
    if n == 0 || !mask[n - 1] || LastKept(mask, TailStart(mask, n)) > 0 then []
    else
      var k := FirstWhole(nals, TailStart(mask, n));
      if k == |nals| then [] else Decodable(Unit(nals[k..]))
  }

  lemma CompletedTail(nals: seq<seq<byte>>, ts: nat, f: nat)
    requires AllCarriable(nals) && AllNonempty(nals) && f < |Payloads(nals)|
    requires AllNonempty(Payloads(nals))
    ensures Completed(Payloads(nals), ts, f, |Payloads(nals)| - 1)
         == var k := FirstWhole(nals, f); if k == |nals| then [] else Decodable(Unit(nals[k..]))
  {
    hide Absorb, TakePayload, Payloads, FirstWhole, Unit;
    var payloads, k := Payloads(nals), FirstWhole(nals, f);
    assert payloads[f..|payloads|] == payloads[f..];
    AbsorbTail(Fresh(ts), nals, f);
    if k < |nals| {
      LastAccepted(Fresh(ts), nals, f);
      UnitCons(nals[k..]);
    } else {
      assert nals[k..] == [];
      UnitNone();
    }
  }

  /** Only the last packet can complete an access unit, and only without a gap since the first one received. */
  lemma OnlyLast(s: State, ps: seq<Packet>, payloads: seq<seq<byte>>, ts: nat, first: nat, mask: seq<bool>)
    requires IsUnit(ps, payloads, ts, first) && 0 < |ps| == |payloads| == |mask| <= U16 && s.lastTs != ts
    requires payloads[|ps| - 1] != []
    ensures var n := |ps|;
            FeedAll(s, Keep(ps, mask)).1
            == if mask[n - 1] && LastKept(mask, TailStart(mask, n)) == 0
               then Completed(payloads, ts, TailStart(mask, n), n - 1) else []
    ensures FeedAll(s, Keep(ps, mask)).0.lastTs in {s.lastTs, ts}
  {
    hide FeedAll, Feed, Keep, Progress, Completed, TailStart, LastKept, IsUnit;
    var n := |ps| - 1;
    UnitPacket(ps, payloads, ts, first, n);
    UnitPrefix(s, ps, payloads, ts, first, mask, n);
    KeepSnoc(ps, mask);
    var kept := Keep(ps[..n], mask[..n]);
    var t := FeedAll(s, kept).0;
    if mask[n] {
      FeedSnoc(s, kept, ps[n]);
      ProgressKept(s, t, payloads, ts, first, mask, n, ps[n]);
      var more := Feed(t, ps[n]).1;
      assert [] + more == more;
    } else {
      ProgressTs(s, t, payloads, ts, first, mask, n);
    }
  }

  lemma UnitUnderLoss(s: State, ps: seq<Packet>, nals: seq<seq<byte>>, ts: nat, first: nat, mask: seq<bool>)
    requires AllCarriable(nals) && AllNonempty(nals) && ps != [] && s.lastTs != ts
    requires IsUnit(ps, Payloads(nals), ts, first) && |ps| == |mask| <= U16
    ensures FeedAll(s, Keep(ps, mask)).1 == Survivor(nals, mask)
    ensures FeedAll(s, Keep(ps, mask)).0.lastTs in {s.lastTs, ts}
  {
    hide FeedAll, Keep, Payloads, Completed, FirstWhole, Unit, TailStart, LastKept, AllCarriable, IsUnit, AllNonempty,
         Fit;
    UnitPacket(ps, Payloads(nals), ts, first, |ps| - 1);
    CarriableNonempty(nals);
    OnlyLast(s, ps, Payloads(nals), ts, first, mask);
    if mask[|mask| - 1] {
      CompletedTail(nals, ts, TailStart(mask, |mask|));
    }
  }

  lemma ProgressTs(s: State, t: State, payloads: seq<seq<byte>>, ts: nat, first: nat, mask: seq<bool>, i: nat)
    requires i <= |mask| == |payloads| && Progress(s, t, payloads, ts, first, mask, i)
    ensures t.lastTs in {s.lastTs, ts}
  {
    hide Absorb;
    var l := LastKept(mask, i);
    if l > 0 {
      AbsorbKeeps(Fresh(ts), payloads[TailStart(mask, l)..l]);
    }
  }

  // ----- Whole streams -----

  /** An access unit as an encoder hands it over: NALs behind start codes of either length. */
  datatype AccessUnit = AccessUnit(nals: seq<seq<byte>>, long: seq<bool>, fps: nat)
  {
    predicate Valid() {
      && nals != [] && |long| == |nals| && fps > 0
      && (forall k | 0 <= k < |nals| :: WellFormed(nals[k])) && AllCarriable(nals) && AllNonempty(nals)
      && |Payloads(nals)| <= U16
    }

    function Bytes(): seq<byte>
      requires |long| == |nals|
    {
      Render(nals, long)
    }
  }

  predicate AllValid(units: seq<AccessUnit>) {
    forall k | 0 <= k < |units| :: units[k].Valid()
  }

  /** The frame the packetiser makes of an access unit, from its bytes. */
  function FrameOf(u: AccessUnit): Frame
    requires |u.long| == |u.nals| && u.fps > 0
  {
    Frame(Payloads(Nals(u.Bytes())), TimestampStep(u.fps))
  }

  function Frames(units: seq<AccessUnit>): (r: seq<Frame>)
    requires AllValid(units)
    ensures |r| == |units|
  {
    seq(|units|, (k: int) requires 0 <= k < |units| && units[k].Valid() => FrameOf(units[k]))
  }

  function Survivors(units: seq<AccessUnit>, masks: seq<seq<bool>>): seq<seq<byte>>
    requires |units| == |masks| && AllValid(units)
  {
    if units == [] then [] else Survivor(units[0].nals, masks[0]) + Survivors(units[1..], masks[1..])
  }

  lemma FramesCons(units: seq<AccessUnit>)
    requires AllValid(units) && units != []
    ensures units[0].Valid() && AllValid(units[1..])
    ensures Frames(units)[0] == FrameOf(units[0]) && Frames(units)[1..] == Frames(units[1..])
  {
    hide FrameOf, AccessUnit.Valid;
  }

  /** One access unit through the network and the receiver. */
  lemma OneUnit(s: State, c: Clock, u: AccessUnit, mask: seq<bool>)
    requires u.Valid() && |mask| == |FrameOf(u).payloads|
    requires s.lastTs != (c.timestamp + FrameOf(u).increment) % U32
    ensures var f := FrameOf(u);
            var r := FeedAll(s, Keep(Run(c, f.payloads, true, f.increment), mask));
            r.1 == Survivor(u.nals, mask) && r.0.lastTs in {s.lastTs, (c.timestamp + f.increment) % U32}
    ensures FrameOf(u).payloads != []
  {
    hide FeedAll, Survivor, Nals, Run, Keep, Payloads, AllCarriable, AllNonempty;
    var f := FrameOf(u);
    NalsOfRendered(u.nals, u.long);
    RunIsUnit(c, f.payloads, f.increment);
    UnitUnderLoss(s, Run(c, f.payloads, true, f.increment), u.nals, (c.timestamp + f.increment) % U32, c.seqNumber,
                  mask);
  }

  lemma {:induction false} PacketsUnderLoss(s: State, c: Clock, units: seq<AccessUnit>, masks: seq<seq<bool>>)
    requires AllValid(units) && MasksFit(masks, Frames(units)) && DistinctTimestamps(s.lastTs, c, Frames(units))
    ensures FeedAll(s, Deliver(c, Frames(units), masks)).1 == Survivors(units, masks)
    decreases |units|
  {
    hide Fold, Survivor, Run, TimestampOf, Keep, Frames, FrameOf, AllValid;
    if units == [] {
      FoldNone(Stepper(), s);
    } else {
      FramesCons(units);
      var frames, rest := Frames(units), Frames(units[1..]);
      DistinctTail(s.lastTs, c, frames);
      FirstTimestamp(s.lastTs, c, frames);
      OneUnit(s, c, units[0], masks[0]);
      var kept := Keep(Run(c, frames[0].payloads, true, frames[0].increment), masks[0]);
      PacketsUnderLoss(FeedAll(s, kept).0, NextClock(c, frames[0]), units[1..], masks[1..]);
      FoldAppend(Stepper(), s, kept, Deliver(NextClock(c, frames[0]), rest, masks[1..]));
    }
  }

  /** Whatever part of a stream arrives in order, each access unit comes out as a run of its last
      whole NALs or not at all; no partial NAL, and never NALs of two access units. */
  lemma StreamUnderLoss(s: State, c: Clock, units: seq<AccessUnit>, masks: seq<seq<bool>>)
    requires AllValid(units) && MasksFit(masks, Frames(units)) && Sendable(c, Frames(units))
    requires DistinctTimestamps(s.lastTs, c, Frames(units))
    ensures FeedAll(s, Parse(Datagrams(c, Frames(units), masks))).1 == Survivors(units, masks)
  {
    hide FeedAll;
    ParseDatagrams(c, Frames(units), masks);
    PacketsUnderLoss(s, c, units, masks);
  }

  /** The access units as the decoder is to get them: every NAL behind a long start code. */
  function Units(units: seq<AccessUnit>): (r: seq<seq<byte>>)
    ensures |r| == |units|
  {
    if units == [] then [] else [Unit(units[0].nals)] + Units(units[1..])
  }

  /** The round trip and its converse: from the sender's bytes over the wire to the decoder's, every
      access unit comes out whole if and only if no packet of the stream was lost. */
  lemma WholeIffNothingLost(s: State, c: Clock, units: seq<AccessUnit>, masks: seq<seq<bool>>)
    requires AllValid(units) && MasksFit(masks, Frames(units)) && Sendable(c, Frames(units))
    requires DistinctTimestamps(s.lastTs, c, Frames(units))
    requires forall u :: u in units ==> |Unit(u.nals)| <= UNIT_MAX
    ensures FeedAll(s, Parse(Datagrams(c, Frames(units), masks))).1 == Units(units) <==> AllFull(masks)
  {
    hide FeedAll, Survivors, AllFull, Units;
    StreamUnderLoss(s, c, units, masks);
    SurvivorsWhole(units, masks);
  }

  /** The same for a single access unit. */
  lemma UnitRoundTrip(s: State, c: Clock, u: AccessUnit, mask: seq<bool>)
    requires u.Valid() && |Unit(u.nals)| <= UNIT_MAX
    requires AllValid([u]) && MasksFit([mask], Frames([u])) && Sendable(c, Frames([u]))
    requires s.lastTs != (c.timestamp + TimestampStep(u.fps)) % U32
    ensures FeedAll(s, Parse(Datagrams(c, Frames([u]), [mask]))).1 == [Unit(u.nals)] <==> Full(mask)
  {
    hide FeedAll, Full, AllFull, Unit, Units, Frames, FrameOf, TimestampOf, DistinctTimestamps, Datagrams, Parse,
         Sendable, AllValid;
    FramesCons([u]);
    assert FrameOf(u).increment == TimestampStep(u.fps) by { FrameRate(u); }
    OneIsDistinct(s.lastTs, c, Frames([u]));
    WholeIffNothingLost(s, c, [u], [mask]);
    AllFullCons([mask]);
    NoMasks();
    assert [mask][1..] == [];
    UnitsOne(u);
  }

  lemma FrameRate(u: AccessUnit)
    requires u.Valid()
    ensures FrameOf(u).increment == TimestampStep(u.fps)
  {
  }

  lemma UnitsOne(u: AccessUnit)
    ensures Units([u]) == [Unit(u.nals)]
  {
    hide Unit;
    assert [u][1..] == [];
  }

  lemma {:induction false} SurvivorsWhole(units: seq<AccessUnit>, masks: seq<seq<bool>>)
    requires AllValid(units) && MasksFit(masks, Frames(units))
    requires forall u :: u in units ==> |Unit(u.nals)| <= UNIT_MAX
    ensures |Survivors(units, masks)| <= |units|
    ensures Survivors(units, masks) == Units(units) <==> AllFull(masks)
    decreases |units|
  {
    hide Survivor, Unit, Frames, FrameOf, AllValid, Full, AllFull, Payloads, Nals, AccessUnit.Valid;
    if units == [] {
      NoMasks();
    } else {
      FramesCons(units);
      assert forall u :: u in units[1..] ==> u in units;
      SurvivorsWhole(units[1..], masks[1..]);
      AllFullCons(masks);
      SurvivorWhole(units[0], masks[0]);
      HeadAndRest(Survivor(units[0].nals, masks[0]), Survivors(units[1..], masks[1..]), Unit(units[0].nals),
                  Units(units[1..]));
    }
  }

  lemma SurvivorWhole(u: AccessUnit, mask: seq<bool>)
    requires u.Valid() && |mask| == |FrameOf(u).payloads| && |Unit(u.nals)| <= UNIT_MAX
    ensures AllNonempty(u.nals) && |Survivor(u.nals, mask)| <= 1
    ensures Survivor(u.nals, mask) == [Unit(u.nals)] <==> Full(mask)
  {
    hide Unit, Payloads, Nals;
    NalsOfRendered(u.nals, u.long);
    WholeSurvivor(u.nals, mask);
  }

  /** What survives of an access unit is all of it if and only if none of its packets was lost. */
  lemma WholeSurvivor(nals: seq<seq<byte>>, mask: seq<bool>)
    requires AllNonempty(nals) && nals != [] && |mask| == |Payloads(nals)| && |Unit(nals)| <= UNIT_MAX
    ensures Survivor(nals, mask) == [Unit(nals)] <==> Full(mask)
  {
    hide Unit, Payloads;
    var f := TailStart(mask, |mask|);
    var k := FirstWhole(nals, f);
    FirstWholeZero(nals, f);
    UnitLength(nals, k);
    assert nals[0..] == nals;
    if f == 0 && LastKept(mask, 0) == 0 {
      assert forall j | 0 <= j < |mask| :: mask[j];
    }
  }

  lemma {:induction false} FirstWholeZero(nals: seq<seq<byte>>, f: nat)
    requires AllNonempty(nals) && nals != []
    ensures FirstWhole(nals, f) == 0 <==> f == 0
  {
    var n := |nals| - 1;
    if n > 0 {
      FirstWholeZero(nals[..n], f);
    }
  }

  lemma {:induction false} UnitLength(nals: seq<seq<byte>>, k: nat)
    requires k <= |nals|
    ensures |Unit(nals[k..])| <= |Unit(nals)| && (k > 0 ==> |Unit(nals[k..])| < |Unit(nals)|)
  {
    hide Unit;
    if k == 0 {
      assert nals[0..] == nals;
    } else {
      UnitLength(nals[1..], k - 1);
      assert nals[1..][k - 1..] == nals[k..];
      UnitCons(nals);
    }
  }
}
