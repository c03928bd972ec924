/** The H.264 sender (RFC 6184, sections 5.6 and 5.8): the scan for NAL units and
    their transport in single NAL unit packets and FU-A fragments. */
module H264Sender {
  import opened AnnexB
  import opened Bytes
  import opened Rtp
  import opened PacketSinks

  /** Largest NAL that goes into one packet: MAX_PACKET less the header. */
  const SINGLE_MAX: nat := 1188
  /** Bytes of a NAL in one FU-A fragment: MAX_PACKET less the header and the two FU bytes. */
  const FRAGMENT: nat := 1186

  // ----- Scanning an access unit -----

  /** First byte after the start code at `offset`; the next byte when there is none. */
  function NalStart(d: seq<byte>, offset: nat): (start: nat)
    requires offset <= |d|
    ensures offset <= start <= |d| && (offset < |d| ==> offset < start)
  {
    if offset + 3 >= |d| then |d|
    else if ShortCodeAt(d, offset) then offset + 3
    else if offset + 4 < |d| && LongCodeAt(d, offset) then offset + 4
    else offset + 1
  }

  /** The scan for the end of a NAL stops at a start code with at least one byte behind it. */
  predicate StopsAt(d: seq<byte>, e: nat) {
    e + 3 < |d| && (ShortCodeAt(d, e) || LongCodeAt(d, e))
  }

  function NalEnd(d: seq<byte>, e: nat): (end: nat)
    requires e <= |d|
    ensures e <= end <= |d| && (end < |d| ==> StopsAt(d, end))
    decreases |d| - e
  {
    if e + 3 >= |d| then |d| else if StopsAt(d, e) then e else NalEnd(d, e + 1)
  }

  datatype Span = Span(start: nat, size: nat)

  /** The nonempty NALs the scan finds from `offset` on. */
  function Scan(d: seq<byte>, offset: nat): (r: seq<Span>)
    requires offset <= |d|
    decreases |d| - offset
  {
    var start := NalStart(d, offset);
    if start >= |d| then []
    else
      var end := NalEnd(d, start);
      (if end == start then [] else [Span(start, end - start)]) + Scan(d, end)
  }

  predicate Inside(d: seq<byte>, from: nat, spans: seq<Span>) {
    forall k | 0 <= k < |spans| ::
      from <= spans[k].start && spans[k].start + spans[k].size <= |d| && spans[k].size > 0
  }

  lemma {:induction false} ScanInside(d: seq<byte>, offset: nat)
    requires offset <= |d|
    ensures Inside(d, offset, Scan(d, offset))
    decreases |d| - offset
  {
    var start := NalStart(d, offset);
    if start < |d| {
      ScanInside(d, NalEnd(d, start));
    }
  }

  function Cut(d: seq<byte>, spans: seq<Span>): (nals: seq<seq<byte>>)
    requires Inside(d, 0, spans)
    ensures |nals| == |spans| && AllNonempty(nals)
  {
    seq(|spans|, (k: int) requires 0 <= k < |spans| && spans[k].start + spans[k].size <= |d| =>
      d[spans[k].start..spans[k].start + spans[k].size])
  }

  /** The NALs of an access unit, as the sender finds them in any bytes. */
  function Nals(d: seq<byte>): (nals: seq<seq<byte>>)
    ensures AllNonempty(nals)
  {
    ScanInside(d, 0);
    Cut(d, Scan(d, 0))
  }

  /** Data without a start code is taken for one NAL unit, all but its first byte; three bytes and less for none. */
  lemma NoCodeIsOneNal(d: seq<byte>)
    requires forall i | 0 <= i < |d| :: !ShortCodeAt(d, i)
    ensures Nals(d) == if |d| <= 3 then [] else [d[1..]]
  {
    if |d| <= 3 {
      assert Scan(d, 0) == [];
    } else {
      assert !ShortCodeAt(d, 0) && !ShortCodeAt(d, 1);
      assert NalStart(d, 0) == 1;
      EndWithoutCode(d, 1);
      assert Scan(d, 0) == [Span(1, |d| - 1)] + Scan(d, |d|);
      assert Scan(d, |d|) == [];
      hide Scan, NalStart, NalEnd;
      ScanInside(d, 0);
      CutAt(d, Scan(d, 0), 0);
      assert Nals(d)[0] == d[1..|d|] == d[1..];
    }
  }

  lemma {:induction false} EndWithoutCode(d: seq<byte>, e: nat)
    requires e <= |d| && forall i | 0 <= i < |d| :: !ShortCodeAt(d, i)
    ensures NalEnd(d, e) == |d|
    decreases |d| - e
  {
    if e < |d| {
      assert LongCodeAt(d, e) ==> ShortCodeAt(d, e + 1);
      EndWithoutCode(d, e + 1);
    }
  }

  // ----- Payloads -----

  function FragmentOffset(size: nat, j: nat): (o: nat)
    requires size > 0
    ensures 1 <= o <= size
  {
    if 1 + 1186 * j <= size then 1 + 1186 * j else size
  }

  function FragmentCount(size: nat): nat {
    (size - 1 + 1185) / 1186
  }

  /** The FU indicator and FU header of a fragment; the forbidden bit is not carried. */
  function FuBytes(header: byte, first: bool, last: bool): seq<byte> {
    [28 + header / 32 % 4 * 32, (if first then 0x80 else 0) + (if last then 0x40 else 0) + header % 32]
  }

  lemma FragmentStep(size: nat, j: nat)
    requires size > 0
    ensures FragmentOffset(size, j) <= FragmentOffset(size, j + 1) <= FragmentOffset(size, j) + FRAGMENT
    ensures FragmentOffset(size, j) < size <==> j < FragmentCount(size)
    ensures FragmentOffset(size, j) == 1 <==> j == 0 || size == 1
  {
  }

  /** The payloads of a fragmented NAL. */
  function FuPayloads(nal: seq<byte>): (r: seq<seq<byte>>)
    requires |nal| >= 2
    ensures |r| == FragmentCount(|nal|) && Fit(r) && r != []
  {
    var n := FragmentCount(|nal|);
    var r := seq(n, (j: int) requires 0 <= j < n =>
      FragmentStep(|nal|, j);
      FuBytes(nal[0], j == 0, j == n - 1) + nal[FragmentOffset(|nal|, j)..FragmentOffset(|nal|, j + 1)]);
    assert Fit(r) by {
      forall j | 0 <= j < n
        ensures 0 < |r[j]| <= MAX_PACKET - HEADER
      {
        FragmentStep(|nal|, j);
      }
    }
    r
  }

  /** The payloads one NAL travels in. */
  function NalPayloads(nal: seq<byte>): (r: seq<seq<byte>>)
    requires nal != []
    ensures |r| == if |nal| <= SINGLE_MAX then 1 else FragmentCount(|nal|)
    ensures Fit(r) && r != []
  {
    if |nal| <= SINGLE_MAX then [nal] else FuPayloads(nal)
  }

  function Payloads(nals: seq<seq<byte>>): (r: seq<seq<byte>>)
    requires AllNonempty(nals)
    ensures Fit(r) && (r == [] <==> nals == [])
  {
    if nals == [] then []
    else Payloads(nals[..|nals| - 1]) + NalPayloads(nals[|nals| - 1])
  }

  /** A fragmented NAL has at least two fragments, so none both starts and ends it. */
  lemma NoFragmentStartsAndEnds(nal: seq<byte>, j: nat)
    requires |nal| > SINGLE_MAX && j < |NalPayloads(nal)|
    ensures var p := NalPayloads(nal)[j];
            && |p| >= 2 && p[0] % 32 == 28 && p[1] % 32 == nal[0] % 32
            && !(Bit(p[1], 0x80) && Bit(p[1], 0x40))
            && (Bit(p[1], 0x80) <==> j == 0)
            && (Bit(p[1], 0x40) <==> j == |NalPayloads(nal)| - 1)
  {
    FragmentStep(|nal|, j);
    assert |NalPayloads(nal)| >= 2;
  }

  /** A NAL goes as it is, in one packet, if it fits in 1200 bytes; otherwise its body is cut into packets of
      that size but for the last, each behind an FU indicator with its reference bits and type 28, and
      an FU header with S, E and its type (RFC 6184, section 5.8). */
  lemma SentPayloads(nal: seq<byte>, j: nat)
    requires nal != [] && j < |NalPayloads(nal)|
    ensures var r := NalPayloads(nal);
            if 12 + |nal| <= 1200 then r == [nal]
            else
              && |r| >= 2 && 1 + 1186 * j + |r[j]| - 2 <= |nal|
              && r[j][0] == 32 * (nal[0] / 32 % 4) + 28
              && r[j][1] == (if j == 0 then 128 else if j == |r| - 1 then 64 else 0) + nal[0] % 32
              && r[j][2..] == nal[1 + 1186 * j..1 + 1186 * j + |r[j]| - 2]
              && (j < |r| - 1 ==> 12 + |r[j]| == 1200)
              && (j == |r| - 1 ==> 1 + 1186 * j + |r[j]| - 2 == |nal|)
  {
    if |nal| > SINGLE_MAX {
      FragmentAt(nal, j);
      FragmentStep(|nal|, j);
      FragmentStep(|nal|, j + 1);
      assert |NalPayloads(nal)| >= 2;
    }
  }

  // ----- The sender's methods -----

  /** Where no NAL starts the program leaves its two results alone: that happens only on
      the first call (AtStep), when they are still 0. */
  method NextNal(d: seq<byte>, offset: nat) returns (next: nat, start: nat, size: nat)
    requires offset <= |d|
    ensures NalStart(d, offset) >= |d| ==> next == |d| && start == size == 0
    ensures NalStart(d, offset) < |d| ==>
              start == NalStart(d, offset) && next == NalEnd(d, start) && size == next - start
  {
    start := NalStart(d, offset);
    if start >= |d| {
      return |d|, 0, 0;
    }
    var end := start;
    while end + 3 < |d|
      invariant start <= end <= |d| && NalEnd(d, start) == NalEnd(d, end)
    {
      if (d[end] == 0 && d[end + 1] == 0 && d[end + 2] == 1)
         || (d[end] == 0 && d[end + 1] == 0 && d[end + 2] == 0 && d[end + 3] == 1) {
        break;
      }
      end := end + 1;
    }
    if end + 3 >= |d| {
      end := |d|;
    }
    return end, start, end - start;
  }

  /** Sends a NAL in fragments; one of a single byte has nothing to fragment and is refused. */
  method SendFuA(state: RtpState, nal: seq<byte>, marker: bool, increment: nat, sink: PacketSink) returns (ok: bool)
    requires state.Valid()
    modifies state`seqNumber, state`timestamp, sink`sent
    ensures |nal| < 2 ==> !ok && state.Valid() && state.View() == old(state.View()) && sink.sent == old(sink.sent)
    ensures |nal| >= 2 ==>
              Over(state, sink, old(state.View()), old(sink.sent), FuPayloads(nal), marker, increment, ok)
  {
    if |nal| < 2 {
      return false;
    }
    hide FuPayloads, Wire, FragmentOffset, FragmentCount, FuBytes, Out, Over;
    ghost var c, payloads, before := state.View(), FuPayloads(nal), sink.sent;
    OutNone(state, sink, payloads, marker, increment);
    FragmentStep(|nal|, 0);
    FragmentStep(|nal|, |payloads|);
    var header := nal[0];
    var offset := 1;
    var first := true;
    ghost var j := 0;
    while offset < |nal|
      invariant j <= |payloads| && offset == FragmentOffset(|nal|, j) && (offset < |nal| <==> j < |payloads|)
      invariant first <==> j == 0
      invariant Out(state, sink, c, before, payloads, marker, increment, j)
    {
      var chunk := if |nal| - offset > FRAGMENT then FRAGMENT else |nal| - offset;
      var last := offset + chunk >= |nal|;
      var payload := FuBytes(header, first, last) + nal[offset..offset + chunk];
      FragmentStep(|nal|, j);
      FragmentStep(|nal|, j + 1);
      FuAt(nal, j);
      ok := SendAt(state, sink, payload, marker && last, if first then increment else 0,
                   c, before, payloads, marker, increment, j);
      if !ok {
        return false;
      }
      first := false;
      offset := offset + chunk;
      j := j + 1;
    }
    OutAll(state, sink, c, before, payloads, marker, increment);
    return true;
  }

  lemma FuAt(nal: seq<byte>, j: nat)
    requires |nal| >= 2 && j < FragmentCount(|nal|)
    ensures var o := FragmentOffset(|nal|, j);
            var n := if |nal| - o > FRAGMENT then FRAGMENT else |nal| - o;
            && FragmentOffset(|nal|, j + 1) == o + n
            && (o + n >= |nal| <==> j == FragmentCount(|nal|) - 1)
            && FuPayloads(nal)[j] == FuBytes(nal[0], j == 0, o + n >= |nal|) + nal[o..o + n]
  {
    FragmentStep(|nal|, j);
  }

  lemma FragmentAt(nal: seq<byte>, j: nat)
    requires |nal| > SINGLE_MAX && j < FragmentCount(|nal|)
    ensures var o := FragmentOffset(|nal|, j);
            var n := if |nal| - o > FRAGMENT then FRAGMENT else |nal| - o;
            && FragmentOffset(|nal|, j + 1) == o + n
            && (o + n >= |nal| <==> j == FragmentCount(|nal|) - 1)
            && NalPayloads(nal)[j] == FuBytes(nal[0], j == 0, o + n >= |nal|) + nal[o..o + n]
  {
    hide FuPayloads, FragmentOffset, FragmentCount;
    FuAt(nal, j);
  }

  /** The clock moves with every packet handed over, a refused one included. */
  method SendNal(state: RtpState, nal: seq<byte>, marker: bool, increment: nat, sink: PacketSink) returns (ok: bool)
    requires state.Valid() && nal != []
    modifies state`seqNumber, state`timestamp, sink`sent
    ensures Over(state, sink, old(state.View()), old(sink.sent), NalPayloads(nal), marker, increment, ok)
  {
    hide FuPayloads, FragmentCount, Out, Over, Wire;
    if |nal| + 12 <= MAX_PACKET {
      ghost var c, before := state.View(), sink.sent;
      OutNone(state, sink, [nal], marker, increment);
      ok := SendAt(state, sink, nal, marker, increment, c, before, [nal], marker, increment, 0);
      if ok {
        OutAll(state, sink, c, before, [nal], marker, increment);
      }
    } else {
      ok := SendFuA(state, nal, marker, increment, sink);
    }
  }

  /** One round of the scan; at a start code it always finds a NAL, perhaps an empty one. */
  lemma ScanStep(d: seq<byte>, offset: nat)
    requires offset <= |d|
    ensures var start := NalStart(d, offset);
            if start >= |d| then Scan(d, offset) == []
            else
              var end := NalEnd(d, start);
              && offset < end
              && (end == |d| || StopsAt(d, end))
              && Scan(d, offset) == (if end == start then [] else [Span(start, end - start)]) + Scan(d, end)
    ensures StopsAt(d, offset) ==> NalStart(d, offset) < |d|
  {
    hide Scan, NalStart, NalEnd, StopsAt;
    StartAtStop(d, offset);
    ScanUnfold(d, offset);
  }

  lemma ScanUnfold(d: seq<byte>, offset: nat)
    requires offset <= |d|
    ensures var start := NalStart(d, offset);
            Scan(d, offset)
            == if start >= |d| then []
               else (if NalEnd(d, start) == start then [] else [Span(start, NalEnd(d, start) - start)])
                    + Scan(d, NalEnd(d, start))
  {
    hide NalStart, NalEnd, StopsAt;
  }

  lemma StartAtStop(d: seq<byte>, offset: nat)
    requires offset <= |d|
    ensures StopsAt(d, offset) ==> NalStart(d, offset) < |d|
  {
  }

  /** First pass of the packetiser: the last NAL, which will carry the marker. */
  method FindLast(d: seq<byte>) returns (lastStart: nat, lastSize: nat)
    ensures var spans := Scan(d, 0);
            Span(lastStart, lastSize) == if spans == [] then Span(0, 0) else spans[|spans| - 1]
  {
    hide Scan, NalStart, NalEnd, StopsAt;
    var offset := 0;
    lastStart, lastSize := 0, 0;
    ghost var done: seq<Span> := [];
    assert done + Scan(d, 0) == Scan(d, 0);
    ScanStep(d, |d|);
    while offset < |d|
      invariant offset <= |d| && Scan(d, 0) == done + Scan(d, offset)
      invariant Span(lastStart, lastSize) == if done == [] then Span(0, 0) else done[|done| - 1]
    {
      ScanStep(d, offset);
      var next, start, size := NextNal(d, offset);
      if size != 0 {
        lastStart, lastSize := start, size;
        assert done + ([Span(start, size)] + Scan(d, next)) == done + [Span(start, size)] + Scan(d, next);
        done := done + [Span(start, size)];
      } else {
        assert [] + Scan(d, next) == Scan(d, next);
      }
      offset := next;
    }
  }

  lemma {:induction false} PayloadsAppend(a: seq<seq<byte>>, b: seq<seq<byte>>)
    requires AllNonempty(a)
    requires AllNonempty(b)
    ensures Payloads(a + b) == Payloads(a) + Payloads(b)
  {
    hide NalPayloads, Payloads;
    if b == [] {
      assert a + b == a;
      NoPayloads();
    } else {
      var n := |b| - 1;
      PayloadsAppend(a, b[..n]);
      assert a + b == (a + b[..n]) + [b[n]] && b == b[..n] + [b[n]];
      PayloadsSnoc(a + b[..n], b[n]);
      PayloadsSnoc(b[..n], b[n]);
    }
  }

  lemma PayloadsSnoc(a: seq<seq<byte>>, nal: seq<byte>)
    requires nal != [] && AllNonempty(a)
    ensures Payloads(a + [nal]) == Payloads(a) + NalPayloads(nal)
  {
    assert (a + [nal])[..|a|] == a;
  }

  /** Sends the NALs found in `d`, the last packet of the last NAL marked. */
  method Packetize(state: RtpState, d: seq<byte>, fps: int, sink: PacketSink) returns (ok: bool)
    requires state.Valid()
    modifies state`seqNumber, state`timestamp, sink`sent
    ensures d == [] || fps <= 0 ==>
              !ok && state.Valid() && state.View() == old(state.View()) && sink.sent == old(sink.sent)
    ensures d != [] && fps > 0 ==>
              Over(state, sink, old(state.View()), old(sink.sent), Payloads(Nals(d)), true, TimestampStep(fps), ok)
  {
    if d == [] || fps <= 0 {
      return false;
    }
    var lastStart, lastSize := FindLast(d);
    ok := SendAll(state, d, TimestampStep(fps), lastStart, lastSize, sink);
  }

  lemma NoPayloads()
    ensures Payloads([]) == []
  {
  }

  /** How many payloads the first `k` NALs take. */
  function Upto(nals: seq<seq<byte>>, k: nat): nat
    requires k <= |nals| && AllNonempty(nals)
  {
    |Payloads(nals[..k])|
  }

  lemma UptoEnds(nals: seq<seq<byte>>)
    requires AllNonempty(nals)
    ensures Upto(nals, 0) == 0 && Upto(nals, |nals|) == |Payloads(nals)|
  {
    assert nals[..|nals|] == nals;
  }

  /** The payloads of NAL `k` are the part of an access unit's payloads that comes after those of the NALs before it. */
  lemma NextPayloads(nals: seq<seq<byte>>, k: nat)
    requires k < |nals| && AllNonempty(nals)
    ensures var a, b := Upto(nals, k), Upto(nals, k + 1);
            && a < b <= |Payloads(nals)| && Payloads(nals)[a..b] == NalPayloads(nals[k])
            && (a == 0 <==> k == 0)
            && (b == |Payloads(nals)| <==> k == |nals| - 1)
  {
    hide NalPayloads, Payloads;
    SplitNals(nals, k);
    hide AllNonempty;
    PayloadsAround(nals[..k], nals[k], nals[k + 1..]);
  }

  lemma SplitNals(nals: seq<seq<byte>>, k: nat)
    requires k < |nals| && AllNonempty(nals)
    ensures AllNonempty(nals[..k]) && AllNonempty(nals[..k + 1]) && AllNonempty(nals[k + 1..]) && nals[k] != []
    ensures nals[..k + 1] == nals[..k] + [nals[k]] && nals == (nals[..k] + [nals[k]]) + nals[k + 1..]
  {
  }

  lemma PayloadsAround(before: seq<seq<byte>>, nal: seq<byte>, rest: seq<seq<byte>>)
    requires nal != [] && AllNonempty(before)
    requires AllNonempty(rest)
    ensures var all, a, b := Payloads((before + [nal]) + rest), |Payloads(before)|, |Payloads(before + [nal])|;
            && a < b <= |all| && all[a..b] == NalPayloads(nal)
            && (a == 0 <==> before == [])
            && (b == |all| <==> rest == [])
  {
    hide NalPayloads, Payloads;
    PayloadsSnoc(before, nal);
    PayloadsAppend(before + [nal], rest);
    Middle(Payloads(before), NalPayloads(nal), Payloads(rest));
  }

  lemma Middle<T>(a: seq<T>, b: seq<T>, c: seq<T>)
    ensures (a + b + c)[|a|..|a + b|] == b
  {
  }

  lemma CutAt(d: seq<byte>, spans: seq<Span>, k: nat)
    requires Inside(d, 0, spans) && k < |spans|
    ensures Cut(d, spans)[k] == d[spans[k].start..spans[k].start + spans[k].size]
  {
  }

  /** The scan has come to `offset` with `k` NALs found. */
  ghost predicate At(d: seq<byte>, offset: nat, k: nat) {
    && offset <= |d| && (offset == 0 || offset == |d| || StopsAt(d, offset))
    && k <= |Scan(d, 0)| && Scan(d, 0)[k..] == Scan(d, offset)
  }

  /** The next NAL of the scan is NAL `k`, and it is the last one just when its span is the last span. */
  lemma AtStep(d: seq<byte>, offset: nat, k: nat)
    requires At(d, offset, k) && offset < |d|
    ensures offset > 0 ==> NalStart(d, offset) < |d|
    ensures NalStart(d, offset) >= |d| ==> At(d, |d|, k)
    ensures NalStart(d, offset) < |d| ==>
              var start := NalStart(d, offset);
              var end := NalEnd(d, start);
              var spans := Scan(d, 0);
              if start == end then At(d, end, k)
              else
                && At(d, end, k + 1)
                && spans != [] && k < |Nals(d)| && Nals(d)[k] == d[start..end]
                && (Span(start, end - start) == spans[|spans| - 1] <==> k == |Nals(d)| - 1)
  {
    hide Scan, NalStart, NalEnd, Cut, StopsAt;
    ScanStep(d, offset);
    var start := NalStart(d, offset);
    if start >= |d| {
      ScanStep(d, |d|);
    } else if start == NalEnd(d, start) {
      assert Scan(d, offset) == [] + Scan(d, NalEnd(d, start)) == Scan(d, NalEnd(d, start));
    } else {
      AtNal(d, offset, k);
      LastSpan(d, NalEnd(d, start), k);
    }
  }

  /** The scan goes on behind NAL `k`. */
  lemma AtNal(d: seq<byte>, offset: nat, k: nat)
    requires At(d, offset, k) && NalStart(d, offset) < |d| && NalStart(d, offset) < NalEnd(d, NalStart(d, offset))
    ensures var start, spans := NalStart(d, offset), Scan(d, 0);
            var end := NalEnd(d, start);
            && At(d, end, k + 1) && end == start + spans[k].size && spans[k].start == start
            && k < |Nals(d)| == |spans| && Nals(d)[k] == d[start..end]
  {
    hide Scan, NalStart, NalEnd, Cut, StopsAt;
    ScanStep(d, offset);
    var start, spans := NalStart(d, offset), Scan(d, 0);
    var end := NalEnd(d, start);
    var rest := Scan(d, end);
    assert spans[k..] == [Span(start, end - start)] + rest;
    assert spans[k] == spans[k..][0] && spans[k + 1..] == spans[k..][1..] == rest;
    ScanInside(d, 0);
    CutAt(d, spans, k);
  }

  /** No later span is the one that ends at `end`. */
  lemma LastSpan(d: seq<byte>, end: nat, k: nat)
    requires k < |Scan(d, 0)| && end <= |d| && Scan(d, 0)[k + 1..] == Scan(d, end)
    requires Scan(d, 0)[k].start + Scan(d, 0)[k].size == end && Scan(d, 0)[k].size > 0
    ensures Scan(d, 0)[|Scan(d, 0)| - 1] == Scan(d, 0)[k] <==> k == |Scan(d, 0)| - 1
  {
    hide Scan;
    var spans := Scan(d, 0);
    if k < |spans| - 1 {
      ScanInside(d, end);
      assert spans[|spans| - 1] == spans[k + 1..][|spans| - k - 2];
    }
  }

  lemma AtEnds(d: seq<byte>, k: nat)
    ensures At(d, 0, 0)
    ensures At(d, |d|, k) ==> k == |Nals(d)|
  {
    ScanStep(d, |d|);
  }

  /** The first `k` NALs of an access unit that started at clock `c` are out, all accepted. */
  ghost predicate Through(state: RtpState, sink: PacketSink, c: Clock, before: seq<seq<byte>>, nals: seq<seq<byte>>,
                          increment: nat, k: nat)
    requires c.Valid() && k <= |nals| && AllNonempty(nals)
    reads state, sink
  {
    Out(state, sink, c, before, Payloads(nals), true, increment, Upto(nals, k))
  }

  lemma NoneThrough(state: RtpState, sink: PacketSink, nals: seq<seq<byte>>, increment: nat)
    requires state.Valid() && AllNonempty(nals)
    ensures Through(state, sink, state.View(), sink.sent, nals, increment, 0)
  {
    hide Out;
    UptoEnds(nals);
    OutNone(state, sink, Payloads(nals), true, increment);
  }

  lemma AllThrough(state: RtpState, sink: PacketSink, c: Clock, before: seq<seq<byte>>, nals: seq<seq<byte>>,
                   increment: nat)
    requires c.Valid() && AllNonempty(nals)
    requires Through(state, sink, c, before, nals, increment, |nals|)
    ensures Over(state, sink, c, before, Payloads(nals), true, increment, true)
  {
    hide Out, Over;
    UptoEnds(nals);
    OutAll(state, sink, c, before, Payloads(nals), true, increment);
  }

  /** Sends NAL `k`, marked when it is the last. */
  method SendNth(state: RtpState, ghost c: Clock, ghost before: seq<seq<byte>>, ghost nals: seq<seq<byte>>,
                 ghost frameIncrement: nat, ghost k: nat, nal: seq<byte>, marker: bool, increment: nat,
                 sink: PacketSink)
    returns (ok: bool)
    requires c.Valid() && AllNonempty(nals)
    requires k < |nals| && nal == nals[k] && (marker <==> k == |nals| - 1)
    requires increment == if k == 0 then frameIncrement else 0
    requires Through(state, sink, c, before, nals, frameIncrement, k)
    modifies state`seqNumber, state`timestamp, sink`sent
    ensures ok ==> Through(state, sink, c, before, nals, frameIncrement, k + 1)
    ensures !ok ==> Over(state, sink, c, before, Payloads(nals), true, frameIncrement, false)
  {
    hide Wire, NalPayloads, Payloads, Upto, Over, PacketSink.Accepts;
    NextPayloads(nals, k);
    ghost var a, b := Upto(nals, k), Upto(nals, k + 1);
    WireSlice(c, Payloads(nals), true, frameIncrement, a, b);
    ok := SendNal(state, nal, marker, increment, sink);
    OverPart(state, sink, c, before, Payloads(nals), true, frameIncrement, a, b, ok);
  }

  /** The second pass between two NALs: where the scan is, and what has been sent. */
  ghost predicate Between(state: RtpState, sink: PacketSink, c: Clock, before: seq<seq<byte>>, d: seq<byte>,
                          frameIncrement: nat, offset: nat, increment: nat, k: nat)
    requires c.Valid()
    reads state, sink
  {
    && At(d, offset, k) && k <= |Nals(d)|
    && increment == (if k == 0 then frameIncrement else 0)
    && Through(state, sink, c, before, Nals(d), frameIncrement, k)
  }

  /** One round of the second pass. */
  method SendNext(state: RtpState, sink: PacketSink, ghost c: Clock, ghost before: seq<seq<byte>>, d: seq<byte>,
                  ghost frameIncrement: nat, offset: nat, increment: nat, ghost k: nat, lastStart: nat, lastSize: nat)
    returns (ok: bool, next: nat, nextIncrement: nat, ghost nextK: nat)
    requires c.Valid() && offset < |d| && Between(state, sink, c, before, d, frameIncrement, offset, increment, k)
    requires Scan(d, 0) != [] ==> Span(lastStart, lastSize) == Scan(d, 0)[|Scan(d, 0)| - 1]
    modifies state`seqNumber, state`timestamp, sink`sent
    ensures offset < next <= |d|
    ensures ok ==> Between(state, sink, c, before, d, frameIncrement, next, nextIncrement, nextK)
    ensures !ok ==> Over(state, sink, c, before, Payloads(Nals(d)), true, frameIncrement, false)
  {
    hide NalPayloads, Payloads, Scan, NalStart, NalEnd, StopsAt, Cut, Upto, At, Nals, Through, Over, AllNonempty;
    AtStep(d, offset, k);
    var start, size;
    next, start, size := NextNal(d, offset);
    ok, nextIncrement, nextK := true, increment, k;
    if size != 0 {
      var marker := start == lastStart && size == lastSize;
      ok := SendNth(state, c, before, Nals(d), frameIncrement, k, d[start..start + size], marker, increment, sink);
      nextIncrement, nextK := 0, k + 1;
    }
  }

  /** Second pass: sends NAL after NAL. */
  method SendAll(state: RtpState, d: seq<byte>, frameIncrement: nat, lastStart: nat, lastSize: nat, sink: PacketSink)
    returns (ok: bool)
    requires state.Valid()
    requires Scan(d, 0) != [] ==> Span(lastStart, lastSize) == Scan(d, 0)[|Scan(d, 0)| - 1]
    modifies state`seqNumber, state`timestamp, sink`sent
    ensures Over(state, sink, old(state.View()), old(sink.sent), Payloads(Nals(d)), true, frameIncrement, ok)
  {
    hide Payloads, Scan, At, Nals, Through, Over, AllNonempty;
    ghost var c, before, k := state.View(), sink.sent, 0;
    var offset, increment := 0, frameIncrement;
    AtEnds(d, k);
    NoneThrough(state, sink, Nals(d), frameIncrement);
    while offset < |d|
      invariant offset <= |d| && Between(state, sink, c, before, d, frameIncrement, offset, increment, k)
    {
      ok, offset, increment, k := SendNext(state, sink, c, before, d, frameIncrement, offset, increment, k,
                                           lastStart, lastSize);
      if !ok {
        return false;
      }
    }
    AtEnds(d, k);
    AllThrough(state, sink, c, before, Nals(d), frameIncrement);
    return true;
  }

  // ----- Well-formed access units -----

  lemma {:induction false} EndOfNal(d: seq<byte>, start: nat, nal: seq<byte>, e: nat)
    requires WellFormed(nal) && start + |nal| <= |d| && d[start..start + |nal|] == nal
    requires start <= e <= start + |nal|
    requires start + |nal| == |d| || StopsAt(d, start + |nal|)
    ensures NalEnd(d, e) == start + |nal|
    decreases start + |nal| - e
  {
    if e < start + |nal| && e + 3 < |d| {
      NoCodeInside(d, start, nal, e);
      EndOfNal(d, start, nal, e + 1);
    }
  }

  /** One round of the scan takes a well-formed NAL off what starts with its start code. */
  lemma ScanOne(d: seq<byte>, offset: nat, long: bool, nal: seq<byte>, rest: seq<byte>)
    requires offset <= |d| && WellFormed(nal) && d[offset..] == StartCode(long) + nal + rest
    requires rest == [] || StopsAt(d, offset + |StartCode(long)| + |nal|)
    ensures var start := offset + |StartCode(long)|;
            && start + |nal| <= |d| && d[start..start + |nal|] == nal && d[start + |nal|..] == rest
            && Scan(d, offset) == [Span(start, |nal|)] + Scan(d, start + |nal|)
  {
    hide Scan, NalStart, NalEnd, StopsAt, StartCode, WellFormed;
    var code := StartCode(long);
    var start := offset + |code|;
    Pieces(d, offset, code, nal, rest);
    NalHasBytes(nal);
    ScanNal(d, offset, long, nal, start);
  }

  lemma NalHasBytes(nal: seq<byte>)
    requires WellFormed(nal)
    ensures nal != []
  {
  }

  lemma ScanNal(d: seq<byte>, offset: nat, long: bool, nal: seq<byte>, start: nat)
    requires WellFormed(nal) && start == offset + |StartCode(long)| && start + |nal| <= |d| && nal != []
    requires d[offset..start] == StartCode(long) && d[start..start + |nal|] == nal
    requires start + |nal| == |d| || StopsAt(d, start + |nal|)
    ensures Scan(d, offset) == [Span(start, |nal|)] + Scan(d, start + |nal|)
  {
    hide Scan, NalStart, NalEnd, StopsAt, StartCode, WellFormed;
    CodeStart(d, offset, long);
    EndOfNal(d, start, nal, start);
    ScanUnfold(d, offset);
  }

  /** The scan finds exactly the NALs of a well-formed access unit, behind any mix of start codes. */
  lemma {:induction false} ScanRendered(d: seq<byte>, offset: nat, nals: seq<seq<byte>>, long: seq<bool>)
    requires offset <= |d| && |nals| == |long| && d[offset..] == Render(nals, long)
    requires forall k | 0 <= k < |nals| :: WellFormed(nals[k])
    ensures Inside(d, 0, Scan(d, offset)) && Cut(d, Scan(d, offset)) == nals
    decreases |nals|
  {
    hide Scan, WellFormed, StopsAt, StartCode, Cut, NalStart;
    ScanInside(d, offset);
    if nals == [] {
      assert offset == |d|;
      ScanUnfold(d, offset);
    } else {
      var code, nal, rest := StartCode(long[0]), nals[0], Render(nals[1..], long[1..]);
      var start := offset + |code|;
      Pieces(d, offset, code, nal, rest);
      if nals[1..] != [] {
        assert nals[1..][0] == nals[1] && WellFormed(nals[1]);
        NextCode(d, start + |nal|, nals[1..], long[1..]);
      }
      ScanOne(d, offset, long[0], nal, rest);
      ScanRendered(d, start + |nal|, nals[1..], long[1..]);
      CutCons(d, start, nals, Scan(d, start + |nal|));
    }
  }

  lemma Pieces(d: seq<byte>, offset: nat, code: seq<byte>, nal: seq<byte>, rest: seq<byte>)
    requires offset <= |d| && d[offset..] == code + nal + rest
    ensures offset + |code| + |nal| <= |d|
    ensures d[offset..offset + |code|] == code
    ensures d[offset + |code|..offset + |code| + |nal|] == nal
    ensures d[offset + |code| + |nal|..] == rest
  {
    var tail := d[offset..];
    assert tail[..|code|] == code && tail[|code|..|code| + |nal|] == nal && tail[|code| + |nal|..] == rest;
  }

  lemma CodeStart(d: seq<byte>, offset: nat, long: bool)
    requires offset + |StartCode(long)| < |d| && d[offset..offset + |StartCode(long)|] == StartCode(long)
    ensures NalStart(d, offset) == offset + |StartCode(long)| && StopsAt(d, offset)
  {
    var code := d[offset..offset + |StartCode(long)|];
    assert d[offset] == code[0] && d[offset + 1] == code[1] && d[offset + 2] == code[2];
    if long {
      assert d[offset + 3] == code[3];
    }
  }

  lemma NextCode(d: seq<byte>, at: nat, nals: seq<seq<byte>>, long: seq<bool>)
    requires at <= |d| && nals != [] && |nals| == |long| && WellFormed(nals[0]) && d[at..] == Render(nals, long)
    ensures StopsAt(d, at)
  {
    Pieces(d, at, StartCode(long[0]), nals[0], Render(nals[1..], long[1..]));
    CodeStart(d, at, long[0]);
  }

  lemma CutCons(d: seq<byte>, start: nat, nals: seq<seq<byte>>, rest: seq<Span>)
    requires nals != [] && start + |nals[0]| <= |d| && d[start..start + |nals[0]|] == nals[0]
    requires Inside(d, 0, rest) && Cut(d, rest) == nals[1..]
    requires Inside(d, 0, [Span(start, |nals[0]|)] + rest)
    ensures Cut(d, [Span(start, |nals[0]|)] + rest) == nals
  {
    assert nals == [nals[0]] + nals[1..];
  }

  /** What the packetiser sends of a well-formed access unit is its NALs, nothing else. */
  lemma NalsOfRendered(nals: seq<seq<byte>>, long: seq<bool>)
    requires |nals| == |long| && forall k | 0 <= k < |nals| :: WellFormed(nals[k])
    ensures Nals(Render(nals, long)) == nals
  {
    var d := Render(nals, long);
    assert d[0..] == d;
    ScanRendered(d, 0, nals, long);
  }
}
