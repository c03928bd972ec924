/** What the network may do to a stream of frames: deliver, in order, any part of it. */
module Delivery {
  import opened Bytes
  import opened Rtp

  /** The elements of `xs` that `mask` keeps, in order. */
  function Keep<T>(xs: seq<T>, mask: seq<bool>): seq<T>
    requires |xs| == |mask|
  {
    if xs == [] then []
    else
      var n := |xs| - 1;
      Keep(xs[..n], mask[..n]) + if mask[n] then [xs[n]] else []
  }

  lemma KeepSnoc<T>(xs: seq<T>, mask: seq<bool>)
    requires |xs| == |mask| > 0
    ensures var n := |xs| - 1;
            Keep(xs, mask) == if mask[n] then Keep(xs[..n], mask[..n]) + [xs[n]] else Keep(xs[..n], mask[..n])
  {
  }

  /** Nothing of a frame, nothing of a stream is lost. */
  predicate Full(mask: seq<bool>) {
    forall j | 0 <= j < |mask| :: mask[j]
  }

  predicate AllFull(masks: seq<seq<bool>>) {
    forall k | 0 <= k < |masks| :: Full(masks[k])
  }

  lemma NoMasks()
    ensures AllFull([])
  {
  }

  lemma AllFullCons(masks: seq<seq<bool>>)
    requires masks != []
    ensures AllFull(masks) <==> Full(masks[0]) && AllFull(masks[1..])
  {
    hide Full;
    assert forall k | 0 < k < |masks| :: masks[k] == masks[1..][k - 1];
  }

  /** Two lists that begin with at most one and exactly one element, and go on with rests of
      which the first is no longer than the second, are equal only part by part. */
  lemma HeadAndRest<T>(head: seq<T>, rest: seq<T>, first: T, others: seq<T>)
    requires |head| <= 1 && |rest| <= |others|
    ensures head + rest == [first] + others <==> head == [first] && rest == others
  {
    if head + rest == [first] + others {
      assert |head| == 1;
      assert head[0] == (head + rest)[0] && (head + rest)[1..] == rest && ([first] + others)[1..] == others;
    }
  }

  /** Index after the last kept element before `i`; 0 when none is kept. */
  function LastKept(mask: seq<bool>, i: nat): (l: nat)
    requires i <= |mask|
    ensures l <= i && (l > 0 ==> mask[l - 1])
    ensures forall j | l <= j < i :: !mask[j]
  {
    if i == 0 then 0 else if mask[i - 1] then i else LastKept(mask, i - 1)
  }

  /** Start of the gap-free run of kept elements that ends just before `i`. */
  function TailStart(mask: seq<bool>, i: nat): (r: nat)
    requires i <= |mask|
    ensures r <= i && (forall j | r <= j < i :: mask[j]) && (r > 0 ==> !mask[r - 1])
  {
    if i == 0 || !mask[i - 1] then i else TailStart(mask, i - 1)
  }

  // ----- Receivers -----

  /** A receiver's step takes a state and a packet to a state and the frames it hands
      on; this is a whole run of packets. */
  function Fold<S>(step: (S, Packet) -> (S, seq<seq<byte>>), s: S, ps: seq<Packet>): (S, seq<seq<byte>>) {
    if ps == [] then (s, [])
    else
      var n := |ps| - 1;
      var (t, out) := Fold(step, s, ps[..n]);
      var (u, more) := step(t, ps[n]);
      (u, out + more)
  }

  lemma FoldNone<S>(step: (S, Packet) -> (S, seq<seq<byte>>), s: S)
    ensures Fold(step, s, []) == (s, [])
  {
  }

  lemma FoldSnoc<S>(step: (S, Packet) -> (S, seq<seq<byte>>), s: S, ps: seq<Packet>, p: Packet)
    ensures var t := Fold(step, s, ps);
            Fold(step, s, ps + [p]) == (step(t.0, p).0, t.1 + step(t.0, p).1)
  {
    assert (ps + [p])[..|ps|] == ps;
  }

  lemma {:induction false} FoldAppend<S>(step: (S, Packet) -> (S, seq<seq<byte>>), s: S, a: seq<Packet>,
                                         b: seq<Packet>)
    ensures var t := Fold(step, s, a);
            Fold(step, s, a + b) == (Fold(step, t.0, b).0, t.1 + Fold(step, t.0, b).1)
  {
    hide Fold;
    var t, out := Fold(step, s, a).0, Fold(step, s, a).1;
    if b == [] {
      assert a + b == a && out + [] == out;
      FoldNone(step, t);
    } else {
      var n := |b| - 1;
      FoldAppend(step, s, a, b[..n]);
      assert a + b == (a + b[..n]) + [b[n]] && b == b[..n] + [b[n]];
      FoldSnoc(step, s, a + b[..n], b[n]);
      FoldSnoc(step, t, b[..n], b[n]);
      var u, mid := Fold(step, t, b[..n]).0, Fold(step, t, b[..n]).1;
      assert (out + mid) + step(u, b[n]).1 == out + (mid + step(u, b[n]).1);
    }
  }

  // ----- Streams of frames -----

  /** A frame as its packet payloads, and the timestamp step it is sent with. */
  datatype Frame = Frame(payloads: seq<seq<byte>>, increment: nat)

  function NextClock(c: Clock, f: Frame): Clock {
    c.After(|f.payloads|, f.increment)
  }

  /** One mask per frame, one flag per packet. */
  predicate MasksFit(masks: seq<seq<bool>>, frames: seq<Frame>) {
    && |masks| == |frames|
    && forall k | 0 <= k < |masks| :: |masks[k]| == |frames[k].payloads|
  }

  /** What arrives of a stream of which the masks keep some packets. */
  function Deliver(c: Clock, frames: seq<Frame>, masks: seq<seq<bool>>): seq<Packet>
    requires MasksFit(masks, frames)
    decreases |frames|
  {
    if frames == [] then []
    else
      Keep(Run(c, frames[0].payloads, true, frames[0].increment), masks[0])
      + Deliver(NextClock(c, frames[0]), frames[1..], masks[1..])
  }

  // ----- The same on the wire -----

  /** The packets the receiver reads out of the datagrams it gets. */
  function Parse(datagrams: seq<seq<byte>>): seq<Packet> {
    if datagrams == [] then []
    else
      var n := |datagrams| - 1;
      Parse(datagrams[..n]) + match Decode(datagrams[n]) case None => [] case Some(p) => [p]
  }

  lemma ParseSnoc(a: seq<seq<byte>>, d: seq<byte>)
    ensures Parse(a + [d]) == Parse(a) + match Decode(d) case None => [] case Some(p) => [p]
  {
    assert (a + [d])[..|a|] == a;
  }

  lemma {:induction false} ParseAppend(a: seq<seq<byte>>, b: seq<seq<byte>>)
    ensures Parse(a + b) == Parse(a) + Parse(b)
  {
    hide Parse, Decode;
    if b == [] {
      assert a + b == a;
      ParseNone();
    } else {
      var n := |b| - 1;
      ParseAppend(a, b[..n]);
      assert a + b == (a + b[..n]) + [b[n]] && b == b[..n] + [b[n]];
      ParseSnoc(a + b[..n], b[n]);
      ParseSnoc(b[..n], b[n]);
    }
  }

  lemma ParseNone()
    ensures Parse([]) == []
  {
  }

  /** The sender's payload type is one the receiver takes for RTP, and its payloads fit packets. */
  predicate Sendable(c: Clock, frames: seq<Frame>) {
    && c.Valid() && !(64 <= c.payloadType < 96)
    && forall k | 0 <= k < |frames| :: Fit(frames[k].payloads)
  }

  /** The datagrams that arrive of a stream of which the masks keep some packets. */
  function Datagrams(c: Clock, frames: seq<Frame>, masks: seq<seq<bool>>): seq<seq<byte>>
    requires MasksFit(masks, frames) && Sendable(c, frames)
    decreases |frames|
  {
    if frames == [] then []
    else
      Keep(Wire(c, frames[0].payloads, true, frames[0].increment), masks[0])
      + Datagrams(NextClock(c, frames[0]), frames[1..], masks[1..])
  }

  lemma {:induction false} ParseKept(ps: seq<Packet>, mask: seq<bool>)
    requires |ps| == |mask|
    requires forall j | 0 <= j < |ps| :: ps[j].Valid() && !(64 <= ps[j].payloadType < 96)
    ensures Parse(Keep(EncodeAll(ps), mask)) == Keep(ps, mask)
  {
    hide Encode, Decode;
    if ps != [] {
      var n := |ps| - 1;
      ParseKept(ps[..n], mask[..n]);
      assert EncodeAll(ps)[..n] == EncodeAll(ps[..n]);
      KeepSnoc(EncodeAll(ps), mask);
      KeepSnoc(ps, mask);
      DecodeEncode(ps[n]);
      ParseSnoc(Keep(EncodeAll(ps[..n]), mask[..n]), Encode(ps[n]));
    }
  }

  /** Stripping the RTP headers loses nothing: what is parsed is what was delivered. */
  lemma {:induction false} ParseDatagrams(c: Clock, frames: seq<Frame>, masks: seq<seq<bool>>)
    requires MasksFit(masks, frames) && Sendable(c, frames)
    ensures Parse(Datagrams(c, frames, masks)) == Deliver(c, frames, masks)
    decreases |frames|
  {
    if frames != [] {
      var f := frames[0];
      RunValid(c, f.payloads, true, f.increment);
      ParseKept(Run(c, f.payloads, true, f.increment), masks[0]);
      ParseDatagrams(NextClock(c, f), frames[1..], masks[1..]);
      ParseAppend(Keep(Wire(c, f.payloads, true, f.increment), masks[0]),
                  Datagrams(NextClock(c, f), frames[1..], masks[1..]));
    }
  }

  /** The timestamp frame `k` is sent with. */
  function TimestampOf(c: Clock, frames: seq<Frame>, k: nat): nat
    requires k < |frames|
    decreases k
  {
    if k == 0 then (c.timestamp + frames[0].increment) % U32
    else TimestampOf(NextClock(c, frames[0]), frames[1..], k - 1)
  }

  /** No two frames share a timestamp, and none has the one the receiver saw last. */
  ghost predicate DistinctTimestamps(last: nat, c: Clock, frames: seq<Frame>) {
    && (forall k | 0 <= k < |frames| :: TimestampOf(c, frames, k) != last)
    && (forall i, k | 0 <= i < k < |frames| :: TimestampOf(c, frames, i) != TimestampOf(c, frames, k))
  }

  /** Whether or not the receiver saw anything of the first frame, the rest has timestamps new to it. */
  lemma DistinctTail(last: nat, c: Clock, frames: seq<Frame>)
    requires frames != [] && DistinctTimestamps(last, c, frames)
    ensures DistinctTimestamps(last, NextClock(c, frames[0]), frames[1..])
    ensures DistinctTimestamps((c.timestamp + frames[0].increment) % U32, NextClock(c, frames[0]), frames[1..])
  {
    forall k | 0 <= k < |frames| - 1
      ensures TimestampOf(NextClock(c, frames[0]), frames[1..], k) == TimestampOf(c, frames, k + 1)
    {
    }
    assert TimestampOf(c, frames, 0) == (c.timestamp + frames[0].increment) % U32;
    forall k | 0 <= k < |frames| - 1
      ensures TimestampOf(NextClock(c, frames[0]), frames[1..], k) != last
      ensures TimestampOf(NextClock(c, frames[0]), frames[1..], k) != (c.timestamp + frames[0].increment) % U32
    {
      assert TimestampOf(c, frames, k + 1) != last;
      assert TimestampOf(c, frames, 0) != TimestampOf(c, frames, k + 1);
    }
    forall i, k | 0 <= i < k < |frames| - 1
      ensures TimestampOf(NextClock(c, frames[0]), frames[1..], i)
           != TimestampOf(NextClock(c, frames[0]), frames[1..], k)
    {
      assert TimestampOf(c, frames, i + 1) != TimestampOf(c, frames, k + 1);
    }
  }

  lemma FirstTimestamp(last: nat, c: Clock, frames: seq<Frame>)
    requires frames != [] && DistinctTimestamps(last, c, frames)
    ensures last != (c.timestamp + frames[0].increment) % U32
  {
    assert TimestampOf(c, frames, 0) != last;
  }

  lemma OneIsDistinct(last: nat, c: Clock, frames: seq<Frame>)
    requires |frames| == 1 && last != (c.timestamp + frames[0].increment) % U32
    ensures DistinctTimestamps(last, c, frames)
  {
  }

  lemma ModAdd(t: nat, d: nat)
    ensures (t % U32 + d) % U32 == (t + d) % U32
  {
  }

  lemma {:induction false} SteadyTimestamp(c: Clock, frames: seq<Frame>, step: nat, k: nat)
    requires k < |frames|
    requires forall f | f in frames :: f.increment == step && f.payloads != []
    ensures TimestampOf(c, frames, k) == (c.timestamp + (k + 1) * step) % U32
    decreases k
  {
    if k > 0 {
      SteadyTimestamp(NextClock(c, frames[0]), frames[1..], step, k - 1);
      assert (k + 1) * step == k * step + step;
      ModAdd(c.timestamp + step, k * step);
    }
  }

  /** Two steps of one clock less than a turn apart show different times. */
  lemma SameTurn(t: nat, a: nat, b: nat, step: nat, n: nat)
    requires a < b <= n && step > 0 && n * step < U32
    ensures (t + a * step) % U32 != (t + b * step) % U32
  {
    var low, high := a * step, b * step;
    assert high - low == (b - a) * step;
    assert (b - a) * step > 0;
    assert n * step - high == (n - b) * step;
    assert low >= 0 && low < high <= n * step;
    Apart(t, low, high);
  }

  lemma Apart(t: nat, low: nat, high: nat)
    requires low < high < U32
    ensures (t + low) % U32 != (t + high) % U32
  {
  }

  /** At a steady frame rate the timestamps of consecutive frames differ until the 32-bit clock has gone round. */
  lemma SteadyRateIsDistinct(c: Clock, frames: seq<Frame>, step: nat)
    requires forall f | f in frames :: f.increment == step && f.payloads != []
    requires c.timestamp < U32 && 0 < step && |frames| * step < U32
    ensures DistinctTimestamps(c.timestamp, c, frames)
  {
    hide TimestampOf;
    forall k | 0 <= k < |frames|
      ensures TimestampOf(c, frames, k) != c.timestamp
    {
      NotTheFirst(c, frames, step, k);
    }
    forall i, k | 0 <= i < k < |frames|
      ensures TimestampOf(c, frames, i) != TimestampOf(c, frames, k)
    {
      NotEachOther(c, frames, step, i, k);
    }
  }

  lemma NotTheFirst(c: Clock, frames: seq<Frame>, step: nat, k: nat)
    requires forall f | f in frames :: f.increment == step && f.payloads != []
    requires c.timestamp < U32 && 0 < step && |frames| * step < U32 && k < |frames|
    ensures TimestampOf(c, frames, k) != c.timestamp
  {
    hide TimestampOf;
    SteadyTimestamp(c, frames, step, k);
    SameTurn(c.timestamp, 0, k + 1, step, |frames|);
  }

  lemma NotEachOther(c: Clock, frames: seq<Frame>, step: nat, i: nat, k: nat)
    requires forall f | f in frames :: f.increment == step && f.payloads != []
    requires c.timestamp < U32 && 0 < step && |frames| * step < U32 && i < k < |frames|
    ensures TimestampOf(c, frames, i) != TimestampOf(c, frames, k)
  {
    hide TimestampOf;
    SteadyTimestamp(c, frames, step, i);
    SteadyTimestamp(c, frames, step, k);
    SameTurn(c.timestamp, i + 1, k + 1, step, |frames|);
  }
}
