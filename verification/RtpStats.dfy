/** Loss accounting of received video packets, across wrap-around of the 16-bit
    sequence numbers and across the windows in which it is displayed. */
module RtpStats {
  import opened Bytes

  /** What happens to the statistics: a packet of a stream numbered without wrap-around, or the end of a window. */
  datatype Event = Packet(number: int) | EndOfWindow

  datatype Stats = Stats(initialized: bool, lastSeq: nat, received: nat, lost: nat)

  /** A packet with 16-bit sequence number `n`. */
  function Track(s: Stats, n: nat): Stats {
    if !s.initialized then Stats(true, n, s.received + 1, s.lost)
    else
      var ahead := (n - s.lastSeq) % U16;
      if 0 < ahead < 0x8000 then Stats(true, n, s.received + 1, s.lost + ahead - 1)
      else s.(received := s.received + 1)
  }

  /** What a window showed: packets received and lost. */
  datatype Window = Window(received: nat, lost: nat)

  /** The statistics after a run of events, and the windows shown. */
  function After(events: seq<Event>): (Stats, seq<Window>) {
    if events == [] then (Stats(false, 0, 0, 0), [])
    else
      var n := |events| - 1;
      var (s, shown) := After(events[..n]);
      match events[n]
      case Packet(x) => (Track(s, x % U16), shown)
      case EndOfWindow => (s.(received := 0, lost := 0), shown + [Window(s.received, s.lost)])
  }

  function Received(shown: seq<Window>): nat {
    if shown == [] then 0 else Received(shown[..|shown| - 1]) + shown[|shown| - 1].received
  }

  function Lost(shown: seq<Window>): nat {
    if shown == [] then 0 else Lost(shown[..|shown| - 1]) + shown[|shown| - 1].lost
  }

  // ----- What really happened -----

  /** The packets of a run, in arrival order. */
  function Numbers(events: seq<Event>): seq<int> {
    if events == [] then []
    else
      var n := |events| - 1;
      Numbers(events[..n]) + if events[n].Packet? then [events[n].number] else []
  }

  function Highest(xs: seq<int>): int
    requires xs != []
  {
    var n := |xs| - 1;
    if n == 0 || xs[n] > Highest(xs[..n]) then xs[n] else Highest(xs[..n])
  }

  /** Duplicates, and packets overtaken by a later one. */
  function Late(xs: seq<int>): nat {
    if |xs| <= 1 then 0
    else
      var n := |xs| - 1;
      Late(xs[..n]) + if xs[n] <= Highest(xs[..n]) then 1 else 0
  }

  /** Every packet is less than half a turn of the sequence numbers from the newest one seen before it. */
  predicate Plausible(xs: seq<int>) {
    if |xs| <= 1 then true
    else
      var n := |xs| - 1;
      Plausible(xs[..n]) && -0x8000 <= xs[n] - Highest(xs[..n]) < 0x8000
  }

  /** One more packet. */
  lemma Snoc(xs: seq<int>, x: int)
    ensures Highest(xs + [x]) == if xs == [] || x > Highest(xs) then x else Highest(xs)
    ensures Late(xs + [x]) == Late(xs) + if xs != [] && x <= Highest(xs) then 1 else 0
    ensures Plausible(xs + [x]) <==> Plausible(xs) && (xs == [] || -0x8000 <= x - Highest(xs) < 0x8000)
  {
    assert (xs + [x])[..|xs|] == xs;
  }

  lemma ShownSnoc(shown: seq<Window>, w: Window)
    ensures Received(shown + [w]) == Received(shown) + w.received && Lost(shown + [w]) == Lost(shown) + w.lost
  {
    assert (shown + [w])[..|shown|] == shown;
  }

  /** A 16-bit difference tells how far ahead a packet is, or that it is late. */
  lemma Ahead(x: int, newest: int)
    requires -0x8000 <= x - newest < 0x8000
    ensures var ahead := (x % U16 - newest % U16) % U16;
            if x > newest then ahead == x - newest && 0 < ahead < 0x8000 else ahead == 0 || ahead >= 0x8000
  {
    assert (x % U16 - newest % U16) % U16 == (x - newest) % U16;
  }

  /** The counters and windows agree with the packets seen. */
  ghost predicate Agree(s: Stats, shown: seq<Window>, xs: seq<int>) {
    && s.initialized == (xs != []) && Received(shown) + s.received == |xs|
    && if xs == [] then Lost(shown) + s.lost == 0
       else
         && s.lastSeq == Highest(xs) % U16
         && Received(shown) + s.received + Lost(shown) + s.lost == Highest(xs) - xs[0] + 1 + Late(xs)
  }

  lemma AgreeStep(s: Stats, shown: seq<Window>, xs: seq<int>, x: int)
    requires Agree(s, shown, xs) && Plausible(xs + [x])
    ensures Agree(Track(s, x % U16), shown, xs + [x])
  {
    hide Highest, Late, Plausible, Received, Lost;
    Snoc(xs, x);
    if xs != [] {
      Ahead(x, Highest(xs));
      assert (xs + [x])[0] == xs[0];
    } else {
      NoneLate();
    }
  }

  lemma NoneLate()
    ensures Late([]) == 0
  {
  }

  lemma {:induction false} Totals(events: seq<Event>)
    requires Plausible(Numbers(events))
    ensures Agree(After(events).0, After(events).1, Numbers(events))
  {
    hide Highest, Late, Plausible, Track, Agree;
    if events == [] {
      NoEvents();
    } else {
      var n := |events| - 1;
      var before, s, shown := Numbers(events[..n]), After(events[..n]).0, After(events[..n]).1;
      match events[n] {
        case Packet(x) =>
          Snoc(before, x);
          Totals(events[..n]);
          AgreeStep(s, shown, before, x);
        case EndOfWindow =>
          assert before + [] == before;
          Totals(events[..n]);
          WindowEnds(s, shown, before);
      }
    }
  }

  lemma NoEvents()
    ensures Agree(Stats(false, 0, 0, 0), [], [])
  {
  }

  lemma WindowEnds(s: Stats, shown: seq<Window>, xs: seq<int>)
    requires Agree(s, shown, xs)
    ensures Agree(s.(received := 0, lost := 0), shown + [Window(s.received, s.lost)], xs)
  {
    hide Highest, Late, Received, Lost;
    ShownSnoc(shown, Window(s.received, s.lost));
  }

  /** Over any run and any windows: received plus lost is the span of packet numbers seen plus the
      late and duplicate packets. */
  lemma LossConservation(events: seq<Event>)
    requires Plausible(Numbers(events)) && Numbers(events) != []
    ensures var (s, shown) := After(events);
            var xs := Numbers(events);
            && Received(shown) + s.received == |xs|
            && Received(shown) + s.received + Lost(shown) + s.lost == (Highest(xs) - xs[0]) + 1 + Late(xs)
  {
    Totals(events);
  }

  /** The packet number nearest to `newest` that has sequence number `n`. */
  function Extended(newest: int, n: nat): int {
    var ahead := (n - newest) % U16;
    if ahead < 0x8000 then newest + ahead else newest + ahead - U16
  }

  /** Numbers for any sequence of 16-bit ones, so the conservation law covers every packet sequence. */
  function Unwrapped(seqs: seq<nat>): (xs: seq<int>)
    requires forall k | 0 <= k < |seqs| :: seqs[k] < U16
    ensures |xs| == |seqs|
  {
    if seqs == [] then []
    else
      var n := |seqs| - 1;
      var before := Unwrapped(seqs[..n]);
      before + [if n == 0 then seqs[0] else Extended(Highest(before), seqs[n])]
  }

  lemma Nearest(newest: int, n: nat)
    requires n < U16
    ensures Extended(newest, n) % U16 == n && -0x8000 <= Extended(newest, n) - newest < 0x8000
  {
  }

  lemma {:induction false} EverySequenceIsPlausible(seqs: seq<nat>)
    requires forall k | 0 <= k < |seqs| :: seqs[k] < U16
    ensures Plausible(Unwrapped(seqs))
    ensures forall k | 0 <= k < |seqs| :: Unwrapped(seqs)[k] % U16 == seqs[k]
  {
    hide Highest, Plausible, Extended;
    if seqs == [] {
      NothingPlausible();
    } else {
      var n := |seqs| - 1;
      EverySequenceIsPlausible(seqs[..n]);
      var before := Unwrapped(seqs[..n]);
      if n > 0 {
        Nearest(Highest(before), seqs[n]);
      }
      Snoc(before, if n == 0 then seqs[0] else Extended(Highest(before), seqs[n]));
    }
  }

  lemma NothingPlausible()
    ensures Plausible([])
  {
  }

  // ----- The program's counters -----

  class Tracker {
    var initialized: bool
    var lastSeq: nat
    var receivedWindow: nat
    var lostWindow: nat
    var receivedDisplay: nat
    var lostDisplay: nat

    function View(): Stats
      reads this
    {
      Stats(initialized, lastSeq, receivedWindow, lostWindow)
    }

    constructor ()
      ensures View() == After([]).0
    {
      initialized, lastSeq, receivedWindow, lostWindow := false, 0, 0, 0;
      receivedDisplay, lostDisplay := 0, 0;
    }

    method TrackPacket(n: nat)
      requires n < U16 && lastSeq < U16
      modifies this`initialized, this`lastSeq, this`receivedWindow, this`lostWindow
      ensures View() == Track(old(View()), n) && lastSeq < U16
    {
      if !initialized {
        lastSeq, initialized := n, true;
      } else {
        var ahead := (n - lastSeq) % U16;
        if ahead > 0 && ahead < 0x8000 {
          if ahead > 1 {
            lostWindow := lostWindow + (ahead - 1);
          }
          lastSeq := n;
        }
      }
      receivedWindow := receivedWindow + 1;
    }

    method ShowWindow()
      modifies this`receivedWindow, this`lostWindow, this`receivedDisplay, this`lostDisplay
      ensures View() == old(View()).(received := 0, lost := 0)
      ensures Window(receivedDisplay, lostDisplay) == Window(old(receivedWindow), old(lostWindow))
    {
      lostDisplay, receivedDisplay := lostWindow, receivedWindow;
      lostWindow, receivedWindow := 0, 0;
    }
  }
}
