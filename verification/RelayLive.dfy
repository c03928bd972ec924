/** Live delivery: how the relay hands each arriving object to a track's subscriptions. */
module RelayLive {
  import opened Wrappers
  import opened MoqObjects
  import opened RelayWire

  datatype Filter =
    | LargestObject
    | NextGroupStart
    | AbsoluteStart(start: Location)
    | AbsoluteRange(start: Location, endGroup: nat)

  /** A negative layer limit is none. A fetch is listed with the track but served elsewhere. */
  datatype Sub = Sub(key: Key, alias: nat, fetch: bool, active: bool, forward: bool, start: Location, end: Location,
                     maxTemporal: int, maxSpatial: int)

  datatype Event =
    | Subscribe(key: Key, alias: nat, forward: bool, filter: Filter)
    | Offer(key: Key, alias: nat, forward: bool)
    | Fetch(key: Key)
    | TrackAccepted
    | PublishAccepted(key: Key, forward: bool, filter: Filter)
    | Update(key: Key, forward: bool)
    | Limit(key: Key, maxTemporal: int, maxSpatial: int)
    | Unsubscribe(key: Key)
    | Arrive(obj: Object)
  {
    predicate Admits(k: Key) {
      (Subscribe? || Offer? || Fetch?) && key == k
    }
  }

  /** The track: `latest` is where the object that arrived last stands, `wire` all that was sent. */
  datatype State = State(pending: bool, latest: Option<Location>, subs: seq<Sub>, wire: seq<Message>)

  const LAST := Location(MAX_VARINT, MAX_VARINT)

  // ----- The subscription filter -----

  function StartOf(filter: Filter, latest: Option<Location>): Location {
    match filter
    case LargestObject => if latest.Some? then latest.value else Location(0, 0)
    case NextGroupStart => Location(if latest.Some? then latest.value.group + 1 else 0, 0)
    case AbsoluteStart(start) => start
    case AbsoluteRange(start, _) => start
  }

  function EndOf(filter: Filter): Location {
    if filter.AbsoluteRange? && filter.endGroup != 0 then Location(filter.endGroup - 1, MAX_VARINT) else LAST
  }

  // ----- One event -----

  /** The object is past the end of the subscription, so the subscription is over. */
  predicate Ends(s: Sub, o: Object) {
    !s.fetch && !o.at.Before(s.start) && s.end.Before(o.at)
  }

  /** The object is one the subscription asked for and may have now. */
  predicate Wanted(s: Sub, o: Object) {
    && !s.fetch && !o.at.Before(s.start) && !s.end.Before(o.at)
    && s.active && s.forward && WithinLimits(o, s.maxTemporal, s.maxSpatial)
  }

  function Serve(s: Sub, o: Object): seq<Message> {
    if Ends(s, o) then [Done(s.key)] else if Wanted(s, o) then [Send(s.key, s.alias, o)] else []
  }

  function ServeAll(subs: seq<Sub>, o: Object): seq<Message> {
    if subs == [] then []
    else
      var n := |subs| - 1;
      ServeAll(subs[..n], o) + Serve(subs[n], o)
  }

  /** The subscriptions that go on after the object. */
  function Remaining(subs: seq<Sub>, o: Object): seq<Sub> {
    if subs == [] then []
    else
      var n := |subs| - 1;
      Remaining(subs[..n], o) + if Ends(subs[n], o) then [] else [subs[n]]
  }

  function Without(subs: seq<Sub>, gone: set<Key>): seq<Sub> {
    if subs == [] then []
    else
      var n := |subs| - 1;
      Without(subs[..n], gone) + if subs[n].key in gone then [] else [subs[n]]
  }

  predicate InUse(subs: seq<Sub>, k: Key) {
    exists i :: 0 <= i < |subs| && subs[i].key == k
  }

  function Admit(subs: seq<Sub>, s: Sub): seq<Sub> {
    if InUse(subs, s.key) then subs else subs + [s]
  }

  /** What an event that changes settings does to a subscription. */
  function Adjusted(s: Sub, e: Event, latest: Option<Location>): (r: Sub)
    ensures r.key == s.key && r.alias == s.alias && r.fetch == s.fetch
  {
    match e
    case TrackAccepted => s.(active := true)
    case PublishAccepted(k, forward, filter) =>
      if k != s.key then s
      else s.(active := true, forward := forward, start := StartOf(filter, latest), end := EndOf(filter))
    case Update(k, forward) => if k == s.key then s.(forward := forward) else s
    case Limit(k, t, p) => if k == s.key then s.(maxTemporal := t, maxSpatial := p) else s
    case _ => s
  }

  function AllAdjusted(subs: seq<Sub>, e: Event, latest: Option<Location>): (r: seq<Sub>)
    ensures |r| == |subs| && forall i :: 0 <= i < |r| ==> r[i] == Adjusted(subs[i], e, latest)
  {
    seq(|subs|, i requires 0 <= i < |subs| => Adjusted(subs[i], e, latest))
  }

  /** What an admission enters in the track's list. */
  function NewSub(t: State, e: Event): Sub
    requires e.Subscribe? || e.Offer? || e.Fetch?
  {
    match e
    case Subscribe(k, alias, forward, filter) =>
      var latest := if t.pending then None else t.latest;
      Sub(k, alias, false, !t.pending, forward, StartOf(filter, latest), EndOf(filter), -1, -1)
    case Offer(k, alias, forward) => Sub(k, alias, false, false, forward, Location(0, 0), LAST, -1, -1)
    case Fetch(k) => Sub(k, 0, true, false, true, Location(0, 0), Location(0, 0), -1, -1)
  }

  function Step(t: State, e: Event): State {
    match e
    case Arrive(o) => t.(latest := Some(o.at), subs := Remaining(t.subs, o), wire := t.wire + ServeAll(t.subs, o))
    case Unsubscribe(k) => t.(subs := Without(t.subs, {k}))
    case TrackAccepted => t.(pending := false, subs := AllAdjusted(t.subs, e, t.latest))
    case PublishAccepted(_, _, _) => t.(subs := AllAdjusted(t.subs, e, t.latest))
    case Update(_, _) => t.(subs := AllAdjusted(t.subs, e, t.latest))
    case Limit(_, _, _) => t.(subs := AllAdjusted(t.subs, e, t.latest))
    case _ => t.(subs := Admit(t.subs, NewSub(t, e)))
  }

  function Run(t: State, es: seq<Event>): State {
    if es == [] then t else Step(Run(t, es[..|es| - 1]), es[|es| - 1])
  }

  ghost predicate Unique(subs: seq<Sub>) {
    forall i, j :: 0 <= i < j < |subs| ==> subs[i].key != subs[j].key
  }

  // ----- What one subscriber is to see, read off the log alone -----

  function Latest(latest: Option<Location>, es: seq<Event>, n: nat): Option<Location>
    requires n <= |es|
  {
    if n == 0 then latest
    else if es[n - 1].Arrive? then Some(es[n - 1].obj.at)
    else Latest(latest, es, n - 1)
  }

  /** The settings of the subscription after the first `n` events of the log. */
  function Settings(s: Sub, latest: Option<Location>, es: seq<Event>, n: nat): (r: Sub)
    requires n <= |es|
    ensures r.key == s.key && r.alias == s.alias && r.fetch == s.fetch
  {
    if n == 0 then s else Adjusted(Settings(s, latest, es, n - 1), es[n - 1], Latest(latest, es, n - 1))
  }

  /** Entry `i` of the log closes the subscription: the subscriber leaves, or an object is past its end. */
  predicate Closes(s: Sub, latest: Option<Location>, es: seq<Event>, i: nat)
    requires i < |es|
  {
    es[i] == Unsubscribe(s.key) || (es[i].Arrive? && Ends(Settings(s, latest, es, i), es[i].obj))
  }

  /** The first entry from `i` on that closes the subscription; the length of the log when none does. */
  function Close(s: Sub, latest: Option<Location>, es: seq<Event>, i: nat): (c: nat)
    requires i <= |es|
    ensures i <= c <= |es| && (c < |es| ==> Closes(s, latest, es, c))
    ensures forall j :: i <= j < c ==> !Closes(s, latest, es, j)
    decreases |es| - i
  {
    if i == |es| || Closes(s, latest, es, i) then i else Close(s, latest, es, i + 1)
  }

  /** The objects among the first `n` entries that the subscription wants at the time, in order. */
  function Filtered(s: Sub, latest: Option<Location>, es: seq<Event>, n: nat): seq<Message>
    requires n <= |es|
  {
    if n == 0 then []
    else
      Filtered(s, latest, es, n - 1)
      + if es[n - 1].Arrive? && Wanted(Settings(s, latest, es, n - 1), es[n - 1].obj)
        then [Send(s.key, s.alias, es[n - 1].obj)] else []
  }

  function LiveFeed(s: Sub, latest: Option<Location>, es: seq<Event>): seq<Message> {
    var c := Close(s, latest, es, 0);
    Filtered(s, latest, es, c) + if c < |es| && es[c].Arrive? then [Done(s.key)] else []
  }

  // ----- Lists -----

  lemma ToServe(k: Key, s: Sub, o: Object)
    ensures To(k, Serve(s, o)) == if s.key == k then Serve(s, o) else []
  {
    var none: seq<Message> := [];
    if Serve(s, o) != [] {
      ToSnoc(k, none, Serve(s, o)[0]);
      assert none + [Serve(s, o)[0]] == Serve(s, o);
    }
  }

  lemma {:induction false} ServeOthers(k: Key, subs: seq<Sub>, o: Object)
    requires !InUse(subs, k)
    ensures To(k, ServeAll(subs, o)) == []
  {
    hide Serve, To;
    ToNone(k);
    if subs != [] {
      var n := |subs| - 1;
      assert forall i :: 0 <= i < n ==> subs[..n][i] == subs[i];
      ServeOthers(k, subs[..n], o);
      ToServe(k, subs[n], o);
      ToAppend(k, ServeAll(subs[..n], o), Serve(subs[n], o));
    }
  }

  /** One subscriber's share of a delivery does not depend on the other subscriptions. */
  lemma {:induction false} ServeOne(subs: seq<Sub>, i: nat, o: Object)
    requires Unique(subs) && i < |subs|
    ensures To(subs[i].key, ServeAll(subs, o)) == Serve(subs[i], o)
  {
    hide Serve, To;
    ToNone(subs[i].key);
    var n, k := |subs| - 1, subs[i].key;
    ToServe(k, subs[n], o);
    ToAppend(k, ServeAll(subs[..n], o), Serve(subs[n], o));
    if i == n {
      assert !InUse(subs[..n], k);
      ServeOthers(k, subs[..n], o);
    } else {
      ServeOne(subs[..n], i, o);
    }
  }

  lemma {:induction false} RemainingHas(subs: seq<Sub>, o: Object, s: Sub)
    ensures s in Remaining(subs, o) <==> s in subs && !Ends(s, o)
  {
    if subs != [] {
      RemainingHas(subs[..|subs| - 1], o, s);
      assert subs == subs[..|subs| - 1] + [subs[|subs| - 1]];
    }
  }

  lemma {:induction false} WithoutHas(subs: seq<Sub>, gone: set<Key>, s: Sub)
    ensures s in Without(subs, gone) <==> s in subs && s.key !in gone
  {
    if subs != [] {
      WithoutHas(subs[..|subs| - 1], gone, s);
      assert subs == subs[..|subs| - 1] + [subs[|subs| - 1]];
    }
  }

  lemma UniqueSnoc(subs: seq<Sub>, s: Sub)
    requires Unique(subs) && !InUse(subs, s.key)
    ensures Unique(subs + [s])
  {
  }

  lemma NotInUse(subs: seq<Sub>, k: Key)
    ensures InUse(subs, k) <==> exists s :: s in subs && s.key == k
  {
    if s :| s in subs && s.key == k {
      var i :| 0 <= i < |subs| && subs[i] == s;
      assert subs[i].key == k;
    }
    if InUse(subs, k) {
      var i :| 0 <= i < |subs| && subs[i].key == k;
      assert subs[i] in subs;
    }
  }

  lemma {:induction false} RemainingUnique(subs: seq<Sub>, o: Object)
    requires Unique(subs)
    ensures Unique(Remaining(subs, o))
  {
    if subs != [] {
      var n := |subs| - 1;
      var rest := Remaining(subs[..n], o);
      RemainingUnique(subs[..n], o);
      forall i | 0 <= i < |rest|
        ensures rest[i].key != subs[n].key
      {
        RemainingHas(subs[..n], o, rest[i]);
        var j :| 0 <= j < n && subs[..n][j] == rest[i];
      }
      assert !InUse(rest, subs[n].key);
      UniqueSnoc(rest, subs[n]);
    }
  }

  lemma {:induction false} WithoutUnique(subs: seq<Sub>, gone: set<Key>)
    requires Unique(subs)
    ensures Unique(Without(subs, gone))
  {
    if subs != [] {
      var n := |subs| - 1;
      var rest := Without(subs[..n], gone);
      WithoutUnique(subs[..n], gone);
      forall i | 0 <= i < |rest|
        ensures rest[i].key != subs[n].key
      {
        WithoutHas(subs[..n], gone, rest[i]);
        var j :| 0 <= j < n && subs[..n][j] == rest[i];
      }
      assert !InUse(rest, subs[n].key);
      UniqueSnoc(rest, subs[n]);
    }
  }

  lemma StepUnique(t: State, e: Event)
    requires Unique(t.subs)
    ensures Unique(Step(t, e).subs)
  {
    match e
    case Arrive(o) => RemainingUnique(t.subs, o);
    case Unsubscribe(k) => WithoutUnique(t.subs, {k});
    case Subscribe(_, _, _, _) =>
    case Offer(_, _, _) =>
    case Fetch(_) =>
    case _ =>
  }

  /** No two subscriptions of a track ever have the same key. */
  lemma {:induction false} KeysStayUnique(t: State, es: seq<Event>)
    requires Unique(t.subs)
    ensures Unique(Run(t, es).subs)
  {
    hide Unique, Step;
    if es == [] {
      assert Run(t, es) == t;
    } else {
      KeysStayUnique(t, es[..|es| - 1]);
      StepUnique(Run(t, es[..|es| - 1]), es[|es| - 1]);
    }
  }

  // ----- One event, seen by one subscriber -----

  /** While nothing closes it, a subscription has the settings the log gives it, and gets what it wants. */
  lemma StepOpen(t: State, s: Sub, e: Event)
    requires Unique(t.subs) && s in t.subs
    requires e != Unsubscribe(s.key) && !(e.Arrive? && Ends(s, e.obj))
    ensures Adjusted(s, e, t.latest) in Step(t, e).subs
    ensures To(s.key, Step(t, e).wire)
         == To(s.key, t.wire) + if e.Arrive? && Wanted(s, e.obj) then [Send(s.key, s.alias, e.obj)] else []
  {
    hide Unique, To, Remaining, Without, ServeAll, Wanted, InUse;
    var i :| 0 <= i < |t.subs| && t.subs[i] == s;
    match e
    case Arrive(o) =>
      RemainingHas(t.subs, o, s);
      ServeOne(t.subs, i, o);
      ToAppend(s.key, t.wire, ServeAll(t.subs, o));
    case Unsubscribe(k) => WithoutHas(t.subs, {k}, s);
    case TrackAccepted => assert AllAdjusted(t.subs, e, t.latest)[i] == Adjusted(s, e, t.latest);
    case PublishAccepted(_, _, _) => assert AllAdjusted(t.subs, e, t.latest)[i] == Adjusted(s, e, t.latest);
    case Update(_, _) => assert AllAdjusted(t.subs, e, t.latest)[i] == Adjusted(s, e, t.latest);
    case Limit(_, _, _) => assert AllAdjusted(t.subs, e, t.latest)[i] == Adjusted(s, e, t.latest);
    case _ =>
  }

  lemma StepCloses(t: State, s: Sub, e: Event)
    requires Unique(t.subs) && s in t.subs
    requires e == Unsubscribe(s.key) || (e.Arrive? && Ends(s, e.obj))
    ensures !InUse(Step(t, e).subs, s.key)
    ensures To(s.key, Step(t, e).wire) == To(s.key, t.wire) + if e.Arrive? then [Done(s.key)] else []
  {
    hide To, Remaining, Without, ServeAll, Wanted, InUse, Ends;
    var i :| 0 <= i < |t.subs| && t.subs[i] == s;
    NotInUse(Step(t, e).subs, s.key);
    match e
    case Arrive(o) =>
      forall r | r in Remaining(t.subs, o)
        ensures r.key != s.key
      {
        RemainingHas(t.subs, o, r);
        var j :| 0 <= j < |t.subs| && t.subs[j] == r;
      }
      ServeOne(t.subs, i, o);
      ToAppend(s.key, t.wire, ServeAll(t.subs, o));
    case Unsubscribe(k) =>
      forall r | r in Without(t.subs, {k})
        ensures r.key != s.key
      {
        WithoutHas(t.subs, {k}, r);
      }
    case _ =>
  }

  lemma StepClosed(t: State, k: Key, e: Event)
    requires !InUse(t.subs, k) && !e.Admits(k)
    ensures !InUse(Step(t, e).subs, k)
    ensures To(k, Step(t, e).wire) == To(k, t.wire)
  {
    hide To, Remaining, Without, ServeAll, Wanted, Ends;
    NotInUse(t.subs, k);
    NotInUse(Step(t, e).subs, k);
    match e
    case Arrive(o) =>
      forall r | r in Remaining(t.subs, o)
        ensures r.key != k
      {
        RemainingHas(t.subs, o, r);
      }
      ServeOthers(k, t.subs, o);
      ToAppend(k, t.wire, ServeAll(t.subs, o));
    case Unsubscribe(q) =>
      forall r | r in Without(t.subs, {q})
        ensures r.key != k
      {
        WithoutHas(t.subs, {q}, r);
      }
    case _ =>
  }

  // ----- The rule of an arrival, written out -----

  /** An arrival adds exactly one object to what a listed subscription is sent if and only if it is no fetch, is
      active and forwarding, the object lies between start and end, group before object, and both
      layer ids, a byte each, are within their limits. */
  lemma SendRule(t: State, s: Sub, o: Object)
    requires Unique(t.subs) && s in t.subs
    ensures var word := if o.marking.Some? then o.marking.value else o.subgroup;
            To(s.key, Step(t, Arrive(o)).wire) == To(s.key, t.wire) + [Send(s.key, s.alias, o)]
            <==>
            && !s.fetch && s.active && s.forward
            && (s.start.group < o.at.group || (s.start.group == o.at.group && s.start.obj <= o.at.obj))
            && (o.at.group < s.end.group || (o.at.group == s.end.group && o.at.obj <= s.end.obj))
            && (s.maxTemporal < 0 || word % 256 <= s.maxTemporal % 256)
            && (s.maxSpatial < 0 || word / 256 % 256 <= s.maxSpatial % 256)
  {
    hide To, Step, Unique;
    ArrivalServes(t, s, o);
    hide WithinLimits;
    SendOnly(s, o);
    LayersWritten(o, s.maxTemporal, s.maxSpatial);
    SamePrefix(To(s.key, t.wire), Serve(s, o), [Send(s.key, s.alias, o)]);
  }

  /** It adds exactly one notice, and takes the subscription off the list, if and only if it is no
      fetch and the object lies past its end and not before its start. */
  lemma DoneRule(t: State, s: Sub, o: Object)
    requires Unique(t.subs) && s in t.subs
    ensures (To(s.key, Step(t, Arrive(o)).wire) == To(s.key, t.wire) + [Done(s.key)])
            <==>
            && !s.fetch
            && (s.start.group < o.at.group || (s.start.group == o.at.group && s.start.obj <= o.at.obj))
            && (s.end.group < o.at.group || (s.end.group == o.at.group && s.end.obj < o.at.obj))
    ensures !InUse(Step(t, Arrive(o)).subs, s.key)
            <==>
            && !s.fetch
            && (s.start.group < o.at.group || (s.start.group == o.at.group && s.start.obj <= o.at.obj))
            && (s.end.group < o.at.group || (s.end.group == o.at.group && s.end.obj < o.at.obj))
  {
    hide To, Step, Unique, InUse, WithinLimits;
    ArrivalServes(t, s, o);
    SendOnly(s, o);
    SamePrefix(To(s.key, t.wire), Serve(s, o), [Done(s.key)]);
    if Ends(s, o) {
      StepCloses(t, s, Arrive(o));
    } else {
      StepOpen(t, s, Arrive(o));
      NotInUse(Step(t, Arrive(o)).subs, s.key);
    }
  }

  /** Nothing else is added, and to nobody else. */
  lemma ArrivalServes(t: State, s: Sub, o: Object)
    requires Unique(t.subs) && s in t.subs
    ensures To(s.key, Step(t, Arrive(o)).wire) == To(s.key, t.wire) + Serve(s, o)
    ensures |Serve(s, o)| <= 1
  {
    hide Unique, To, Remaining, ServeAll;
    var i :| 0 <= i < |t.subs| && t.subs[i] == s;
    ServeOne(t.subs, i, o);
    ToAppend(s.key, t.wire, ServeAll(t.subs, o));
  }

  lemma SendOnly(s: Sub, o: Object)
    ensures Serve(s, o) == [Send(s.key, s.alias, o)] <==> Wanted(s, o)
    ensures Serve(s, o) == [Done(s.key)] <==> Ends(s, o)
  {
  }

  lemma LayersWritten(o: Object, maxTemporal: int, maxSpatial: int)
    ensures var word := if o.marking.Some? then o.marking.value else o.subgroup;
            WithinLimits(o, maxTemporal, maxSpatial)
            <==>
            && (maxTemporal < 0 || word % 256 <= maxTemporal % 256)
            && (maxSpatial < 0 || word / 256 % 256 <= maxSpatial % 256)
  {
  }

  lemma SamePrefix(a: seq<Message>, b: seq<Message>, c: seq<Message>)
    ensures a + b == a + c <==> b == c
  {
    if a + b == a + c {
      assert b == (a + b)[|a|..] && c == (a + c)[|a|..];
    }
  }

  // ----- Whole runs -----

  lemma RunSnoc(t: State, es: seq<Event>, n: nat)
    requires n < |es|
    ensures Run(t, es[..n + 1]) == Step(Run(t, es[..n]), es[n])
  {
    assert es[..n + 1][..n] == es[..n];
  }

  lemma {:induction false} RunLatest(t: State, es: seq<Event>, n: nat)
    requires n <= |es|
    ensures Run(t, es[..n]).latest == Latest(t.latest, es, n)
  {
    if n > 0 {
      RunLatest(t, es, n - 1);
      RunSnoc(t, es, n - 1);
    }
  }

  lemma {:induction false} RunOpen(t: State, s: Sub, es: seq<Event>, n: nat)
    requires Unique(t.subs) && s in t.subs
    requires n <= Close(s, t.latest, es, 0)
    ensures Settings(s, t.latest, es, n) in Run(t, es[..n]).subs
    ensures To(s.key, Run(t, es[..n]).wire) == To(s.key, t.wire) + Filtered(s, t.latest, es, n)
  {
    hide Unique, To, Step, Wanted, Ends, Run;
    if n == 0 {
      assert Run(t, es[..0]) == t by { RunNone(t, es); }
    } else {
      RunOpen(t, s, es, n - 1);
      KeysStayUnique(t, es[..n - 1]);
      RunLatest(t, es, n - 1);
      RunSnoc(t, es, n - 1);
      assert !Closes(s, t.latest, es, n - 1);
      StepOpen(Run(t, es[..n - 1]), Settings(s, t.latest, es, n - 1), es[n - 1]);
    }
  }

  lemma RunNone(t: State, es: seq<Event>)
    ensures Run(t, es[..0]) == t
  {
  }

  lemma {:induction false} RunClosed(t: State, k: Key, es: seq<Event>, c: nat, n: nat)
    requires c <= n <= |es| && !InUse(Run(t, es[..c]).subs, k)
    requires forall i :: c <= i < |es| ==> !es[i].Admits(k)
    ensures To(k, Run(t, es[..n]).wire) == To(k, Run(t, es[..c]).wire)
    ensures !InUse(Run(t, es[..n]).subs, k)
  {
    hide To, Step, Run, InUse;
    if n > c {
      RunClosed(t, k, es, c, n - 1);
      RunSnoc(t, es, n - 1);
      StepClosed(Run(t, es[..n - 1]), k, es[n - 1]);
    }
  }

  /** Over any run, whatever the other subscriptions do, a subscription is sent exactly the
      arrivals it wants up to its close, in order; then one PUBLISH_DONE if an object past its
      end closed it; then nothing, unless its key is admitted again. */
  lemma LiveDeliveryIsAFilter(t: State, s: Sub, es: seq<Event>)
    requires Unique(t.subs) && s in t.subs
    requires forall i :: Close(s, t.latest, es, 0) < i < |es| ==> !es[i].Admits(s.key)
    ensures To(s.key, Run(t, es).wire) == To(s.key, t.wire) + LiveFeed(s, t.latest, es)
  {
    hide Unique, To, Step, Wanted, Ends, Run, Filtered, InUse, Settings;
    var c := Close(s, t.latest, es, 0);
    RunOpen(t, s, es, c);
    assert es[..|es|] == es;
    if c < |es| {
      var at := Run(t, es[..c]);
      KeysStayUnique(t, es[..c]);
      RunSnoc(t, es, c);
      assert Closes(s, t.latest, es, c);
      StepCloses(at, Settings(s, t.latest, es, c), es[c]);
      RunClosed(t, s.key, es, c + 1, |es|);
    }
  }

  // ----- What is in force -----

  /** Forwarding is as the last update of this subscription, or its acceptance, left it. */
  lemma {:induction false} ForwardInForce(s: Sub, latest: Option<Location>, es: seq<Event>, j: nat, n: nat)
    requires j < n <= |es| && SetsForward(es[j], s.key)
    requires forall i | j < i < n :: !SetsForward(es[i], s.key)
    ensures var u := Settings(s, latest, es, n);
            u.forward == es[j].forward
    decreases n
  {
    if j < n - 1 {
      ForwardInForce(s, latest, es, j, n - 1);
    }
  }

  lemma {:induction false} ForwardAsBefore(s: Sub, latest: Option<Location>, es: seq<Event>, n: nat)
    requires n <= |es| && forall j | 0 <= j < n :: !SetsForward(es[j], s.key)
    ensures Settings(s, latest, es, n).forward == s.forward
  {
    if n > 0 {
      ForwardAsBefore(s, latest, es, n - 1);
    }
  }

  predicate SetsForward(e: Event, k: Key) {
    (e.Update? || e.PublishAccepted?) && e.key == k
  }

  /** It is active once the track or its own offer has been accepted. */
  lemma {:induction false} ActiveInForce(s: Sub, latest: Option<Location>, es: seq<Event>, n: nat)
    requires n <= |es|
    ensures Settings(s, latest, es, n).active
       <==> s.active || exists j | 0 <= j < n :: Activates(es[j], s.key)
  {
    if n > 0 {
      ActiveInForce(s, latest, es, n - 1);
    }
  }

  predicate Activates(e: Event, k: Key) {
    e.TrackAccepted? || (e.PublishAccepted? && e.key == k)
  }

  /** Its window is that of its last acceptance, from the object that was latest then. */
  lemma {:induction false} WindowInForce(s: Sub, latest: Option<Location>, es: seq<Event>, j: nat, n: nat)
    requires j < n <= |es| && SetsWindow(es[j], s.key)
    requires forall i | j < i < n :: !SetsWindow(es[i], s.key)
    ensures var u := Settings(s, latest, es, n);
            u.start == StartOf(es[j].filter, Latest(latest, es, j)) && u.end == EndOf(es[j].filter)
    decreases n
  {
    if j < n - 1 {
      WindowInForce(s, latest, es, j, n - 1);
    }
  }

  lemma {:induction false} WindowAsBefore(s: Sub, latest: Option<Location>, es: seq<Event>, n: nat)
    requires n <= |es| && forall j | 0 <= j < n :: !SetsWindow(es[j], s.key)
    ensures Settings(s, latest, es, n).start == s.start && Settings(s, latest, es, n).end == s.end
  {
    if n > 0 {
      WindowAsBefore(s, latest, es, n - 1);
    }
  }

  predicate SetsWindow(e: Event, k: Key) {
    e.PublishAccepted? && e.key == k
  }

  /** Its layer limits are those set last. */
  lemma {:induction false} LimitsInForce(s: Sub, latest: Option<Location>, es: seq<Event>, j: nat, n: nat)
    requires j < n <= |es| && SetsLimits(es[j], s.key)
    requires forall i | j < i < n :: !SetsLimits(es[i], s.key)
    ensures var u := Settings(s, latest, es, n);
            u.maxTemporal == es[j].maxTemporal && u.maxSpatial == es[j].maxSpatial
    decreases n
  {
    if j < n - 1 {
      LimitsInForce(s, latest, es, j, n - 1);
    }
  }

  lemma {:induction false} LimitsAsBefore(s: Sub, latest: Option<Location>, es: seq<Event>, n: nat)
    requires n <= |es| && forall j | 0 <= j < n :: !SetsLimits(es[j], s.key)
    ensures var u := Settings(s, latest, es, n);
            u.maxTemporal == s.maxTemporal && u.maxSpatial == s.maxSpatial
  {
    if n > 0 {
      LimitsAsBefore(s, latest, es, n - 1);
    }
  }

  predicate SetsLimits(e: Event, k: Key) {
    e.Limit? && e.key == k
  }

  /** What a request enters: a subscription active unless the track is pending, forwarding as asked, in
      the window of its filter; an offer neither active nor bounded; a fetch that live delivery skips.
      None has limits. */
  lemma AdmittedAs(t: State, e: Event)
    requires e.Subscribe? || e.Offer? || e.Fetch?
    ensures var s := NewSub(t, e);
            && s.key == e.key && s.maxTemporal < 0 && s.maxSpatial < 0 && (s.fetch <==> e.Fetch?)
            && (!e.Fetch? ==> s.alias == e.alias && s.forward == e.forward)
            && (e.Subscribe? ==>
                  && s.active == !t.pending
                  && s.start == StartOf(e.filter, if t.pending then None else t.latest) && s.end == EndOf(e.filter))
            && (e.Offer? ==>
                  !s.active && s.start == Location(0, 0) && s.end.group == s.end.obj == 4611686018427387903)
  {
  }

  // ----- Pauses -----

  /** No object goes to `k` any more: none of its subscriptions may have one. */
  ghost predicate Silent(t: State, k: Key) {
    forall s | s in t.subs && s.key == k :: s.fetch || !s.forward || !s.active
  }

  /** What is sent to `k` begins with `before`, and goes on without an object. */
  predicate NoSends(before: seq<Message>, after: seq<Message>) {
    before <= after && forall i | |before| <= i < |after| :: !after[i].Send?
  }

  /** The event turns forwarding on for `k`: an update, an acceptance or a new subscription that asks for it. */
  predicate Resumes(e: Event, k: Key) {
    (e.Update? || e.PublishAccepted? || e.Subscribe? || e.Offer?) && e.key == k && e.forward
  }

  /** Between a pause and the next event that forwards again, no object is sent to the subscription. */
  lemma {:induction false} PausedGetsNothing(t: State, k: Key, es: seq<Event>)
    requires forall e | e in es :: !Resumes(e, k)
    ensures NoSends(To(k, t.wire), To(k, Run(Step(t, Update(k, false)), es).wire))
    ensures forall s | s in Run(Step(t, Update(k, false)), es).subs && s.key == k :: s.fetch || !s.forward
  {
    hide To, Run, Step;
    if es == [] {
      assert Run(Step(t, Update(k, false)), es) == Step(t, Update(k, false)) by { RunEmpty(Step(t, Update(k, false))); }
      Pause(t, k);
    } else {
      var n := |es| - 1;
      PausedGetsNothing(t, k, es[..n]);
      var u := Run(Step(t, Update(k, false)), es[..n]);
      assert es == es[..n] + [es[n]] && es[n] in es;
      RunSnoc(Step(t, Update(k, false)), es, n);
      assert es[..n + 1] == es;
      SilentStep(u, k, es[n]);
      PauseStep(u, k, es[n]);
    }
  }

  lemma RunEmpty(t: State)
    ensures Run(t, []) == t
  {
  }

  lemma Pause(t: State, k: Key)
    ensures Step(t, Update(k, false)).wire == t.wire
    ensures forall s | s in Step(t, Update(k, false)).subs && s.key == k :: !s.forward
  {
  }

  /** Nothing is sent to a subscriber none of whose subscriptions may have an object. */
  lemma SilentStep(t: State, k: Key, e: Event)
    requires Silent(t, k)
    ensures forall before :: NoSends(before, To(k, t.wire)) ==> NoSends(before, To(k, Step(t, e).wire))
  {
    hide To, Remaining, Without, AllAdjusted, Wanted, Admit;
    if e.Arrive? {
      ToAppend(k, t.wire, ServeAll(t.subs, e.obj));
      SilentServe(t.subs, k, e.obj);
    }
  }

  lemma {:induction false} SilentServe(subs: seq<Sub>, k: Key, o: Object)
    requires forall s | s in subs && s.key == k :: s.fetch || !s.forward || !s.active
    ensures forall m | m in To(k, ServeAll(subs, o)) :: !m.Send?
  {
    hide To;
    if subs == [] {
      ToNone(k);
    } else {
      var n := |subs| - 1;
      assert subs == subs[..n] + [subs[n]];
      SilentServe(subs[..n], k, o);
      ToServe(k, subs[n], o);
      ToAppend(k, ServeAll(subs[..n], o), Serve(subs[n], o));
    }
  }

  lemma PauseStep(t: State, k: Key, e: Event)
    requires forall s | s in t.subs && s.key == k :: s.fetch || !s.forward
    requires !Resumes(e, k)
    ensures forall s | s in Step(t, e).subs && s.key == k :: s.fetch || !s.forward
  {
    hide Remaining, Without, InUse, StartOf, EndOf;
    forall s | s in Step(t, e).subs && s.key == k
      ensures s.fetch || !s.forward
    {
      Origin(t, e, s);
    }
  }

  /** A subscription in the list was there before, but for the settings the event changes, or is the one admitted. */
  lemma Origin(t: State, e: Event, s: Sub)
    requires s in Step(t, e).subs
    ensures (exists r :: r in t.subs && s == Adjusted(r, e, t.latest))
         || ((e.Subscribe? || e.Offer? || e.Fetch?) && s == NewSub(t, e))
  {
    hide Remaining, Without, InUse, StartOf, EndOf;
    match e
    case Arrive(o) =>
      RemainingHas(t.subs, o, s);
      assert s == Adjusted(s, e, t.latest);
    case Unsubscribe(k) =>
      WithoutHas(t.subs, {k}, s);
      assert s == Adjusted(s, e, t.latest);
    case Subscribe(_, _, _, _) => assert s in t.subs ==> s == Adjusted(s, e, t.latest);
    case Offer(_, _, _) => assert s in t.subs ==> s == Adjusted(s, e, t.latest);
    case Fetch(_) => assert s in t.subs ==> s == Adjusted(s, e, t.latest);
    case _ =>
      var all := AllAdjusted(t.subs, e, t.latest);
      var i :| 0 <= i < |all| && all[i] == s;
      assert t.subs[i] in t.subs;
  }

  /** Before it is active, no object is sent to a subscription. */
  lemma {:induction false} InactiveGetsNothing(t: State, k: Key, es: seq<Event>)
    requires forall s | s in t.subs && s.key == k :: s.fetch || !s.active
    requires forall e | e in es :: !Activates(e, k) && !e.Admits(k)
    ensures NoSends(To(k, t.wire), To(k, Run(t, es).wire))
    ensures forall s | s in Run(t, es).subs && s.key == k :: s.fetch || !s.active
  {
    hide To, Run, Step;
    if es == [] {
      RunEmpty(t);
    } else {
      var n := |es| - 1;
      InactiveGetsNothing(t, k, es[..n]);
      var u := Run(t, es[..n]);
      assert es == es[..n] + [es[n]] && es[n] in es;
      RunSnoc(t, es, n);
      assert es[..n + 1] == es;
      SilentStep(u, k, es[n]);
      InactiveStep(u, k, es[n]);
    }
  }

  lemma InactiveStep(t: State, k: Key, e: Event)
    requires forall s | s in t.subs && s.key == k :: s.fetch || !s.active
    requires !Activates(e, k) && !e.Admits(k)
    ensures forall s | s in Step(t, e).subs && s.key == k :: s.fetch || !s.active
  {
    hide Remaining, Without, InUse, StartOf, EndOf, Step;
    forall s | s in Step(t, e).subs && s.key == k
      ensures s.fetch || !s.active
    {
      Origin(t, e, s);
    }
  }

  /** A subscription that is admitted is in the list with the window its filter gives it. */
  lemma Admission(t: State, e: Event)
    requires Unique(t.subs) && (e.Subscribe? || e.Offer? || e.Fetch?) && !InUse(t.subs, e.key)
    ensures Unique(Step(t, e).subs) && NewSub(t, e) in Step(t, e).subs
    ensures Step(t, e).latest == t.latest && Step(t, e).wire == t.wire
  {
    StepUnique(t, e);
  }

  /** The log of a subscription from its SUBSCRIBE on: the feed its own filter defines. */
  lemma SubscribeThenFeed(t: State, e: Event, es: seq<Event>)
    requires Unique(t.subs) && e.Subscribe? && !InUse(t.subs, e.key)
    requires forall i :: 0 <= i < |es| ==> !es[i].Admits(e.key)
    ensures To(e.key, Run(Step(t, e), es).wire) == To(e.key, t.wire) + LiveFeed(NewSub(t, e), t.latest, es)
  {
    Admission(t, e);
    LiveDeliveryIsAFilter(Step(t, e), NewSub(t, e), es);
  }

  /** What each filter lets through, in the request's own terms. */
  lemma WindowOf(filter: Filter, latest: Option<Location>, at: Location)
    requires at.group <= MAX_VARINT && at.obj <= MAX_VARINT
    ensures !at.Before(StartOf(filter, latest)) && !EndOf(filter).Before(at) <==>
            match filter
            case LargestObject => latest.Some? ==> !at.Before(latest.value)
            case NextGroupStart => latest.Some? ==> latest.value.group < at.group
            case AbsoluteStart(start) => !at.Before(start)
            case AbsoluteRange(start, endGroup) => !at.Before(start) && (endGroup != 0 ==> at.group < endGroup)
  {
  }

  /** Nothing that arrived in the log is larger than `at`. */
  predicate NothingBeyond(at: Location, es: seq<Event>) {
    forall i | 0 <= i < |es| && es[i].Arrive? :: !at.Before(es[i].obj.at)
  }

  /** The "largest object" filter starts at the largest location of the log. */
  ghost predicate StartsAtLargest(latest: Option<Location>, es: seq<Event>) {
    forall at: Location :: !at.Before(StartOf(LargestObject, latest)) <==> NothingBeyond(at, es)
  }

  /** The "largest object" filter starts at the largest location that has arrived if and only if
      the object that arrived last is at least as large as all before it. */
  lemma LargestObjectIsExact(t: State, es: seq<Event>, last: nat)
    requires t.latest == None && last < |es| && es[last].Arrive?
    requires forall i :: last < i < |es| ==> !es[i].Arrive?
    ensures StartsAtLargest(Run(t, es).latest, es)
       <==> forall i | 0 <= i < last && es[i].Arrive? :: !es[last].obj.at.Before(es[i].obj.at)
  {
    hide Run;
    RunLatest(t, es, |es|);
    assert es[..|es|] == es;
    LatestAt(t.latest, es, last, |es|);
    var start := es[last].obj.at;
    assert StartOf(LargestObject, Run(t, es).latest) == start && !start.Before(start);
    assert NothingBeyond(start, es) <==> forall i | 0 <= i < last && es[i].Arrive? :: !start.Before(es[i].obj.at);
    if NothingBeyond(start, es) {
      forall at: Location
        ensures !at.Before(start) <==> NothingBeyond(at, es)
      {
      }
    }
  }

  lemma {:induction false} LatestAt(latest: Option<Location>, es: seq<Event>, last: nat, n: nat)
    requires last < n <= |es| && es[last].Arrive?
    requires forall i :: last < i < n ==> !es[i].Arrive?
    ensures Latest(latest, es, n) == Some(es[last].obj.at)
  {
    if last < n - 1 {
      LatestAt(latest, es, last, n - 1);
    }
  }

  /** The failing case at work: after objects come out of order, a subscription that starts at the
      "largest object" is sent one below the largest, and the largest was not where it started. */
  lemma LatestIsNotLargest(large: Object, last: Object, next: Object, k: Key, alias: nat)
    requires last.at.Before(next.at) && next.at.Before(large.at) && !LAST.Before(large.at)
    ensures var join := Subscribe(k, alias, true, LargestObject);
            var log := [TrackAccepted, Arrive(large), Arrive(last), join, Arrive(next)];
            && Run(State(true, None, [], []), log).wire == [Send(k, alias, next)]
            && !StartsAtLargest(Run(State(true, None, [], []), log[..3]).latest, log[..3])
  {
    hide Run, Step;
    var t0, join := State(true, None, [], []), Subscribe(k, alias, true, LargestObject);
    var log := [TrackAccepted, Arrive(large), Arrive(last), join, Arrive(next)];
    QuietStart(t0, log);
    RunSnoc(t0, log, 3);
    RunSnoc(t0, log, 4);
    assert log[..5] == log;
    JoinAt(Run(t0, log[..3]), join, next);
    OutOfOrder(t0, log[..3]);
  }

  lemma OutOfOrder(t: State, es: seq<Event>)
    requires t.latest == None && |es| == 3 && es[1].Arrive? && es[2].Arrive? && es[2].obj.at.Before(es[1].obj.at)
    ensures !StartsAtLargest(Run(t, es).latest, es)
  {
    hide Run;
    LargestObjectIsExact(t, es, 2);
  }

  lemma JoinAt(t: State, join: Event, o: Object)
    requires !t.pending && t.latest.Some? && t.subs == [] && t.wire == []
    requires join.Subscribe? && join.forward && join.filter == LargestObject
    requires t.latest.value.Before(o.at) && !LAST.Before(o.at)
    ensures Step(Step(t, join), Arrive(o)).wire == [Send(join.key, join.alias, o)]
  {
    hide Step, Serve, ServeAll;
    FirstSub(t, join);
    ArrivalAtOne(Step(t, join), NewSub(t, join), o);
    WantedIsSent(NewSub(t, join), o);
  }

  lemma FirstSub(t: State, join: Event)
    requires join.Subscribe? && t.subs == []
    ensures Step(t, join) == t.(subs := [NewSub(t, join)])
  {
    hide ServeAll, Remaining;
  }

  lemma ArrivalAtOne(t: State, s: Sub, o: Object)
    requires t.subs == [s]
    ensures Step(t, Arrive(o)).wire == t.wire + Serve(s, o)
  {
    hide Serve, Remaining;
    ServeNone(o);
    assert [s][..0] == [];
  }

  lemma WantedIsSent(s: Sub, o: Object)
    requires Wanted(s, o)
    ensures Serve(s, o) == [Send(s.key, s.alias, o)]
  {
  }

  lemma ArrivalAtNone(t: State, o: Object)
    requires t.subs == []
    ensures Step(t, Arrive(o)) == t.(latest := Some(o.at))
  {
    ServeNone(o);
  }

  lemma QuietStart(t: State, log: seq<Event>)
    requires |log| >= 3 && t.subs == [] && log[0] == TrackAccepted && log[1].Arrive? && log[2].Arrive?
    ensures Run(t, log[..3]) == State(false, Some(log[2].obj.at), [], t.wire)
  {
    hide Run, ServeAll, Remaining;
    RunNone(t, log);
    RunSnoc(t, log, 0);
    RunSnoc(t, log, 1);
    RunSnoc(t, log, 2);
    assert Step(t, TrackAccepted) == State(false, t.latest, [], t.wire);
    hide Step;
    ArrivalAtNone(Run(t, log[..1]), log[1].obj);
    ArrivalAtNone(Run(t, log[..2]), log[2].obj);
  }

  // ----- The relay's own code -----

  class Track {
    var pending: bool
    var objects: seq<Object>
    var subs: seq<Sub>
    var wire: seq<Message>

    function View(): State
      reads this
    {
      State(pending, if objects == [] then None else Some(objects[0].at), subs, wire)
    }

    ghost predicate Valid()
      reads this
    {
      Unique(subs)
    }

    /** The cache of objects has the one that arrived last in front. */
    constructor ()
      ensures Valid() && View() == State(true, None, [], []) && objects == []
    {
      pending, objects, subs, wire := true, [], [], [];
    }

    method Lookup(k: Key) returns (at: int)
      ensures at < 0 ==> !InUse(subs, k)
      ensures at >= 0 ==> at < |subs| && subs[at].key == k
    {
      for i := 0 to |subs|
        invariant !InUse(subs[..i], k)
      {
        if subs[i].key == k {
          return i;
        }
        assert forall j :: 0 <= j < i ==> subs[..i + 1][j] == subs[..i][j];
      }
      assert subs[..|subs|] == subs;
      at := -1;
    }

    /** Refused when the subscriber uses the request id already, here or, as `elsewhere` says, on another track. */
    method Subscribe(k: Key, elsewhere: bool, alias: nat, forward: bool, filter: Filter) returns (ok: bool)
      requires Valid()
      modifies this`subs
      ensures Valid()
      ensures ok == (!elsewhere && !InUse(old(subs), k))
      ensures View() == if elsewhere then old(View())
                        else Step(old(View()), Event.Subscribe(k, alias, forward, filter))
    {
      StepUnique(View(), Event.Subscribe(k, alias, forward, filter));
      var at := Lookup(k);
      if elsewhere || at >= 0 {
        return false;
      }
      var latest := if !pending && objects != [] then Some(objects[0].at) else None;
      var s := Sub(k, alias, false, false, forward, StartOf(filter, latest), EndOf(filter), -1, -1);
      if !pending {
        s := s.(active := true);
      }
      subs := subs + [s];
      ok := true;
    }

    method SubscribeAccepted()
      requires Valid()
      modifies this`subs, this`pending
      ensures Valid()
      ensures View() == Step(old(View()), TrackAccepted)
    {
      StepUnique(View(), TrackAccepted);
      ghost var was := subs;
      for i := 0 to |subs|
        invariant |subs| == |was|
        invariant forall j :: 0 <= j < |was| ==> subs[j] == if j < i then was[j].(active := true) else was[j]
      {
        subs := subs[i := subs[i].(active := true)];
      }
      pending := false;
      assert subs == AllAdjusted(was, TrackAccepted, old(View()).latest);
    }

    method PublishAccepted(k: Key, forward: bool, filter: Filter)
      requires Valid()
      modifies this`subs
      ensures Valid()
      ensures View() == Step(old(View()), Event.PublishAccepted(k, forward, filter))
    {
      StepUnique(View(), Event.PublishAccepted(k, forward, filter));
      ghost var e, latest := Event.PublishAccepted(k, forward, filter), View().latest;
      var at := Lookup(k);
      if at >= 0 {
        var seen := if objects == [] then None else Some(objects[0].at);
        var s := subs[at].(active := true, forward := forward, start := StartOf(filter, seen), end := EndOf(filter));
        subs := subs[at := s];
      }
      assert subs == AllAdjusted(old(subs), e, latest);
    }

    method RequestUpdated(k: Key, forward: bool)
      requires Valid()
      modifies this`subs
      ensures Valid()
      ensures View() == Step(old(View()), Update(k, forward))
    {
      StepUnique(View(), Update(k, forward));
      ghost var latest := View().latest;
      var at := Lookup(k);
      if at >= 0 {
        subs := subs[at := subs[at].(forward := forward)];
      }
      assert subs == AllAdjusted(old(subs), Update(k, forward), latest);
    }

    /** Destroying a subscription takes it off the track's list. */
    method Remove(k: Key)
      requires Unique(subs)
      modifies this`subs
      ensures subs == Without(old(subs), {k})
    {
      var at := Lookup(k);
      if at >= 0 {
        RemoveAt(subs, at);
        subs := subs[..at] + subs[at + 1..];
      } else {
        RemoveNone(subs, {k});
      }
    }

    method IncomingUnsubscribe(k: Key)
      requires Valid()
      modifies this`subs
      ensures Valid()
      ensures View() == Step(old(View()), Unsubscribe(k))
    {
      StepUnique(View(), Unsubscribe(k));
      Remove(k);
    }

    /** Caches the object and relays it; the subscriptions it closes are removed in a second pass. */
    method IncomingObject(o: Object)
      requires Valid()
      modifies this
      ensures Valid()
      ensures View() == Step(old(View()), Arrive(o))
      ensures objects == [o] + old(objects)
    {
      StepUnique(View(), Arrive(o));
      hide Remaining, ServeAll, Without, Unique;
      objects := [o] + objects;
      var done := Relay(o);
      RemainingWithout(subs, Keys(done), o) by {
        assert forall s :: s in subs ==> (s.key in Keys(done) <==> Ends(s, o));
      }
      Drop(done);
    }

    method Relay(o: Object) returns (done: seq<Key>)
      requires Unique(subs)
      modifies this`wire
      ensures wire == old(wire) + ServeAll(subs, o)
      ensures forall s :: s in subs ==> (s.key in Keys(done) <==> Ends(s, o))
    {
      hide ServeAll;
      done := [];
      assert subs[..0] == [];
      ServeNone(o);
      for i := 0 to |subs|
        invariant wire == old(wire) + ServeAll(subs[..i], o)
        invariant forall k :: k in done ==> exists j :: 0 <= j < i && subs[j].key == k
        invariant forall j :: 0 <= j < i ==> (subs[j].key in done <==> Ends(subs[j], o))
      {
        ServeSnoc(subs, i, o);
        var s := subs[i];
        assert s.key !in done;
        if s.fetch {
          continue;
        }
        if o.at.group < s.start.group || (o.at.group == s.start.group && o.at.obj < s.start.obj) {
          continue;
        }
        if o.at.group > s.end.group || (o.at.group == s.end.group && o.at.obj > s.end.obj) {
          wire := wire + [Done(s.key)];
          done := [s.key] + done;
          continue;
        }
        if !s.active || !s.forward {
          continue;
        }
        var within := ObjectWithinLimits(o, s.maxTemporal, s.maxSpatial);
        if !within {
          continue;
        }
        wire := wire + [Send(s.key, s.alias, o)];
      }
      assert subs[..|subs|] == subs;
    }

    method Drop(done: seq<Key>)
      requires Unique(subs)
      modifies this`subs
      ensures subs == Without(old(subs), Keys(done))
    {
      hide Without, Unique;
      ghost var was := subs;
      RemoveNone(was, Keys(done[..0]));
      for i := 0 to |done|
        invariant subs == Without(was, Keys(done[..i])) && Unique(subs)
      {
        assert Keys(done[..i]) + {done[i]} == Keys(done[..i + 1]);
        WithoutTwice(was, Keys(done[..i]), {done[i]});
        WithoutUnique(subs, {done[i]});
        Remove(done[i]);
      }
      assert done[..|done|] == done;
    }
  }

  function Keys(done: seq<Key>): set<Key> {
    set k | k in done
  }

  lemma ServeNone(o: Object)
    ensures ServeAll([], o) == []
  {
  }

  lemma ServeSnoc(subs: seq<Sub>, i: nat, o: Object)
    requires i < |subs|
    ensures ServeAll(subs[..i + 1], o) == ServeAll(subs[..i], o) + Serve(subs[i], o)
  {
    assert subs[..i + 1][..i] == subs[..i];
  }

  lemma WithoutSnoc(subs: seq<Sub>, s: Sub, gone: set<Key>)
    ensures Without(subs + [s], gone) == Without(subs, gone) + if s.key in gone then [] else [s]
  {
    assert (subs + [s])[..|subs|] == subs;
  }

  lemma WithoutNone(gone: set<Key>)
    ensures Without([], gone) == []
  {
  }

  lemma {:induction false} RemoveNone(subs: seq<Sub>, gone: set<Key>)
    requires forall s :: s in subs ==> s.key !in gone
    ensures Without(subs, gone) == subs
  {
    hide Without;
    if subs == [] {
      WithoutNone(gone);
    } else {
      var n := |subs| - 1;
      RemoveNone(subs[..n], gone);
      WithoutSnoc(subs[..n], subs[n], gone);
      assert subs == subs[..n] + [subs[n]] && subs[n] in subs;
    }
  }

  lemma {:induction false} RemoveAt(subs: seq<Sub>, at: nat)
    requires Unique(subs) && at < |subs|
    ensures Without(subs, {subs[at].key}) == subs[..at] + subs[at + 1..]
  {
    var n := |subs| - 1;
    if at == n {
      RemoveNone(subs[..n], {subs[at].key});
    } else {
      RemoveAt(subs[..n], at);
      assert subs[..n][..at] + subs[..n][at + 1..] + [subs[n]] == subs[..at] + subs[at + 1..];
    }
  }

  lemma {:induction false} WithoutTwice(subs: seq<Sub>, a: set<Key>, b: set<Key>)
    ensures Without(Without(subs, a), b) == Without(subs, a + b)
  {
    if subs != [] {
      var n := |subs| - 1;
      WithoutTwice(subs[..n], a, b);
      var first := Without(subs[..n], a);
      assert (first + [subs[n]])[..|first|] == first;
      assert first + [] == first;
    }
  }

  /** Removing the keys that are done is removing the subscriptions the object ends. */
  lemma {:induction false} RemainingWithout(subs: seq<Sub>, gone: set<Key>, o: Object)
    requires forall s :: s in subs ==> (s.key in gone <==> Ends(s, o))
    ensures Without(subs, gone) == Remaining(subs, o)
  {
    if subs != [] {
      RemainingWithout(subs[..|subs| - 1], gone, o);
    }
  }
}
