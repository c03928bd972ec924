/** Fetches: which cached objects a fetch asks for, in what order, and how they are served. */
module RelayFetch {
  import opened MoqObjects
  import opened RelayWire
  import Delivery

  /** A fetch in service, with the objects still to be sent. */
  datatype Fetch = Fetch(key: Key, queue: seq<Object>)

  /** The range of a request. An end object of 0 asks for the whole last group; any other is one
      past the last object. */
  datatype Range = Range(start: Location, end: Location)

  datatype Event =
    | Round
    | Open(fetch: Fetch)
    | Cancel(key: Key)

  datatype State = State(fetches: seq<Fetch>, wire: seq<Message>)

  // ----- The range -----

  /** The end as the relay rewrites it before it looks at any object. */
  function LastOf(end: Location): Location {
    Location(end.group, if end.obj == 0 then MAX_VARINT else end.obj - 1)
  }

  /** The relay's test: a rewritten end object of 0 bounds nothing. */
  predicate InRange(at: Location, r: Range) {
    var end := LastOf(r.end);
    && r.start.group <= at.group <= end.group
    && !(at.group == r.start.group && at.obj < r.start.obj)
    && !(at.group == end.group && end.obj > 0 && at.obj > end.obj)
  }

  /** What the range says: not before the start, and before the end. */
  predicate Requested(at: Location, r: Range) {
    && !at.Before(r.start)
    && (at.group < r.end.group || (at.group == r.end.group && (r.end.obj == 0 || at.obj < r.end.obj)))
  }

  /** The relay's test is the requested range except when the range ends just after object 0
      of a group it reaches: then the relay takes that whole group. */
  lemma RangeTestIsExact(r: Range)
    requires r.start.obj <= MAX_VARINT
    ensures (forall at: Location :: at.obj <= MAX_VARINT ==> (InRange(at, r) <==> Requested(at, r)))
       <==> !(r.end.obj == 1 && r.start.group <= r.end.group)
  {
    var beyond := Location(r.end.group, if r.start.obj == 0 then 1 else r.start.obj);
    assert r.end.obj == 1 && r.start.group <= r.end.group ==> InRange(beyond, r) && !Requested(beyond, r);
  }

  /** The relay's test, written out: not before the start, and before the end, where an end object of 0
      or 1 leaves the last group open. */
  lemma RangeRule(at: Location, r: Range)
    requires at.obj <= MAX_VARINT
    ensures InRange(at, r)
       <==> && (r.start.group < at.group || (r.start.group == at.group && r.start.obj <= at.obj))
            && (at.group < r.end.group || (at.group == r.end.group && (r.end.obj <= 1 || at.obj < r.end.obj)))
  {
  }

  /** A relative joining fetch counts groups back from the object that came last; the difference wraps at 64 bits. */
  function JoiningStart(absolute: bool, joiningStart: nat, latestGroup: nat): nat {
    if absolute then joiningStart
    else (latestGroup - joiningStart) % 0x1_0000_0000_0000_0000
  }

  /** Relative: the groups from `joiningStart` before the latest on, and none when there are not that many. */
  lemma JoiningRange(joiningStart: nat, latestGroup: nat, group: nat)
    requires joiningStart <= MAX_VARINT && latestGroup <= MAX_VARINT && group <= MAX_VARINT
    ensures group >= JoiningStart(false, joiningStart, latestGroup)
       <==> joiningStart <= latestGroup <= group + joiningStart
  {
  }

  // ----- The queue -----

  /** The cached objects that pass the test, oldest first; the cache has the newest first. */
  function Queue(cache: seq<Object>, test: Object -> bool): seq<Object> {
    if cache == [] then []
    else Queue(cache[1..], test) + if test(cache[0]) then [cache[0]] else []
  }

  /** Every cached object that passes is queued as often as it is cached, and no other. */
  lemma {:induction false} QueueHas(cache: seq<Object>, test: Object -> bool, o: Object)
    ensures multiset(Queue(cache, test))[o] == if test(o) then multiset(cache)[o] else 0
  {
    if cache != [] {
      QueueHas(cache[1..], test, o);
      assert cache == [cache[0]] + cache[1..];
    }
  }

  /** The cached objects in the order they came. */
  function Arrivals(cache: seq<Object>): (r: seq<Object>)
    ensures |r| == |cache| && forall i :: 0 <= i < |r| ==> r[i] == cache[|cache| - 1 - i]
  {
    seq(|cache|, i requires 0 <= i < |cache| => cache[|cache| - 1 - i])
  }

  function Passing(xs: seq<Object>, test: Object -> bool): (r: seq<bool>)
    ensures |r| == |xs| && forall i :: 0 <= i < |r| ==> r[i] == test(xs[i])
  {
    seq(|xs|, i requires 0 <= i < |xs| => test(xs[i]))
  }

  /** The queue is the arrivals with those that fail the test left out. */
  lemma {:induction false} QueueIsArrivalOrder(cache: seq<Object>, test: Object -> bool)
    ensures Queue(cache, test) == Delivery.Keep(Arrivals(cache), Passing(Arrivals(cache), test))
  {
    if cache != [] {
      var n, all := |cache| - 1, Arrivals(cache);
      QueueIsArrivalOrder(cache[1..], test);
      assert all[..n] == Arrivals(cache[1..]) && all[n] == cache[0];
      assert Passing(all, test)[..n] == Passing(all[..n], test);
      Delivery.KeepSnoc(all, Passing(all, test));
    }
  }

  function RangeTest(r: Range): Object -> bool {
    (o: Object) => InRange(o.at, r)
  }

  function GroupTest(start: nat): Object -> bool {
    (o: Object) => o.at.group >= start
  }

  /** The comparison of the descending order: groups from the last, objects from the first. */
  function Compare(a: Location, b: Location): int {
    if a.group > b.group then -1
    else if a.group < b.group then 1
    else if a.obj < b.obj then -1
    else if a.obj > b.obj then 1
    else 0
  }

  ghost predicate Descending(q: seq<Object>) {
    forall i, j :: 0 <= i < j < |q| ==> Compare(q[i].at, q[j].at) <= 0
  }

  /** The objects that stand at one location, in order. */
  function At(l: Location, q: seq<Object>): seq<Object> {
    if q == [] then []
    else (if q[0].at == l then [q[0]] else []) + At(l, q[1..])
  }

  function Insert(o: Object, q: seq<Object>): seq<Object> {
    if q == [] || Compare(o.at, q[0].at) <= 0 then [o] + q else [q[0]] + Insert(o, q[1..])
  }

  /** The stable sort of a queue. */
  function Sort(q: seq<Object>): seq<Object> {
    if q == [] then [] else Insert(q[0], Sort(q[1..]))
  }

  lemma DescendingCons(o: Object, q: seq<Object>)
    requires Descending(q) && (forall p :: p in q ==> Compare(o.at, p.at) <= 0)
    ensures Descending([o] + q)
  {
  }

  lemma {:induction false} InsertHas(o: Object, q: seq<Object>)
    ensures multiset(Insert(o, q)) == multiset(q) + multiset{o}
  {
    if !(q == [] || Compare(o.at, q[0].at) <= 0) {
      InsertHas(o, q[1..]);
      assert q == [q[0]] + q[1..];
    }
  }

  lemma {:induction false} InsertSorts(o: Object, q: seq<Object>)
    requires Descending(q)
    ensures Descending(Insert(o, q))
  {
    if q == [] || Compare(o.at, q[0].at) <= 0 {
      DescendingCons(o, q);
    } else {
      InsertSorts(o, q[1..]);
      InsertHas(o, q[1..]);
      forall p | p in Insert(o, q[1..])
        ensures Compare(q[0].at, p.at) <= 0
      {
        assert p in multiset(Insert(o, q[1..]));
      }
      DescendingCons(q[0], Insert(o, q[1..]));
    }
  }

  lemma {:induction false} InsertAt(o: Object, q: seq<Object>, l: Location)
    ensures At(l, Insert(o, q)) == (if o.at == l then [o] else []) + At(l, q)
  {
    if q == [] || Compare(o.at, q[0].at) <= 0 {
      assert ([o] + q)[1..] == q;
    } else {
      InsertAt(o, q[1..], l);
      assert ([q[0]] + Insert(o, q[1..]))[1..] == Insert(o, q[1..]);
    }
  }

  lemma {:induction false} SortHas(q: seq<Object>)
    ensures multiset(Sort(q)) == multiset(q)
  {
    if q != [] {
      hide Insert;
      SortHas(q[1..]);
      InsertHas(q[0], Sort(q[1..]));
      assert q == [q[0]] + q[1..];
    }
  }

  lemma {:induction false} SortDescends(q: seq<Object>)
    ensures Descending(Sort(q))
  {
    if q != [] {
      hide Insert, Descending;
      SortDescends(q[1..]);
      InsertSorts(q[0], Sort(q[1..]));
    } else {
      assert Sort(q) == [];
    }
  }

  /** Sorting is a permutation into descending order. */
  lemma SortSorts(q: seq<Object>)
    ensures Descending(Sort(q)) && multiset(Sort(q)) == multiset(q)
  {
    hide Sort, Descending;
    SortHas(q);
    SortDescends(q);
  }

  /** It leaves objects of one location in the order they had. */
  lemma {:induction false} SortIsStable(q: seq<Object>, l: Location)
    ensures At(l, Sort(q)) == At(l, q)
  {
    if q != [] {
      hide Insert;
      SortIsStable(q[1..], l);
      InsertAt(q[0], Sort(q[1..]), l);
    }
  }

  lemma {:induction false} AtHas(l: Location, q: seq<Object>)
    ensures At(l, q) != [] <==> exists o :: o in q && o.at == l
  {
    if q != [] {
      AtHas(l, q[1..]);
      assert q == [q[0]] + q[1..];
    }
  }

  lemma AtHead(q: seq<Object>)
    requires q != []
    ensures At(q[0].at, q) != [] && At(q[0].at, q)[0] == q[0]
  {
  }

  lemma AtTail(l: Location, q: seq<Object>)
    requires q != []
    ensures At(l, q[1..]) == if q[0].at == l then At(l, q)[1..] else At(l, q)
  {
  }

  /** There is only one such order, so any stable sort by the comparison is this one. */
  lemma {:induction false} StableOrderIsUnique(a: seq<Object>, b: seq<Object>)
    requires Descending(a) && Descending(b) && forall l :: At(l, a) == At(l, b)
    ensures a == b
    decreases |a|
  {
    if a == [] || b == [] {
      assert a != [] ==> At(a[0].at, a) == At(a[0].at, b);
      assert b != [] ==> At(b[0].at, a) == At(b[0].at, b);
    } else {
      hide At;
      AtHead(a);
      AtHead(b);
      AtHas(a[0].at, b);
      AtHas(b[0].at, a);
      assert At(a[0].at, a) == At(a[0].at, b) && At(b[0].at, a) == At(b[0].at, b);
      assert a[0].at == b[0].at;
      assert At(a[0].at, a)[0] == a[0] && At(a[0].at, b)[0] == b[0];
      forall l
        ensures At(l, a[1..]) == At(l, b[1..])
      {
        assert At(l, a) == At(l, b);
        AtTail(l, a);
        AtTail(l, b);
      }
      assert forall i :: 0 <= i < |a| - 1 ==> a[1..][i] == a[i + 1];
      assert forall i :: 0 <= i < |b| - 1 ==> b[1..][i] == b[i + 1];
      StableOrderIsUnique(a[1..], b[1..]);
      assert a == [a[0]] + a[1..] && b == [b[0]] + b[1..];
    }
  }

  function Ordered(q: seq<Object>, descending: bool): seq<Object> {
    if descending then Sort(q) else q
  }

  /** The queue of a standalone fetch. */
  function StandaloneQueue(cache: seq<Object>, r: Range, descending: bool): seq<Object> {
    Ordered(Queue(cache, RangeTest(r)), descending)
  }

  /** The queue of a joining fetch; nothing when nothing is cached. */
  function JoiningQueue(cache: seq<Object>, absolute: bool, joiningStart: nat, descending: bool): seq<Object> {
    if cache == [] then []
    else Ordered(Queue(cache, GroupTest(JoiningStart(absolute, joiningStart, cache[0].at.group))), descending)
  }

  /** A standalone fetch queues every cached object in its range as often as it is cached, and no other. */
  lemma StandaloneQueueHas(cache: seq<Object>, r: Range, descending: bool, o: Object)
    requires o.at.obj <= MAX_VARINT
    ensures multiset(StandaloneQueue(cache, r, descending))[o]
         == if (r.start.group < o.at.group || (r.start.group == o.at.group && r.start.obj <= o.at.obj))
               && (o.at.group < r.end.group
                   || (o.at.group == r.end.group && (r.end.obj <= 1 || o.at.obj < r.end.obj)))
            then multiset(cache)[o] else 0
  {
    hide Queue, Sort, InRange;
    RangeRule(o.at, r);
    QueueHas(cache, RangeTest(r), o);
    OrderedHas(Queue(cache, RangeTest(r)), descending);
  }

  /** A joining fetch queues every cached object of a group from the start on, absolute or counted back
      from the group of the object that came last, as often as it is cached, and no other. */
  lemma JoiningQueueHas(cache: seq<Object>, absolute: bool, joiningStart: nat, descending: bool, o: Object)
    requires cache != [] && cache[0].at.group <= MAX_VARINT && joiningStart <= MAX_VARINT && o.at.group <= MAX_VARINT
    ensures var latest := cache[0].at.group;
            multiset(JoiningQueue(cache, absolute, joiningStart, descending))[o]
            == if (absolute && joiningStart <= o.at.group)
                  || (!absolute && joiningStart <= latest && latest <= o.at.group + joiningStart)
               then multiset(cache)[o] else 0
  {
    hide Queue, Sort, JoiningStart;
    var latest := cache[0].at.group;
    var start := JoiningStart(absolute, joiningStart, latest);
    JoiningRange(joiningStart, latest, o.at.group);
    AbsoluteStart(joiningStart, latest);
    QueueHas(cache, GroupTest(start), o);
    OrderedHas(Queue(cache, GroupTest(start)), descending);
  }

  lemma AbsoluteStart(joiningStart: nat, latest: nat)
    ensures JoiningStart(true, joiningStart, latest) == joiningStart
  {
  }

  lemma OrderedHas(q: seq<Object>, descending: bool)
    ensures multiset(Ordered(q, descending)) == multiset(q)
  {
    hide Sort, Descending;
    SortSorts(q);
  }

  /** The queues' order: groups from the last and objects from the first where that was asked for,
      and otherwise as the objects came, those left out missing. */
  lemma QueueOrder(cache: seq<Object>, test: Object -> bool, descending: bool)
    ensures var q := Ordered(Queue(cache, test), descending);
            if descending then
              forall i, j | 0 <= i < j < |q| ::
                q[i].at.group > q[j].at.group || (q[i].at.group == q[j].at.group && q[i].at.obj <= q[j].at.obj)
            else
              q == Delivery.Keep(Arrivals(cache), Passing(Arrivals(cache), test))
  {
    hide Sort, Queue;
    var queue := Queue(cache, test);
    SortSorts(queue);
    QueueIsArrivalOrder(cache, test);
    var q := Ordered(queue, descending);
    assert descending ==> Descending(q);
    forall i, j | 0 <= i < j < |q| && descending
      ensures q[i].at.group > q[j].at.group || (q[i].at.group == q[j].at.group && q[i].at.obj <= q[j].at.obj)
    {
      assert Compare(q[i].at, q[j].at) <= 0;
    }
  }

  lemma StandaloneOrder(cache: seq<Object>, r: Range)
    ensures var q := StandaloneQueue(cache, r, true);
            forall i, j | 0 <= i < j < |q| ::
              q[i].at.group > q[j].at.group || (q[i].at.group == q[j].at.group && q[i].at.obj <= q[j].at.obj)
    ensures exists mask | |mask| == |cache| :: StandaloneQueue(cache, r, false) == Delivery.Keep(Arrivals(cache), mask)
  {
    QueueOrder(cache, RangeTest(r), true);
    QueueOrder(cache, RangeTest(r), false);
  }

  lemma JoiningOrder(cache: seq<Object>, absolute: bool, joiningStart: nat)
    ensures var q := JoiningQueue(cache, absolute, joiningStart, true);
            forall i, j | 0 <= i < j < |q| ::
              q[i].at.group > q[j].at.group || (q[i].at.group == q[j].at.group && q[i].at.obj <= q[j].at.obj)
    ensures exists mask | |mask| == |cache| ::
              JoiningQueue(cache, absolute, joiningStart, false) == Delivery.Keep(Arrivals(cache), mask)
  {
    if cache == [] {
      var none: seq<bool> := [];
      assert Delivery.Keep(Arrivals(cache), none) == [];
    } else {
      var start := JoiningStart(absolute, joiningStart, cache[0].at.group);
      QueueOrder(cache, GroupTest(start), true);
      QueueOrder(cache, GroupTest(start), false);
    }
  }

  // ----- Serving -----

  function Serve(f: Fetch): seq<Message> {
    if f.queue == [] then [] else [FetchSend(f.key, f.queue[0], |f.queue| == 1)]
  }

  function ServeAll(fs: seq<Fetch>): seq<Message> {
    if fs == [] then []
    else
      var n := |fs| - 1;
      ServeAll(fs[..n]) + Serve(fs[n])
  }

  /** The fetches that have objects left after a round. */
  function Unserved(fs: seq<Fetch>): seq<Fetch> {
    if fs == [] then []
    else
      var n := |fs| - 1;
      Unserved(fs[..n]) + Left(fs[n])
  }

  function Left(f: Fetch): seq<Fetch> {
    if |f.queue| <= 1 then [] else [f.(queue := f.queue[1..])]
  }

  function Without(fs: seq<Fetch>, k: Key): seq<Fetch> {
    if fs == [] then []
    else
      var n := |fs| - 1;
      Without(fs[..n], k) + if fs[n].key == k then [] else [fs[n]]
  }

  predicate InUse(fs: seq<Fetch>, k: Key) {
    exists i :: 0 <= i < |fs| && fs[i].key == k
  }

  function Step(t: State, e: Event): State {
    match e
    case Round => State(Unserved(t.fetches), t.wire + ServeAll(t.fetches))
    case Open(f) => if InUse(t.fetches, f.key) then t else t.(fetches := [f] + t.fetches)
    case Cancel(k) => t.(fetches := Without(t.fetches, k))
  }

  function Run(t: State, es: seq<Event>): State {
    if es == [] then t else Step(Run(t, es[..|es| - 1]), es[|es| - 1])
  }

  ghost predicate Unique(fs: seq<Fetch>) {
    forall i, j :: 0 <= i < j < |fs| ==> fs[i].key != fs[j].key
  }

  // ----- What one fetch is to get -----

  predicate Cancelled(k: Key, es: seq<Event>, n: nat)
    requires n <= |es|
  {
    exists i :: 0 <= i < n && es[i] == Cancel(k)
  }

  /** The rounds among the first `n` events that come before a cancellation. */
  function Turns(k: Key, es: seq<Event>, n: nat): nat
    requires n <= |es|
  {
    if n == 0 then 0 else Turns(k, es, n - 1) + if es[n - 1].Round? && !Cancelled(k, es, n - 1) then 1 else 0
  }

  /** The queue as it is sent: one object after the other, the end of the stream on the last. */
  function Stream(k: Key, q: seq<Object>): (r: seq<Message>)
    ensures |r| == |q| && forall i :: 0 <= i < |r| ==> r[i] == FetchSend(k, q[i], i == |q| - 1)
  {
    seq(|q|, i requires 0 <= i < |q| => FetchSend(k, q[i], i == |q| - 1))
  }

  /** After `turns` rounds the fetch is still listed: it has objects left, or had no round yet. */
  predicate Listed(k: Key, q: seq<Object>, es: seq<Event>, n: nat)
    requires n <= |es|
  {
    !Cancelled(k, es, n) && (Turns(k, es, n) == 0 || Turns(k, es, n) < |q|)
  }

  function Min(a: nat, b: nat): nat {
    if a <= b then a else b
  }

  // ----- Lists -----

  lemma ToServe(k: Key, f: Fetch)
    ensures To(k, Serve(f)) == if f.key == k then Serve(f) else []
  {
    var none: seq<Message> := [];
    if Serve(f) != [] {
      ToSnoc(k, none, Serve(f)[0]);
      assert none + [Serve(f)[0]] == Serve(f);
    }
  }

  lemma {:induction false} ServeOthers(k: Key, fs: seq<Fetch>)
    requires !InUse(fs, k)
    ensures To(k, ServeAll(fs)) == []
  {
    hide Serve, To;
    ToNone(k);
    if fs != [] {
      var n := |fs| - 1;
      assert forall i :: 0 <= i < n ==> fs[..n][i] == fs[i];
      ServeOthers(k, fs[..n]);
      ToServe(k, fs[n]);
      ToAppend(k, ServeAll(fs[..n]), Serve(fs[n]));
    }
  }

  lemma {:induction false} ServeOne(fs: seq<Fetch>, i: nat)
    requires Unique(fs) && i < |fs|
    ensures To(fs[i].key, ServeAll(fs)) == Serve(fs[i])
  {
    hide Serve, To;
    ToNone(fs[i].key);
    var n, k := |fs| - 1, fs[i].key;
    ToServe(k, fs[n]);
    ToAppend(k, ServeAll(fs[..n]), Serve(fs[n]));
    if i == n {
      assert !InUse(fs[..n], k);
      ServeOthers(k, fs[..n]);
    } else {
      ServeOne(fs[..n], i);
    }
  }

  lemma {:induction false} UnservedKeeps(fs: seq<Fetch>, i: nat)
    requires i < |fs| && |fs[i].queue| > 1
    ensures fs[i].(queue := fs[i].queue[1..]) in Unserved(fs)
  {
    if i < |fs| - 1 {
      UnservedKeeps(fs[..|fs| - 1], i);
    }
  }

  lemma {:induction false} UnservedFrom(fs: seq<Fetch>, g: Fetch)
    requires g in Unserved(fs)
    ensures exists i :: 0 <= i < |fs| && |fs[i].queue| > 1 && g == fs[i].(queue := fs[i].queue[1..])
  {
    var n := |fs| - 1;
    if g in Unserved(fs[..n]) {
      UnservedFrom(fs[..n], g);
      var i :| 0 <= i < n && |fs[..n][i].queue| > 1 && g == fs[..n][i].(queue := fs[..n][i].queue[1..]);
      assert fs[..n][i] == fs[i];
    }
  }

  lemma {:induction false} WithoutHas(fs: seq<Fetch>, k: Key, f: Fetch)
    ensures f in Without(fs, k) <==> f in fs && f.key != k
  {
    if fs != [] {
      WithoutHas(fs[..|fs| - 1], k, f);
      assert fs == fs[..|fs| - 1] + [fs[|fs| - 1]];
    }
  }

  lemma UniqueSnoc(fs: seq<Fetch>, f: Fetch)
    requires Unique(fs) && !InUse(fs, f.key)
    ensures Unique(fs + [f])
  {
  }

  lemma UseIn(fs: seq<Fetch>, k: Key)
    ensures InUse(fs, k) <==> exists f :: f in fs && f.key == k
  {
    if f :| f in fs && f.key == k {
      var i :| 0 <= i < |fs| && fs[i] == f;
      assert fs[i].key == k;
    }
    if InUse(fs, k) {
      var i :| 0 <= i < |fs| && fs[i].key == k;
      assert fs[i] in fs;
    }
  }

  lemma {:induction false} UnservedUnique(fs: seq<Fetch>)
    requires Unique(fs)
    ensures Unique(Unserved(fs))
  {
    if fs != [] {
      var n := |fs| - 1;
      var rest := Unserved(fs[..n]);
      UnservedUnique(fs[..n]);
      forall g | g in rest
        ensures g.key != fs[n].key
      {
        UnservedFrom(fs[..n], g);
      }
      UseIn(rest, fs[n].key);
      UniqueSnoc(rest, fs[n].(queue := []));
      if |fs[n].queue| > 1 {
        UniqueSnoc(rest, fs[n].(queue := fs[n].queue[1..]));
      }
    }
  }

  lemma {:induction false} WithoutUnique(fs: seq<Fetch>, k: Key)
    requires Unique(fs)
    ensures Unique(Without(fs, k))
  {
    if fs != [] {
      var n := |fs| - 1;
      var rest := Without(fs[..n], k);
      WithoutUnique(fs[..n], k);
      forall g | g in rest
        ensures g.key != fs[n].key
      {
        WithoutHas(fs[..n], k, g);
      }
      UseIn(rest, fs[n].key);
      UniqueSnoc(rest, fs[n]);
    }
  }

  lemma StepUnique(t: State, e: Event)
    requires Unique(t.fetches)
    ensures Unique(Step(t, e).fetches)
  {
    match e
    case Round => UnservedUnique(t.fetches);
    case Open(f) =>
    case Cancel(k) => WithoutUnique(t.fetches, k);
  }

  lemma {:induction false} KeysStayUnique(t: State, es: seq<Event>)
    requires Unique(t.fetches)
    ensures Unique(Run(t, es).fetches)
  {
    hide Unique, Step;
    if es == [] {
      assert Run(t, es) == t;
    } else {
      KeysStayUnique(t, es[..|es| - 1]);
      StepUnique(Run(t, es[..|es| - 1]), es[|es| - 1]);
    }
  }

  // ----- One event, seen by one fetch -----

  lemma RoundServes(t: State, f: Fetch)
    requires Unique(t.fetches) && f in t.fetches
    ensures To(f.key, Step(t, Round).wire) == To(f.key, t.wire) + Serve(f)
    ensures if |f.queue| > 1 then f.(queue := f.queue[1..]) in Step(t, Round).fetches
            else !InUse(Step(t, Round).fetches, f.key)
  {
    hide To, Unserved, ServeAll, InUse;
    var i :| 0 <= i < |t.fetches| && t.fetches[i] == f;
    ServeOne(t.fetches, i);
    ToAppend(f.key, t.wire, ServeAll(t.fetches));
    if |f.queue| > 1 {
      UnservedKeeps(t.fetches, i);
    }
    UseIn(Unserved(t.fetches), f.key);
    forall g | g in Unserved(t.fetches)
      ensures g.key == f.key ==> |f.queue| > 1
    {
      UnservedFrom(t.fetches, g);
    }
  }

  lemma OthersKeep(t: State, f: Fetch, e: Event)
    requires f in t.fetches && !e.Round? && e != Cancel(f.key)
    ensures f in Step(t, e).fetches && Step(t, e).wire == t.wire
  {
    hide Without;
    if e.Cancel? {
      WithoutHas(t.fetches, e.key, f);
    }
  }

  lemma StepClosed(t: State, k: Key, e: Event)
    requires (!InUse(t.fetches, k) && !(e.Open? && e.fetch.key == k)) || e == Cancel(k)
    ensures !InUse(Step(t, e).fetches, k) && To(k, Step(t, e).wire) == To(k, t.wire)
  {
    hide To, Unserved, Without, ServeAll, InUse;
    UseIn(t.fetches, k);
    UseIn(Step(t, e).fetches, k);
    match e
    case Round =>
      forall g | g in Unserved(t.fetches)
        ensures g.key != k
      {
        UnservedFrom(t.fetches, g);
      }
      ServeOthers(k, t.fetches);
      ToAppend(k, t.wire, ServeAll(t.fetches));
    case Open(f) =>
    case Cancel(q) =>
      forall g | g in Without(t.fetches, q)
        ensures g.key != k
      {
        WithoutHas(t.fetches, q, g);
      }
  }

  // ----- Whole runs -----

  lemma RunNone(t: State, es: seq<Event>)
    ensures Run(t, es[..0]) == t
  {
  }

  lemma RunSnoc(t: State, es: seq<Event>, n: nat)
    requires n < |es|
    ensures Run(t, es[..n + 1]) == Step(Run(t, es[..n]), es[n])
  {
    assert es[..n + 1][..n] == es[..n];
  }

  lemma CancelledSnoc(k: Key, es: seq<Event>, n: nat)
    requires n < |es|
    ensures Cancelled(k, es, n + 1) <==> Cancelled(k, es, n) || es[n] == Cancel(k)
  {
  }

  lemma StreamNext(k: Key, q: seq<Object>, r: nat)
    requires r < |q|
    ensures Serve(Fetch(k, q[r..])) == [Stream(k, q)[r]]
    ensures Stream(k, q)[..r + 1] == Stream(k, q)[..r] + [Stream(k, q)[r]]
  {
  }

  /** What holds of a fetch after each event of a run. */
  ghost predicate Progress(t: State, k: Key, q: seq<Object>, es: seq<Event>, n: nat)
    requires n <= |es|
  {
    var u, r := Run(t, es[..n]), Turns(k, es, n);
    && To(k, u.wire) == To(k, t.wire) + Stream(k, q)[..Min(r, |q|)]
    && if Listed(k, q, es, n) then r <= |q| && Fetch(k, q[r..]) in u.fetches else !InUse(u.fetches, k)
  }

  lemma ProgressStart(t: State, k: Key, q: seq<Object>, es: seq<Event>)
    requires Fetch(k, q) in t.fetches
    ensures Progress(t, k, q, es, 0)
  {
    RunNone(t, es);
    hide Run, To;
    assert q[0..] == q;
    assert To(k, t.wire) + Stream(k, q)[..0] == To(k, t.wire);
  }

  lemma {:induction false} ProgressKept(t: State, k: Key, q: seq<Object>, es: seq<Event>, n: nat)
    requires Unique(t.fetches) && Fetch(k, q) in t.fetches && n <= |es|
    requires forall i :: 0 <= i < |es| ==> !(es[i].Open? && es[i].fetch.key == k)
    ensures Progress(t, k, q, es, n)
  {
    hide Run, Step, To, InUse, Unique, Progress;
    if n == 0 {
      ProgressStart(t, k, q, es);
    } else {
      ProgressKept(t, k, q, es, n - 1);
      KeysStayUnique(t, es[..n - 1]);
      RunSnoc(t, es, n - 1);
      ProgressStep(t, k, q, es, n - 1);
    }
  }

  lemma ProgressStep(t: State, k: Key, q: seq<Object>, es: seq<Event>, n: nat)
    requires n < |es| && Unique(Run(t, es[..n]).fetches)
    requires !(es[n].Open? && es[n].fetch.key == k)
    requires Progress(t, k, q, es, n)
    requires Run(t, es[..n + 1]) == Step(Run(t, es[..n]), es[n])
    ensures Progress(t, k, q, es, n + 1)
  {
    hide Run, Step, To, InUse, Cancelled, Unique, Serve, Stream;
    var u, r := Run(t, es[..n]), Turns(k, es, n);
    CancelledSnoc(k, es, n);
    if !Listed(k, q, es, n) || es[n] == Cancel(k) {
      StepClosed(u, k, es[n]);
    } else if es[n].Round? {
      RoundServes(u, Fetch(k, q[r..]));
      if r < |q| {
        StreamNext(k, q, r);
        assert q[r..][1..] == q[r + 1..];
      } else {
        ServeEmpty(k);
      }
    } else {
      OthersKeep(u, Fetch(k, q[r..]), es[n]);
    }
  }

  lemma ServeEmpty(k: Key)
    ensures Serve(Fetch(k, [])) == []
  {
  }

  /** Whatever other fetches do, a fetch is sent its queue in order, one object a round, with the
      end of the stream on the last object only, until it is through or cancelled; then nothing. */
  lemma FetchDeliversItsQueue(t: State, k: Key, q: seq<Object>, es: seq<Event>)
    requires Unique(t.fetches) && Fetch(k, q) in t.fetches
    requires forall i :: 0 <= i < |es| ==> !(es[i].Open? && es[i].fetch.key == k)
    ensures To(k, Run(t, es).wire) == To(k, t.wire) + Stream(k, q)[..Min(Turns(k, es, |es|), |q|)]
    ensures InUse(Run(t, es).fetches, k) <==> Listed(k, q, es, |es|)
  {
    hide Run, To, Stream;
    ProgressKept(t, k, q, es, |es|);
    assert es[..|es|] == es;
    if Listed(k, q, es, |es|) {
      UseIn(Run(t, es).fetches, k);
    }
  }

  function Rounds(es: seq<Event>): nat {
    if es == [] then 0 else Rounds(es[..|es| - 1]) + if es[|es| - 1].Round? then 1 else 0
  }

  lemma {:induction false} AllTurns(k: Key, es: seq<Event>, n: nat)
    requires n <= |es| && !Cancelled(k, es, n)
    ensures Turns(k, es, n) == Rounds(es[..n])
  {
    if n > 0 {
      CancelledSnoc(k, es, n - 1);
      AllTurns(k, es, n - 1);
      assert es[..n][..n - 1] == es[..n - 1];
    }
  }

  /** A fetch that is not cancelled has been sent all of its queue, and is gone, after as many
      rounds as it has objects (after one, when it has none). */
  lemma FetchDrains(t: State, k: Key, q: seq<Object>, es: seq<Event>)
    requires Unique(t.fetches) && Fetch(k, q) in t.fetches
    requires forall i :: 0 <= i < |es| ==> es[i] != Cancel(k) && !(es[i].Open? && es[i].fetch.key == k)
    requires Rounds(es) >= |q| && Rounds(es) > 0
    ensures To(k, Run(t, es).wire) == To(k, t.wire) + Stream(k, q)
    ensures !InUse(Run(t, es).fetches, k)
  {
    FetchDeliversItsQueue(t, k, q, es);
    AllTurns(k, es, |es|);
    assert es[..|es|] == es;
    assert Stream(k, q)[..|q|] == Stream(k, q);
  }

  /** From request to drain: a standalone fetch that is left alone gets every cached object in its
      range as often as it is cached, nothing else, in arrival or in descending order. */
  lemma RangeIsDeliveredOnce(t: State, k: Key, cache: seq<Object>, r: Range, descending: bool, es: seq<Event>)
    requires Unique(t.fetches) && !InUse(t.fetches, k)
    requires forall i :: 0 <= i < |es| ==> es[i] != Cancel(k) && !(es[i].Open? && es[i].fetch.key == k)
    requires Rounds(es) > 0 && Rounds(es) >= |StandaloneQueue(cache, r, descending)|
    ensures var q := StandaloneQueue(cache, r, descending);
            && To(k, Run(Step(t, Open(Fetch(k, q))), es).wire) == To(k, t.wire) + Stream(k, q)
            && !InUse(Run(Step(t, Open(Fetch(k, q))), es).fetches, k)
            && (forall o: Object :: multiset(q)[o] == if InRange(o.at, r) then multiset(cache)[o] else 0)
            && (descending ==> Descending(q))
            && (!descending ==> q == Delivery.Keep(Arrivals(cache), Passing(Arrivals(cache), RangeTest(r))))
  {
    hide Run, To, Stream, InRange, Sort, Queue, Rounds;
    var queue := Queue(cache, RangeTest(r));
    var q := Ordered(queue, descending);
    FetchDrains(Step(t, Open(Fetch(k, q))), k, q, es);
    SortSorts(queue);
    QueueIsArrivalOrder(cache, RangeTest(r));
    forall o: Object
      ensures multiset(q)[o] == if InRange(o.at, r) then multiset(cache)[o] else 0
    {
      QueueHas(cache, RangeTest(r), o);
    }
  }

  /** From request to drain, for any queue: one message an object, in order, the end of the stream on the
      last and only there, and then the fetch is gone. */
  lemma QueueIsSent(t: State, k: Key, q: seq<Object>, es: seq<Event>)
    requires Unique(t.fetches) && !InUse(t.fetches, k)
    requires forall i :: 0 <= i < |es| ==> es[i] != Cancel(k) && !(es[i].Open? && es[i].fetch.key == k)
    requires Rounds(es) > 0 && Rounds(es) >= |q|
    ensures var before := To(k, t.wire);
            var after := Run(Step(t, Open(Fetch(k, q))), es);
            var sent := To(k, after.wire);
            && before <= sent && |sent| == |before| + |q| && !InUse(after.fetches, k)
            && forall i | 0 <= i < |q| :: sent[|before| + i] == FetchSend(k, q[i], i == |q| - 1)
  {
    hide Run, To, Rounds;
    FetchDrains(Step(t, Open(Fetch(k, q))), k, q, es);
  }

  /** A joining fetch that is left alone: every object from its start on is sent as often as it is
      cached, no other, in arrival or descending order, the last one with the end of the stream. */
  lemma JoiningIsDeliveredOnce(t: State, k: Key, cache: seq<Object>, absolute: bool, joiningStart: nat,
                               descending: bool, es: seq<Event>)
    requires Unique(t.fetches) && !InUse(t.fetches, k) && cache != []
    requires cache[0].at.group <= MAX_VARINT && joiningStart <= MAX_VARINT
    requires forall i :: 0 <= i < |es| ==> es[i] != Cancel(k) && !(es[i].Open? && es[i].fetch.key == k)
    requires Rounds(es) > 0 && Rounds(es) >= |JoiningQueue(cache, absolute, joiningStart, descending)|
    ensures var q := JoiningQueue(cache, absolute, joiningStart, descending);
            var before, latest := To(k, t.wire), cache[0].at.group;
            var after := Run(Step(t, Open(Fetch(k, q))), es);
            var sent := To(k, after.wire);
            && before <= sent && |sent| == |before| + |q| && !InUse(after.fetches, k)
            && (forall i | 0 <= i < |q| :: sent[|before| + i] == FetchSend(k, q[i], i == |q| - 1))
            && (forall o: Object | o.at.group <= MAX_VARINT ::
                  multiset(q)[o] == if (absolute && joiningStart <= o.at.group)
                                       || (!absolute && joiningStart <= latest && latest <= o.at.group + joiningStart)
                                    then multiset(cache)[o] else 0)
            && (descending ==>
                  forall i, j | 0 <= i < j < |q| ::
                    q[i].at.group > q[j].at.group || (q[i].at.group == q[j].at.group && q[i].at.obj <= q[j].at.obj))
            && (!descending ==> exists mask | |mask| == |cache| :: q == Delivery.Keep(Arrivals(cache), mask))
  {
    hide Run, To, Rounds, JoiningQueue, Step, InUse, Unique;
    var q := JoiningQueue(cache, absolute, joiningStart, descending);
    QueueIsSent(t, k, q, es);
    JoiningOrder(cache, absolute, joiningStart);
    forall o: Object | o.at.group <= MAX_VARINT
      ensures var latest := cache[0].at.group;
              multiset(q)[o] == if (absolute && joiningStart <= o.at.group)
                                   || (!absolute && joiningStart <= latest && latest <= o.at.group + joiningStart)
                                then multiset(cache)[o] else 0
    {
      JoiningQueueHas(cache, absolute, joiningStart, descending, o);
    }
  }

  /** A drained fetch was told the end of the stream if and only if some cached object was in its range. */
  lemma EndOfStreamIffNotEmpty(t: State, k: Key, cache: seq<Object>, r: Range, descending: bool, es: seq<Event>)
    requires Unique(t.fetches) && !InUse(t.fetches, k)
    requires forall i :: 0 <= i < |es| ==> es[i] != Cancel(k) && !(es[i].Open? && es[i].fetch.key == k)
    requires Rounds(es) > 0 && Rounds(es) >= |StandaloneQueue(cache, r, descending)|
    ensures var q := StandaloneQueue(cache, r, descending);
            var sent := To(k, Run(Step(t, Open(Fetch(k, q))), es).wire);
            && |sent| >= |To(k, t.wire)|
            && ((exists i :: |To(k, t.wire)| <= i < |sent| && sent[i].FetchSend? && sent[i].endOfStream)
                <==> exists o :: o in cache && InRange(o.at, r))
  {
    hide Run, To, InRange, Sort, Queue, Rounds, Ordered, Step, Stream;
    var q := StandaloneQueue(cache, r, descending);
    RangeIsDeliveredOnce(t, k, cache, r, descending, es);
    SomethingQueued(q, cache, r);
    StreamEnds(To(k, t.wire), k, q);
  }

  lemma StreamEnds(before: seq<Message>, k: Key, q: seq<Object>)
    ensures var sent := before + Stream(k, q);
            (exists i :: |before| <= i < |sent| && sent[i].FetchSend? && sent[i].endOfStream) <==> q != []
  {
    hide Stream;
    var sent := before + Stream(k, q);
    assert forall i :: |before| <= i < |sent| ==> sent[i] == Stream(k, q)[i - |before|];
    if q != [] {
      assert sent[|sent| - 1].FetchSend? && sent[|sent| - 1].endOfStream;
    }
  }

  lemma SomethingQueued(q: seq<Object>, cache: seq<Object>, r: Range)
    requires forall o: Object :: multiset(q)[o] == if InRange(o.at, r) then multiset(cache)[o] else 0
    ensures q != [] <==> exists o :: o in cache && InRange(o.at, r)
  {
    hide InRange;
    if q != [] {
      assert q[0] in multiset(q) && multiset(q)[q[0]] > 0;
      assert q[0] in cache;
    }
    if o :| o in cache && InRange(o.at, r) {
      assert o in multiset(cache) && multiset(q)[o] > 0;
      assert o in q;
    }
  }

  /** So a fetch whose range holds none of the cached objects is accepted, gets nothing, and is gone
      after a round; it is never told the end of the stream. */
  lemma EmptyFetchNeverEnds(t: State, k: Key, o: Object, r: Range, descending: bool)
    requires Unique(t.fetches) && !InUse(t.fetches, k) && !InRange(o.at, r)
    ensures var q := StandaloneQueue([o], r, descending);
            var after := Run(Step(t, Open(Fetch(k, q))), [Round]);
            To(k, after.wire) == To(k, t.wire) && !InUse(after.fetches, k)
  {
    hide Run, To, InRange, Step;
    OneOutside(o, r, descending);
    OneRound();
    RangeIsDeliveredOnce(t, k, [o], r, descending, [Round]);
    assert To(k, t.wire) + Stream(k, []) == To(k, t.wire);
  }

  lemma OneOutside(o: Object, r: Range, descending: bool)
    requires !InRange(o.at, r)
    ensures StandaloneQueue([o], r, descending) == []
  {
    hide InRange;
    var none: seq<Object> := [];
    assert [o][1..] == none && !RangeTest(r)(o);
    assert Queue([o], RangeTest(r)) == none + none == none;
    assert Sort(none) == none;
  }

  lemma OneRound()
    ensures Rounds([Round]) == 1
  {
    assert [Round][..0] == [];
  }

  // ----- The relay's own code -----

  class Server {
    var fetches: seq<Fetch>
    var wire: seq<Message>

    function View(): State
      reads this
    {
      State(fetches, wire)
    }

    ghost predicate Valid()
      reads this
    {
      Unique(fetches)
    }

    constructor ()
      ensures Valid() && View() == State([], [])
    {
      fetches, wire := [], [];
    }

    method Known(k: Key) returns (known: bool)
      ensures known == InUse(fetches, k)
    {
      known := false;
      for i := 0 to |fetches|
        invariant known == InUse(fetches[..i], k)
      {
        assert forall j :: 0 <= j < i ==> fetches[..i + 1][j] == fetches[..i][j];
        if fetches[i].key == k {
          assert fetches[..i + 1][i].key == k;
          known := true;
        }
      }
      assert fetches[..|fetches|] == fetches;
    }

    /** A fetch of a range of the cache; refused when the cache is empty, or when the request id is in
        use by another fetch or, as `elsewhere` says, by a subscription. */
    method StandaloneFetch(k: Key, elsewhere: bool, cache: seq<Object>, r: Range, descending: bool) returns (ok: bool)
      requires Valid()
      modifies this`fetches
      ensures Valid()
      ensures ok == (cache != [] && !elsewhere && !InUse(old(fetches), k))
      ensures var queue := StandaloneQueue(cache, r, descending);
              View() == if cache == [] || elsewhere then old(View()) else Step(old(View()), Open(Fetch(k, queue)))
    {
      var end := Location(r.end.group, if r.end.obj == 0 then MAX_VARINT else r.end.obj - 1);
      if cache == [] {
        return false;
      }
      var known := Known(k);
      if known || elsewhere {
        return false;
      }
      ghost var test := RangeTest(r);
      var queue: seq<Object> := [];
      for i := 0 to |cache|
        invariant queue == Queue(cache[..i], test)
        invariant fetches == old(fetches) && wire == old(wire)
      {
        QueueSnoc(cache, i, test);
        var at := cache[i].at;
        if (at.group < r.start.group || at.group > end.group)
           || (at.group == r.start.group && at.obj < r.start.obj)
           || (at.group == end.group && end.obj > 0 && at.obj > end.obj) {
          continue;
        }
        queue := [cache[i]] + queue;
      }
      assert cache[..|cache|] == cache;
      fetches := [Fetch(k, Ordered(queue, descending))] + fetches;
      ok := true;
    }

    /** A fetch of the groups from a start on, absolute or counted back from the latest; refused when
        the subscription it joins is not established, that is, known, active and forwarding, or when
        the request id is in use by another fetch or, as `elsewhere` says, by a subscription. */
    method JoiningFetch(k: Key, elsewhere: bool, established: bool, cache: seq<Object>, absolute: bool,
                        joiningStart: nat, descending: bool) returns (ok: bool)
      requires Valid()
      modifies this`fetches
      ensures Valid()
      ensures ok == (established && !elsewhere && !InUse(old(fetches), k))
      ensures var queue := JoiningQueue(cache, absolute, joiningStart, descending);
              View() == if established && !elsewhere then Step(old(View()), Open(Fetch(k, queue))) else old(View())
    {
      if !established {
        return false;
      }
      var known := Known(k);
      if known || elsewhere {
        return false;
      }
      var start := if cache == [] then 0 else JoiningStart(absolute, joiningStart, cache[0].at.group);
      ghost var test := GroupTest(start);
      var queue: seq<Object> := [];
      for i := 0 to |cache|
        invariant queue == Queue(cache[..i], test)
        invariant fetches == old(fetches) && wire == old(wire)
      {
        QueueSnoc(cache, i, test);
        if cache[i].at.group < start {
          continue;
        }
        queue := [cache[i]] + queue;
      }
      assert cache[..|cache|] == cache;
      fetches := [Fetch(k, Ordered(queue, descending))] + fetches;
      ok := true;
    }

    method FetchCancel(k: Key)
      requires Valid()
      modifies this`fetches
      ensures Valid()
      ensures View() == Step(old(View()), Cancel(k))
    {
      StepUnique(View(), Cancel(k));
      RemoveNone(fetches, k);
      for i := 0 to |fetches|
        invariant forall j :: 0 <= j < i ==> fetches[j].key != k
      {
        if fetches[i].key == k {
          RemoveAt(fetches, i);
          fetches := fetches[..i] + fetches[i + 1..];
          return;
        }
      }
    }

    /** Serves the fetch at `i`: it sends its first object, and leaves the list when it has none
        left. The result is where the next fetch is. */
    method ServeFetch(i: nat) returns (next: nat)
      requires i < |fetches|
      modifies this
      ensures wire == old(wire) + Serve(old(fetches)[i])
      ensures fetches == old(fetches)[..i] + Left(old(fetches)[i]) + old(fetches)[i + 1..]
      ensures next == i + |Left(old(fetches)[i])|
    {
      next := i;
      var f := fetches[i];
      if f.queue != [] {
        wire := wire + [FetchSend(f.key, f.queue[0], |f.queue| == 1)];
        f := f.(queue := f.queue[1..]);
        fetches := fetches[i := f];
      }
      if f.queue == [] {
        fetches := fetches[..i] + fetches[i + 1..];
      } else {
        next := i + 1;
      }
    }

    /** One pass over the fetches. */
    method ServeRound()
      requires Valid()
      modifies this
      ensures Valid()
      ensures View() == Step(old(View()), Round)
    {
      hide Unserved, ServeAll, Serve, Left, Unique, InUse, Without;
      ghost var was := fetches;
      ghost var served: nat := 0;
      var i := 0;
      assert was[..0] == [];
      PassNone();
      while i < |fetches|
        invariant served <= |was| && i == |Unserved(was[..served])|
        invariant fetches == Unserved(was[..served]) + was[served..]
        invariant wire == old(wire) + ServeAll(was[..served])
        decreases |was| - served
      {
        PassSnoc(was, served);
        PassOne(was, served);
        i := ServeFetch(i);
        served := served + 1;
      }
      assert was[..|was|] == was && fetches == Unserved(was);
      UnservedUnique(was);
      assert Unique(fetches);
    }
  }

  lemma {:induction false} QueueSnoc(cache: seq<Object>, i: nat, test: Object -> bool)
    requires i < |cache|
    ensures Queue(cache[..i + 1], test) == (if test(cache[i]) then [cache[i]] else []) + Queue(cache[..i], test)
  {
    if i > 0 {
      QueueSnoc(cache[1..], i - 1, test);
      assert cache[1..][..i] == cache[..i + 1][1..] && cache[1..][..i - 1] == cache[..i][1..];
    }
  }

  lemma PassNone()
    ensures ServeAll([]) == [] && Unserved([]) == []
  {
  }

  /** The fetch served next, and what its turn leaves of the list. */
  lemma PassOne(was: seq<Fetch>, served: nat)
    requires served < |was|
    ensures var past := Unserved(was[..served]);
            var list := past + was[served..];
            && list[|past|] == was[served]
            && list[..|past|] + Left(was[served]) + list[|past| + 1..]
               == Unserved(was[..served + 1]) + was[served + 1..]
            && |Unserved(was[..served + 1])| == |past| + |Left(was[served])|
  {
    hide Unserved, Left, ServeAll, Serve;
    PassSnoc(was, served);
    var past := Unserved(was[..served]);
    var list := past + was[served..];
    assert list[..|past|] == past && list[|past| + 1..] == was[served + 1..];
  }

  lemma PassSnoc(fs: seq<Fetch>, i: nat)
    requires i < |fs|
    ensures ServeAll(fs[..i + 1]) == ServeAll(fs[..i]) + Serve(fs[i])
    ensures Unserved(fs[..i + 1]) == Unserved(fs[..i]) + Left(fs[i])
  {
    assert fs[..i + 1][..i] == fs[..i];
  }

  lemma {:induction false} RemoveNone(fs: seq<Fetch>, k: Key)
    ensures (forall i :: 0 <= i < |fs| ==> fs[i].key != k) ==> Without(fs, k) == fs
  {
    if fs != [] {
      RemoveNone(fs[..|fs| - 1], k);
      assert forall i :: 0 <= i < |fs| - 1 ==> fs[..|fs| - 1][i] == fs[i];
    }
  }

  lemma {:induction false} RemoveAt(fs: seq<Fetch>, at: nat)
    requires Unique(fs) && at < |fs|
    ensures Without(fs, fs[at].key) == fs[..at] + fs[at + 1..]
  {
    var n := |fs| - 1;
    if at == n {
      RemoveNone(fs[..n], fs[at].key);
    } else {
      RemoveAt(fs[..n], at);
      assert fs[..n][..at] + fs[..n][at + 1..] + [fs[n]] == fs[..at] + fs[at + 1..];
    }
  }
}
