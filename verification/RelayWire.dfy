/** What the relay sends its subscribers. */
module RelayWire {
  import opened MoqObjects

  /** A subscription or fetch is known by its subscriber's connection and request id, here one number. */
  type Key = nat

  datatype Message =
    | Send(to: Key, alias: nat, obj: Object)
    | Done(to: Key)
    | FetchSend(to: Key, obj: Object, endOfStream: bool)

  /** The messages to one subscription. */
  function To(k: Key, wire: seq<Message>): seq<Message> {
    if wire == [] then []
    else
      var n := |wire| - 1;
      To(k, wire[..n]) + if wire[n].to == k then [wire[n]] else []
  }

  lemma ToNone(k: Key)
    ensures To(k, []) == []
  {
  }

  lemma ToSnoc(k: Key, wire: seq<Message>, m: Message)
    ensures To(k, wire + [m]) == To(k, wire) + if m.to == k then [m] else []
  {
    assert (wire + [m])[..|wire|] == wire;
  }

  lemma {:induction false} ToAppend(k: Key, a: seq<Message>, b: seq<Message>)
    ensures To(k, a + b) == To(k, a) + To(k, b)
  {
    hide To;
    if b == [] {
      assert a + b == a;
      ToNone(k);
    } else {
      var n := |b| - 1;
      ToAppend(k, a, b[..n]);
      assert a + b == (a + b[..n]) + [b[n]];
      ToSnoc(k, a + b[..n], b[n]);
      assert b == b[..n] + [b[n]];
      ToSnoc(k, b[..n], b[n]);
    }
  }
}
