/** The subscription registry of the fallback store and the fan-out that a
    received broadcast triggers.

  The source keeps a JavaScript `Map` from exact path strings to arrays of
  callbacks. A `Map` iterates in first-insertion order and re-setting a key
  keeps its place, so the registry here is that order plus the lists.
 */
module Listeners {
  import opened Json
  import opened Paths
  import opened Tree

  /** The identity of a callback function; unsubscribing compares by it. */
  type CallbackId = nat

  /** One registration: a callback on an exact path string. */
  datatype Target = Target(path: string, callback: CallbackId)

  /** One invocation of a callback with the value it is shown. */
  datatype Delivery = Delivery(target: Target, value: Read)

  datatype Registry = Registry(order: seq<string>, lists: map<string, seq<CallbackId>>)
  {
    /** Every key occurs once in the order, and the order lists exactly the
        keys. */
    ghost predicate Valid()
    {
      && (forall i, j :: 0 <= i < j < |order| ==> order[i] != order[j])
      && (forall p :: p in lists <==> p in order)
    }

    /** `listeners.get(path) || []`. */
    function Listeners(path: string): (cbs: seq<CallbackId>)
    {
      if path in lists then lists[path] else []
    }
  }

  const NoListeners: Registry := Registry([], map[])

  /** `listeners.set(path, cbs)`: a new key goes last, an existing key keeps
      its place. */
  function Put(r: Registry, path: string, cbs: seq<CallbackId>): (r': Registry)
    ensures r.Valid() ==> r'.Valid()
    ensures r'.Listeners(path) == cbs
    ensures forall p :: p != path ==> r'.Listeners(p) == r.Listeners(p)
  {
    Registry(if path in r.lists then r.order else r.order + [path], r.lists[path := cbs])
  }

  /** `cbs.filter(c => c !== cb)`: every occurrence of `cb` is dropped, every
      other callback keeps its multiplicity. */
  function Without(cbs: seq<CallbackId>, cb: CallbackId): (r: seq<CallbackId>)
    ensures cb !in r
    ensures multiset(r) == multiset(cbs)[cb := 0]
    ensures cb !in cbs ==> r == cbs
    decreases |cbs|
  {
    if |cbs| == 0 then []
    else
      assert cbs == [cbs[0]] + cbs[1..];
      (if cbs[0] == cb then [] else [cbs[0]]) + Without(cbs[1..], cb)
  }

  /** The registering half of `onValue`: the callback goes to the end of its
      path's list. */
  function Subscribe(r: Registry, path: string, cb: CallbackId): (r': Registry)
    ensures r.Valid() ==> r'.Valid()
    ensures r'.Listeners(path) == r.Listeners(path) + [cb]
    ensures forall p :: p != path ==> r'.Listeners(p) == r.Listeners(p)
  {
    Put(r, path, r.Listeners(path) + [cb])
  }

  /** The function `onValue` returns: drop the callback from its path's list
      (the key is created, with an empty list, if it was never set). */
  function Unsubscribe(r: Registry, path: string, cb: CallbackId): (r': Registry)
    ensures r.Valid() ==> r'.Valid()
    ensures cb !in r'.Listeners(path)
    ensures multiset(r'.Listeners(path)) == multiset(r.Listeners(path))[cb := 0]
    ensures forall p :: p != path ==> r'.Listeners(p) == r.Listeners(p)
  {
    Put(r, path, Without(r.Listeners(path), cb))
  }

  /** Calling the unsubscribe function a second time changes nothing. */
  lemma UnsubscribeIdempotent(r: Registry, path: string, cb: CallbackId)
    ensures Unsubscribe(Unsubscribe(r, path, cb), path, cb) == Unsubscribe(r, path, cb)
  {
  }

  /** Subscribing a new callback and unsubscribing it restores the path's
      list; every other path is untouched throughout. */
  lemma {:induction false} SubscribeThenUnsubscribe(r: Registry, path: string, cb: CallbackId)
    requires cb !in r.Listeners(path)
    ensures Unsubscribe(Subscribe(r, path, cb), path, cb).Listeners(path) == r.Listeners(path)
  {
    WithoutAppend(r.Listeners(path), cb);
  }

  lemma {:induction false} WithoutAppend(cbs: seq<CallbackId>, cb: CallbackId)
    requires cb !in cbs
    ensures Without(cbs + [cb], cb) == cbs
    decreases |cbs|
  {
    if |cbs| == 0 {
    } else {
      assert (cbs + [cb])[0] == cbs[0];
      assert (cbs + [cb])[1..] == cbs[1..] + [cb];
      WithoutAppend(cbs[1..], cb);
      assert cbs == [cbs[0]] + cbs[1..];
    }
  }

  /* ---------------------------------------------------------------------
     Broadcast receipt
     --------------------------------------------------------------------- */

  /** What arrives on the broadcast channel: no data at all, or an object
      with a `type` and a `store`. */
  datatype Message = Blank | Posted(kind: string, store: Read)

  predicate IsUpdate(m: Message)
  {
    m.Posted? && m.kind == "update"
  }

  /** Every registration, path by path in map order, callbacks in list order. */
  function Registrations(order: seq<string>, lists: map<string, seq<CallbackId>>): (rs: seq<Target>)
    decreases |order|
  {
    if |order| == 0 then []
    else
      var path := order[|order| - 1];
      Registrations(order[..|order| - 1], lists) + Targets(path, Registry(order, lists).Listeners(path))
  }

  function Targets(path: string, cbs: seq<CallbackId>): (r: seq<Target>)
    ensures |r| == |cbs|
    ensures forall i :: 0 <= i < |r| ==> r[i] == Target(path, cbs[i])
    decreases |cbs|
  {
    if |cbs| == 0 then [] else Targets(path, cbs[..|cbs| - 1]) + [Target(path, cbs[|cbs| - 1])]
  }

  /** The callbacks of one path, each shown the same value. */
  function Deliver(path: string, cbs: seq<CallbackId>, value: Read): (r: seq<Delivery>)
    ensures |r| == |cbs|
    ensures forall i :: 0 <= i < |r| ==> r[i] == Delivery(Target(path, cbs[i]), value)
    decreases |cbs|
  {
    if |cbs| == 0 then [] else Deliver(path, cbs[..|cbs| - 1], value) + [Delivery(Target(path, cbs[|cbs| - 1]), value)]
  }

  /** The invocations a received snapshot causes: each registration once, in
      order, with its path read from the snapshot. */
  function FanOut(order: seq<string>, lists: map<string, seq<CallbackId>>, store: Read): (r: seq<Delivery>)
    ensures |r| == |Registrations(order, lists)|
    ensures forall i :: 0 <= i < |r| ==>
              && r[i].target == Registrations(order, lists)[i]
              && r[i].value == Walk(store, Segments(r[i].target.path))
    decreases |order|
  {
    if |order| == 0 then []
    else
      var path := order[|order| - 1];
      FanOut(order[..|order| - 1], lists, store)
        + Deliver(path, Registry(order, lists).Listeners(path), Walk(store, Segments(path)))
  }

  /** The `onmessage` handler: an update message re-reads every registered
      path from the received store; anything else is ignored. */
  function Notifications(r: Registry, m: Message): (ds: seq<Delivery>)
  {
    if IsUpdate(m) then FanOut(r.order, r.lists, m.store) else []
  }

  /** The handler's loops: for each path, for each of its callbacks, invoke
      it with the value read from the received store. */
  method Receive(r: Registry, m: Message) returns (ds: seq<Delivery>)
    ensures ds == Notifications(r, m)
  {
    ds := [];
    if m.Posted? && m.kind == "update" {
      var i := 0;
      while i < |r.order|
        invariant 0 <= i <= |r.order|
        invariant ds == FanOut(r.order[..i], r.lists, m.store)
      {
        var path := r.order[i];
        var value := Walk(m.store, Segments(path));
        var cbs := r.Listeners(path);
        var batch := Invoke(path, cbs, value);
        FanOutStep(r.order, r.lists, m.store, i);
        ds := ds + batch;
        i := i + 1;
      }
      assert r.order[..i] == r.order;
    }
  }

  /** The inner loop: each callback of one path, in list order. */
  method Invoke(path: string, cbs: seq<CallbackId>, value: Read) returns (batch: seq<Delivery>)
    ensures batch == Deliver(path, cbs, value)
  {
    batch := [];
    var j := 0;
    while j < |cbs|
      invariant 0 <= j <= |cbs|
      invariant batch == Deliver(path, cbs[..j], value)
    {
      DeliverStep(path, cbs, j, value);
      batch := batch + [Delivery(Target(path, cbs[j]), value)];
      j := j + 1;
    }
    assert cbs[..j] == cbs;
  }

  lemma DeliverStep(path: string, cbs: seq<CallbackId>, j: nat, value: Read)
    requires j < |cbs|
    ensures Deliver(path, cbs[..j + 1], value) == Deliver(path, cbs[..j], value) + [Delivery(Target(path, cbs[j]), value)]
  {
    assert cbs[..j + 1][..j] == cbs[..j];
  }

  lemma FanOutStep(order: seq<string>, lists: map<string, seq<CallbackId>>, store: Read, i: nat)
    requires i < |order|
    ensures FanOut(order[..i + 1], lists, store)
            == FanOut(order[..i], lists, store)
               + Deliver(order[i], Registry(order, lists).Listeners(order[i]), Walk(store, Segments(order[i])))
  {
    assert order[..i + 1][..i] == order[..i];
  }

  /** An update reaches each registration exactly once: a (path, callback)
      pair occurs in the fan-out as often as the callback is in the path's
      list. */
  lemma NotifiedOncePerRegistration(r: Registry, path: string, cb: CallbackId)
    requires r.Valid()
    ensures multiset(Registrations(r.order, r.lists))[Target(path, cb)] == multiset(r.Listeners(path))[cb]
  {
    RegistrationCount(r.order, r.lists, path, cb);
  }

  /** Every callback is shown its own path's value in the received store; a
      message that is not an update reaches nobody. */
  lemma NotificationsShowReceivedStore(r: Registry, m: Message)
    ensures !IsUpdate(m) ==> Notifications(r, m) == []
    ensures forall d :: d in Notifications(r, m) ==> d.value == Walk(m.store, Segments(d.target.path))
  {
  }

  lemma {:induction false} RegistrationCount(order: seq<string>, lists: map<string, seq<CallbackId>>, path: string, cb: CallbackId)
    requires forall i, j :: 0 <= i < j < |order| ==> order[i] != order[j]
    requires forall p :: p in lists <==> p in order
    ensures multiset(Registrations(order, lists))[Target(path, cb)] ==
            if path in order then multiset(lists[path])[cb] else 0
    decreases |order|
  {
    if |order| > 0 {
      var init := order[..|order| - 1];
      var last := order[|order| - 1];
      var lists' := map p | p in lists && p != last :: lists[p];
      assert forall p :: p in lists' <==> p in init;
      RegistrationCount(init, lists', path, cb);
      RegistrationsIgnoreOthers(init, lists', lists);
      TargetsCount(last, Registry(order, lists).Listeners(last), path, cb);
      assert path in order <==> path in init || path == last;
      assert last !in init;
    }
  }

  /** Only the lists of keys in the order matter. */
  lemma {:induction false} RegistrationsIgnoreOthers(order: seq<string>, a: map<string, seq<CallbackId>>, b: map<string, seq<CallbackId>>)
    requires forall p :: p in order ==> p in a && p in b && a[p] == b[p]
    ensures Registrations(order, a) == Registrations(order, b)
    decreases |order|
  {
    if |order| > 0 {
      RegistrationsIgnoreOthers(order[..|order| - 1], a, b);
    }
  }

  lemma TargetsCount(p: string, cbs: seq<CallbackId>, path: string, cb: CallbackId)
    ensures multiset(Targets(p, cbs))[Target(path, cb)] == if p == path then multiset(cbs)[cb] else 0
  {
    var ts := Targets(p, cbs);
    if p == path {
      TargetsImage(p, cbs, cb);
    } else {
      assert Target(path, cb) !in ts;
    }
  }

  lemma {:induction false} TargetsImage(p: string, cbs: seq<CallbackId>, cb: CallbackId)
    ensures multiset(Targets(p, cbs))[Target(p, cb)] == multiset(cbs)[cb]
    decreases |cbs|
  {
    if |cbs| > 0 {
      var init := cbs[..|cbs| - 1];
      TargetsImage(p, init, cb);
      assert cbs == init + [cbs[|cbs| - 1]];
    }
  }
}
