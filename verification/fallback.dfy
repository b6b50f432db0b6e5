/** The public operations of the backend-free store: `set`, `update`, `push`
    and `onValue`, each a read-modify-write of the persisted tree.

  Storage is the one browser-local record holding the whole tree. Every
  operation parses it afresh, so there is no in-memory copy to keep in step.
  A successful write persists the new tree and, when a broadcast channel
  exists, posts it to the other tabs. Nothing here calls the writing tab's
  own listeners: they fire only when subscribing and when a broadcast from
  another tab arrives.
 */
module Fallback {
  import opened Json
  import opened Results
  import opened Paths
  import opened Tree
  import opened Listeners

  /** The persisted record: never written, unreadable (absent storage or
      text that does not parse), or a saved tree. */
  datatype Storage = Missing | Unreadable | Saved(tree: Value)

  /** `readStore()`: the saved tree, or `{}` when there is none. */
  function ReadStore(s: Storage): (t: Value)
    ensures s.Saved? ==> t == s.tree
    ensures !s.Saved? ==> t == EmptyNode
  {
    match s
    case Saved(t) => t
    case _ => EmptyNode
  }

  /** The effect of a successful write: the new record and the messages
      posted to other tabs. */
  datatype Written = Written(storage: Storage, posted: seq<Message>)

  /** `writeStore(t)`: persist, then post `{type: 'update', store: t}` if the
      channel exists. */
  function WriteStore(t: Value, channel: bool): (w: Written)
    ensures w.storage == Saved(t)
    ensures |w.posted| == if channel then 1 else 0
    ensures forall m :: m in w.posted ==> IsUpdate(m) && m.store == Defined(t)
  {
    Written(Saved(t), if channel then [Posted("update", Defined(t))] else [])
  }

  /** `set(path, v)`. */
  function SetValue(storage: Storage, channel: bool, path: string, v: Value): (r: Result<Written>)
    ensures r.Ok? ==> r.value.storage.Saved?
    ensures r.Ok? ==> forall m :: m in r.value.posted ==> m == Posted("update", Defined(r.value.storage.tree))
  {
    match SetPath(ReadStore(storage), Segments(path), v)
    case Ok(t) => Ok(WriteStore(t, channel))
    case Err(f) => Err(f)
  }

  /** `update(path, payload)`; the existing value must not be a non-empty
      string, whose characters `Object.assign` would copy. */
  function UpdateValue(storage: Storage, channel: bool, path: string, payload: map<string, Value>): (r: Result<Written>)
    requires !IsText(Get(ReadStore(storage), path))
    ensures r.Ok? ==> r.value.storage.Saved?
    ensures r.Ok? ==> forall m :: m in r.value.posted ==> m == Posted("update", Defined(r.value.storage.tree))
  {
    match UpdatePath(ReadStore(storage), Segments(path), payload)
    case Ok(t) => Ok(WriteStore(t, channel))
    case Err(f) => Err(f)
  }

  /** What `push` resolves with: the write, and `{key: id}`. */
  datatype Pushed = Pushed(written: Written, key: string)

  /** `push(path, v)` with the generated id passed in. */
  function PushValue(storage: Storage, channel: bool, path: string, id: string, v: Value): (r: Result<Pushed>)
    ensures r.Ok? ==> r.value.key == id && r.value.written.storage.Saved?
    ensures r.Ok? ==> forall m :: m in r.value.written.posted ==> m == Posted("update", Defined(r.value.written.storage.tree))
  {
    match PushPath(ReadStore(storage), Segments(path), id, v)
    case Ok(t) => Ok(Pushed(WriteStore(t, channel), id))
    case Err(f) => Err(f)
  }

  /** The outcome of `onValue`: the new registry and the one immediate
      invocation of the callback. */
  datatype Subscribed = Subscribed(registry: Registry, initial: Delivery)

  /** `onValue(path, cb)`: register under the exact path string, then call
      the callback once with the value currently stored at the path. */
  function OnValue(r: Registry, storage: Storage, path: string, cb: CallbackId): (s: Subscribed)
    ensures r.Valid() ==> s.registry.Valid()
    ensures s.registry.Listeners(path) == r.Listeners(path) + [cb]
    ensures forall p :: p != path ==> s.registry.Listeners(p) == r.Listeners(p)
    ensures s.initial.target == Target(path, cb)
    ensures s.initial.value == Get(ReadStore(storage), path)
  {
    Subscribed(Subscribe(r, path, cb), Delivery(Target(path, cb), Get(ReadStore(storage), path)))
  }

  /* ---------------------------------------------------------------------
     Properties of the operations
     --------------------------------------------------------------------- */

  /** `set` at a path with segments succeeds exactly when the stored tree is
      writable there; reading any spelling of that path afterwards, through
      the store or by subscribing, gives the value written. */
  lemma SetThenRead(storage: Storage, channel: bool, path: string, v: Value, q: string, r: Registry, cb: CallbackId)
    requires |Segments(path)| > 0
    requires Segments(q) == Segments(path)
    ensures SetValue(storage, channel, path, v).Ok? <==> Writable(ReadStore(storage), Segments(path))
    ensures SetValue(storage, channel, path, v).Ok? ==>
              var after := SetValue(storage, channel, path, v).value.storage;
              && Get(ReadStore(after), q) == Defined(v)
              && OnValue(r, after, q, cb).initial.value == Defined(v)
  {
    WriteAtSpec(ReadStore(storage), Segments(path), v);
  }

  /** `set` at a path without segments ("", "/", ...) stores the value under
      the root key "undefined" instead of replacing the root. */
  lemma SetAtEmptyPath(storage: Storage, channel: bool, path: string, v: Value)
    requires Segments(path) == []
    ensures SetValue(storage, channel, path, v).Ok? <==> ReadStore(storage).Node?
    ensures SetValue(storage, channel, path, v).Ok? ==>
              var t := SetValue(storage, channel, path, v).value.storage.tree;
              && t.Node? && "undefined" in t.children && t.children["undefined"] == v
              && (forall k :: k != "undefined" ==>
                    (k in t.children <==> k in ReadStore(storage).children))
              && (forall k :: k != "undefined" && k in t.children ==>
                    t.children[k] == ReadStore(storage).children[k])
  {
  }

  /** `set` leaves alone every path that diverges from the written one, up
      to a `null` read turning into `undefined` under a replaced ancestor. */
  lemma SetFrame(storage: Storage, channel: bool, path: string, v: Value, q: string)
    requires SetValue(storage, channel, path, v).Ok?
    requires exists k :: 0 <= k < |Segments(path)| && k < |Segments(q)| && Segments(path)[k] != Segments(q)[k]
    ensures var before := Get(ReadStore(storage), q);
            var after := Get(ReadStore(SetValue(storage, channel, path, v).value.storage), q);
            after == before || (before == Defined(Null) && Nullish(after))
  {
    WriteAtFrame(ReadStore(storage), Segments(path), v, Segments(q));
  }

  /** `update` at a path with segments succeeds exactly where `set` would and
      leaves the shallow merge of the payload onto the old value. */
  lemma UpdateThenRead(storage: Storage, channel: bool, path: string, payload: map<string, Value>)
    requires |Segments(path)| > 0
    requires !IsText(Get(ReadStore(storage), path))
    ensures UpdateValue(storage, channel, path, payload).Ok? <==> Writable(ReadStore(storage), Segments(path))
    ensures UpdateValue(storage, channel, path, payload).Ok? ==>
              ShallowMerged(Get(ReadStore(storage), path), payload,
                            Get(ReadStore(UpdateValue(storage, channel, path, payload).value.storage), path))
  {
    UpdateSpec(ReadStore(storage), Segments(path), payload);
  }

  /** `push` at a path with segments resolves with the given key, and the
      object at the path maps that key to the value beside the entries it
      had; at a path without segments it always throws. */
  lemma PushThenRead(storage: Storage, channel: bool, path: string, id: string, v: Value)
    ensures |Segments(path)| == 0 ==> PushValue(storage, channel, path, id, v).Err?
    ensures |Segments(path)| > 0 ==>
              (PushValue(storage, channel, path, id, v).Ok? <==>
                 Writable(ReadStore(storage), Segments(path)) && NodeOrFalsy(Get(ReadStore(storage), path)))
    ensures PushValue(storage, channel, path, id, v).Ok? ==>
              var before := Get(ReadStore(storage), path);
              var after := Get(ReadStore(PushValue(storage, channel, path, id, v).value.written.storage), path);
              && PushValue(storage, channel, path, id, v).value.key == id
              && after.Defined? && after.value.Node?
              && id in after.value.children && after.value.children[id] == v
              && (forall k :: k != id ==>
                    (k in after.value.children <==> before.Defined? && before.value.Node? && k in before.value.children))
              && (forall k :: k != id && k in after.value.children ==> after.value.children[k] == before.value.children[k])
  {
    if |Segments(path)| == 0 {
      PushAtRootFails(ReadStore(storage), Segments(path), id, v);
    } else {
      PushSpec(ReadStore(storage), Segments(path), id, v);
    }
  }

  /** Before anything is stored, subscribing shows `{}` for the root,
      `undefined` for a top-level key and `null` for anything deeper. */
  lemma FreshStoreSubscription(r: Registry, storage: Storage, path: string, cb: CallbackId)
    requires !storage.Saved?
    ensures |Segments(path)| == 1 ==> OnValue(r, storage, path, cb).initial.value == Undefined
    ensures |Segments(path)| > 1 ==> OnValue(r, storage, path, cb).initial.value == Defined(Null)
    ensures |Segments(path)| == 0 ==> OnValue(r, storage, path, cb).initial.value == Defined(EmptyNode)
  {
    var segs := Segments(path);
    if |segs| == 1 {
      assert Walk(Defined(EmptyNode), segs) == Walk(Property(EmptyNode, segs[0]), segs[1..]);
    } else if |segs| > 1 {
      assert Walk(Defined(EmptyNode), segs[..1]) == Undefined;
      AbsentPrefixReadsNull(Defined(EmptyNode), segs, 1);
    }
  }

  /** A `set` in one tab reaches every listener of another tab that receives
      its broadcast: each is shown its path's value in the new tree, and a
      listener on the written path is shown the written value. */
  lemma SetReachesOtherTabs(storage: Storage, path: string, v: Value, other: Registry)
    requires |Segments(path)| > 0
    requires SetValue(storage, true, path, v).Ok?
    ensures var w := SetValue(storage, true, path, v).value;
            && |w.posted| == 1
            && forall d :: d in Notifications(other, w.posted[0]) ==>
                 && d.value == Get(ReadStore(w.storage), d.target.path)
                 && (Segments(d.target.path) == Segments(path) ==> d.value == Defined(v))
  {
    var w := SetValue(storage, true, path, v).value;
    WriteAtSpec(ReadStore(storage), Segments(path), v);
    assert w.posted == [Posted("update", Defined(w.storage.tree))];
  }

  /* ---------------------------------------------------------------------
     End-to-end scenarios
     --------------------------------------------------------------------- */

  /** One message appended to an empty store at `sessions/abc/messages`
      (however the path is spelled) is the only entry under it. */
  lemma AppendScenario(storage: Storage, channel: bool, path: string, id: string, message: Value)
    requires !storage.Saved?
    requires Segments(path) == ["sessions", "abc", "messages"]
    ensures PushValue(storage, channel, path, id, message).Ok?
    ensures Get(ReadStore(PushValue(storage, channel, path, id, message).value.written.storage), path)
            == Defined(Node(map[id := message]))
  {
    var segs := Segments(path);
    EmptyNodeWritable(segs);
    AbsentPrefixReadsNull(Defined(EmptyNode), segs, 1);
    WriteAtSpec(EmptyNode, segs, Node(map[id := message]));
  }

  /** Two typing-flag merges at `sessions/abc/typing` on an empty store: the
      later payload wins. */
  lemma TypingScenario(storage: Storage, channel: bool, path: string)
    requires !storage.Saved?
    requires Segments(path) == ["sessions", "abc", "typing"]
    ensures !IsText(Get(ReadStore(storage), path))
    ensures var first := UpdateValue(storage, channel, path, map["u1" := Bool(true)]);
            && first.Ok?
            && !IsText(Get(ReadStore(first.value.storage), path))
            && var second := UpdateValue(first.value.storage, channel, path,
                                         map["u1" := Bool(false), "u2" := Bool(true)]);
               && second.Ok?
               && Get(ReadStore(second.value.storage), path)
                  == Defined(Node(map["u1" := Bool(false), "u2" := Bool(true)]))
  {
    var segs := Segments(path);
    var a := map["u1" := Bool(true)];
    var b := map["u1" := Bool(false), "u2" := Bool(true)];
    EmptyNodeWritable(segs);
    AbsentPrefixReadsNull(Defined(EmptyNode), segs, 1);
    assert OwnEntries(Walk(Defined(EmptyNode), segs)) == map[];
    assert map[] + a == a;
    WriteAtSpec(EmptyNode, segs, Node(a));
    var mid := UpdatePath(EmptyNode, segs, a).value;
    assert Walk(Defined(mid), segs) == Defined(Node(a));
    NodeReadMeansWritable(mid, segs);
    assert a + b == b;
    WriteAtSpec(mid, segs, Node(b));
  }
}
