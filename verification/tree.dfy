/** The path helpers of the fallback store: reading, writing, shallow merging
    and appending at a slash-delimited path of a JSON tree.

  The source mutates a freshly parsed copy of the tree in place; here every
  helper returns the new tree. A helper that would throw returns `Err`, and
  the caller then persists nothing.
 */
module Tree {
  import opened Json
  import opened Results
  import opened Paths

  /* ---------------------------------------------------------------------
     getPath
     --------------------------------------------------------------------- */

  /** The read loop of `getPath`: before each segment a falsy cursor stops the
      walk with `null`; otherwise the cursor moves to its property. */
  function Walk(cur: Read, parts: seq<string>): (r: Read)
    decreases |parts|
  {
    if |parts| == 0 then cur
    else if !Truthy(cur) then Defined(Null)
    else Walk(Property(cur.value, parts[0]), parts[1..])
  }

  /** `getPath(tree, path)`. A path without segments returns the tree. */
  function Get(t: Value, path: string): (r: Read)
  {
    Walk(Defined(t), Segments(path))
  }

  /** Walking two paths in turn is walking their concatenation. */
  lemma {:induction false} WalkAppend(cur: Read, a: seq<string>, b: seq<string>)
    ensures Walk(cur, a + b) == Walk(Walk(cur, a), b)
    decreases |a|
  {
    if |a| == 0 {
      assert a + b == b;
    } else if !Truthy(cur) {
      assert (a + b)[0] == a[0];
    } else {
      assert (a + b)[1..] == a[1..] + b;
      WalkAppend(Property(cur.value, a[0]), a[1..], b);
    }
  }

  /** A read never fails: once some proper prefix of the path is missing or
      falsy, the whole read is `null`. */
  lemma AbsentPrefixReadsNull(cur: Read, parts: seq<string>, k: nat)
    requires k < |parts|
    requires !Truthy(Walk(cur, parts[..k]))
    ensures Walk(cur, parts) == Defined(Null)
  {
    assert parts == parts[..k] + parts[k..];
    WalkAppend(cur, parts[..k], parts[k..]);
  }

  /** A missing last key reads `undefined`, not `null`. */
  lemma MissingKeyReadsUndefined(cur: Read, parts: seq<string>, key: string)
    requires Walk(cur, parts).Defined? && Walk(cur, parts).value.Node?
    requires key !in Walk(cur, parts).value.children
    ensures Walk(cur, parts + [key]) == Undefined
  {
    WalkAppend(cur, parts, [key]);
  }

  /** An empty path, or one made of slashes only, reads the whole tree. */
  lemma RootRead(t: Value, path: string)
    requires forall i :: 0 <= i < |path| ==> path[i] == '/'
    ensures Get(t, path) == Defined(t)
  {
    OnlySlashes(path);
  }

  /** Below an empty object every non-empty path is absent. */
  lemma EmptyNodeReadsNullish(parts: seq<string>)
    requires |parts| > 0
    ensures Nullish(Walk(Defined(EmptyNode), parts))
  {
  }

  /* ---------------------------------------------------------------------
     setPath
     --------------------------------------------------------------------- */

  /** `cur[key] = v`: only an object accepts a property. */
  function Assign(cur: Value, key: string, v: Value): (r: Result<Value>)
  {
    if cur.Node? then Ok(Node(cur.children[key := v])) else Err(PrimitiveTarget)
  }

  /** The write loop of `setPath` for a non-empty segment list: a missing or
      falsy child on the way is replaced by `{}`, any other child is entered
      as it is, and the last segment is assigned. */
  function WriteAt(cur: Value, parts: seq<string>, v: Value): (r: Result<Value>)
    requires |parts| > 0
    decreases |parts|
  {
    if |parts| == 1 then Assign(cur, parts[0], v)
    else if !cur.Node? then Err(PrimitiveTarget)
    else
      var child := Property(cur, parts[0]);
      var next := if Truthy(child) then child.value else EmptyNode;
      match WriteAt(next, parts[1..], v)
      case Ok(n) => Ok(Node(cur.children[parts[0] := n]))
      case Err(f) => Err(f)
  }

  /** `setPath(tree, path, v)` on the path's segments. With no segments the
      source assigns `tree[parts[-1]]`, that is the key "undefined". */
  function SetPath(root: Value, parts: seq<string>, v: Value): (r: Result<Value>)
  {
    if |parts| == 0 then Assign(root, "undefined", v) else WriteAt(root, parts, v)
  }

  /** The trees `setPath` can write into at `parts`: the root is an object and
      every proper prefix of the path reads an object or something falsy. */
  predicate Writable(t: Value, parts: seq<string>)
  {
    && t.Node?
    && forall k :: 0 < k < |parts| ==> NodeOrFalsy(Walk(Defined(t), parts[..k]))
  }

  lemma EmptyNodeWritable(parts: seq<string>)
    requires |parts| > 0
    ensures Writable(EmptyNode, parts)
  {
  }

  /** Reading below the first segment of an object is reading from its child. */
  lemma WalkThroughChild(t: Value, parts: seq<string>, k: nat)
    requires t.Node? && 0 < k <= |parts|
    ensures Walk(Defined(t), parts[..k]) == Walk(Property(t, parts[0]), parts[1..][..k - 1])
  {
    assert parts[..k][0] == parts[0];
    assert parts[..k][1..] == parts[1..][..k - 1];
  }

  /** setPath succeeds exactly on writable trees, and then reading the path
      back gives the written value. */
  lemma {:induction false} WriteAtSpec(t: Value, parts: seq<string>, v: Value)
    requires |parts| > 0
    ensures WriteAt(t, parts, v).Ok? <==> Writable(t, parts)
    ensures WriteAt(t, parts, v).Ok? ==> Walk(Defined(WriteAt(t, parts, v).value), parts) == Defined(v)
    decreases |parts|
  {
    if |parts| > 1 && t.Node? {
      var child := Property(t, parts[0]);
      var next := if Truthy(child) then child.value else EmptyNode;
      var rest := parts[1..];
      WriteAtSpec(next, rest, v);
      if Truthy(child) {
        assert child == Defined(next);
        forall k | 0 < k < |parts|
          ensures NodeOrFalsy(Walk(Defined(t), parts[..k])) <==>
                  (if k == 1 then next.Node? else NodeOrFalsy(Walk(Defined(next), rest[..k - 1])))
        {
          WalkThroughChild(t, parts, k);
        }
        if Writable(t, parts) {
          assert NodeOrFalsy(Walk(Defined(t), parts[..1]));
          forall j | 0 < j < |rest|
            ensures NodeOrFalsy(Walk(Defined(next), rest[..j]))
          {
            assert NodeOrFalsy(Walk(Defined(t), parts[..j + 1]));
          }
        }
        if Writable(next, rest) {
          forall k | 0 < k < |parts|
            ensures NodeOrFalsy(Walk(Defined(t), parts[..k]))
          {
            if k > 1 {
              assert NodeOrFalsy(Walk(Defined(next), rest[..k - 1]));
            }
          }
        }
      } else {
        EmptyNodeWritable(rest);
        forall k | 0 < k < |parts|
          ensures NodeOrFalsy(Walk(Defined(t), parts[..k]))
        {
          WalkThroughChild(t, parts, k);
        }
      }
      if WriteAt(t, parts, v).Ok? {
        var n := WriteAt(next, rest, v).value;
        assert WriteAt(t, parts, v).value == Node(t.children[parts[0] := n]);
      }
    }
  }

  /** setPath only touches the written path: a path that is neither a prefix
      nor an extension of it reads as before, except that a `null` read
      caused by a falsy ancestor that the write replaced with `{}` may now
      read `undefined`. */
  lemma {:induction false} WriteAtFrame(t: Value, parts: seq<string>, v: Value, q: seq<string>)
    requires |parts| > 0
    requires WriteAt(t, parts, v).Ok?
    requires exists k :: 0 <= k < |parts| && k < |q| && parts[k] != q[k]
    ensures var after := Walk(Defined(WriteAt(t, parts, v).value), q);
            var before := Walk(Defined(t), q);
            after == before || (before == Defined(Null) && Nullish(after))
    decreases |parts|
  {
    var t' := WriteAt(t, parts, v).value;
    assert t.Node? && t'.Node?;
    if q[0] != parts[0] {
      assert Property(t', q[0]) == Property(t, q[0]);
    } else {
      var k :| 0 <= k < |parts| && k < |q| && parts[k] != q[k];
      assert k > 0 && |parts| > 1 && |q| > 1;
      var child := Property(t, parts[0]);
      var next := if Truthy(child) then child.value else EmptyNode;
      var n := WriteAt(next, parts[1..], v).value;
      assert t' == Node(t.children[parts[0] := n]);
      assert parts[1..][k - 1] != q[1..][k - 1];
      WriteAtFrame(next, parts[1..], v, q[1..]);
      if !Truthy(child) {
        EmptyNodeReadsNullish(q[1..]);
      }
    }
  }

  /* ---------------------------------------------------------------------
     updatePath
     --------------------------------------------------------------------- */

  /** The properties `Object.assign` copies out of the existing value:
      an object's entries, nothing from a falsy value, a number or `true`.
      Non-empty strings are excluded by the callers. */
  function OwnEntries(r: Read): (entries: map<string, Value>)
    requires !IsText(r)
  {
    if r.Defined? && r.value.Node? then r.value.children else map[]
  }

  /** `updatePath(tree, path, payload)`: copy the existing value's entries,
      overwrite them with the payload's, and set the result at the path. */
  function UpdatePath(root: Value, parts: seq<string>, payload: map<string, Value>): (r: Result<Value>)
    requires !IsText(Walk(Defined(root), parts))
  {
    var merged := Node(OwnEntries(Walk(Defined(root), parts)) + payload);
    SetPath(root, parts, merged)
  }

  /** What a shallow merge leaves at the path: every payload key with the
      payload's value, every other key of an existing object with its old
      value, and nothing else. */
  predicate ShallowMerged(before: Read, payload: map<string, Value>, after: Read)
  {
    && after.Defined? && after.value.Node?
    && (forall k :: k in payload ==> k in after.value.children && after.value.children[k] == payload[k])
    && (forall k :: k in after.value.children && k !in payload ==>
          before.Defined? && before.value.Node? && k in before.value.children
          && after.value.children[k] == before.value.children[k])
    && (before.Defined? && before.value.Node? ==>
          forall k :: k in before.value.children ==> k in after.value.children)
  }

  /** updatePath succeeds exactly where setPath would, and leaves the shallow
      merge of the payload onto the existing value at the path. */
  lemma UpdateSpec(root: Value, parts: seq<string>, payload: map<string, Value>)
    requires |parts| > 0
    requires !IsText(Walk(Defined(root), parts))
    ensures UpdatePath(root, parts, payload).Ok? <==> Writable(root, parts)
    ensures UpdatePath(root, parts, payload).Ok? ==>
              ShallowMerged(Walk(Defined(root), parts), payload,
                            Walk(Defined(UpdatePath(root, parts, payload).value), parts))
  {
    WriteAtSpec(root, parts, Node(OwnEntries(Walk(Defined(root), parts)) + payload));
  }

  /** Two merges in a row: the second payload wins on shared keys, the keys
      of the first and of the original object survive. */
  lemma UpdateTwice(root: Value, parts: seq<string>, a: map<string, Value>, b: map<string, Value>)
    requires |parts| > 0
    requires !IsText(Walk(Defined(root), parts))
    requires UpdatePath(root, parts, a).Ok?
    ensures var mid := UpdatePath(root, parts, a).value;
            && !IsText(Walk(Defined(mid), parts))
            && UpdatePath(mid, parts, b).Ok?
            && var after := Walk(Defined(UpdatePath(mid, parts, b).value), parts);
               && after.Defined? && after.value.Node?
               && (forall k :: k in b ==> k in after.value.children && after.value.children[k] == b[k])
               && (forall k :: k in a && k !in b ==> k in after.value.children && after.value.children[k] == a[k])
               && (forall k :: k in after.value.children <==>
                     k in a || k in b || k in OwnEntries(Walk(Defined(root), parts)))
               && (forall k :: k in OwnEntries(Walk(Defined(root), parts)) && k !in a && k !in b ==>
                     after.value.children[k] == OwnEntries(Walk(Defined(root), parts))[k])
  {
    var mid := UpdatePath(root, parts, a).value;
    UpdateSpec(root, parts, a);
    var midRead := Walk(Defined(mid), parts);
    assert midRead.Defined? && midRead.value.Node?;
    assert Writable(mid, parts) by {
      WriteAtSpec(root, parts, Node(OwnEntries(Walk(Defined(root), parts)) + a));
      NodeReadMeansWritable(mid, parts);
    }
    UpdateSpec(mid, parts, b);
  }

  /** Reading an object at a path means every ancestor on it is an object. */
  lemma {:induction false} NodeReadMeansWritable(t: Value, parts: seq<string>)
    requires |parts| > 0
    requires Walk(Defined(t), parts).Defined? && Walk(Defined(t), parts).value.Node?
    ensures Writable(t, parts)
    decreases |parts|
  {
    forall k | 0 < k < |parts|
      ensures NodeOrFalsy(Walk(Defined(t), parts[..k]))
    {
      AncestorOfNode(Defined(t), parts, k);
    }
    AncestorOfNode(Defined(t), parts, 0);
    assert parts[..0] == [];
  }

  /** Only an object has an object below it. */
  lemma {:induction false} AncestorOfNode(cur: Read, parts: seq<string>, k: nat)
    requires k < |parts|
    requires Walk(cur, parts).Defined? && Walk(cur, parts).value.Node?
    ensures Walk(cur, parts[..k]).Defined? && Walk(cur, parts[..k]).value.Node?
    decreases |parts|
  {
    assert Truthy(cur);
    if !cur.value.Node? {
      PrimitiveHasNoNodeBelow(cur.value, parts);
    } else if k > 0 {
      AncestorOfNode(Property(cur.value, parts[0]), parts[1..], k - 1);
      assert parts[..k][1..] == parts[1..][..k - 1];
    }
  }

  /** Below a primitive no read is an object. */
  lemma {:induction false} PrimitiveHasNoNodeBelow(v: Value, parts: seq<string>)
    requires !v.Node? && |parts| > 0
    ensures !(Walk(Defined(v), parts).Defined? && Walk(Defined(v), parts).value.Node?)
    decreases |parts|
  {
    if Truthy(Defined(v)) && |parts| > 1 {
      var p := Property(v, parts[0]);
      if Truthy(p) {
        PrimitiveHasNoNodeBelow(p.value, parts[1..]);
      }
    }
  }

  /* ---------------------------------------------------------------------
     pushPath
     --------------------------------------------------------------------- */

  /** `pushPath(tree, path, v)` with the generated id passed in. The parent is
      the existing value, or `{}` when that is falsy; assigning into a
      primitive parent throws. With no segments the parent is the root
      itself, which then gets assigned to its own "undefined" key, and the
      circular tree cannot be serialised. */
  function PushPath(root: Value, parts: seq<string>, id: string, v: Value): (r: Result<Value>)
  {
    var existing := Walk(Defined(root), parts);
    var parent := if Truthy(existing) then existing.value else EmptyNode;
    if !parent.Node? then Err(PrimitiveTarget)
    else if |parts| == 0 && Truthy(existing) then Err(CircularSnapshot)
    else SetPath(root, parts, Node(parent.children[id := v]))
  }

  /** pushPath at a non-empty path succeeds exactly when setPath can write
      there and the existing value is an object or falsy; the object at the
      path then maps the id to the value and keeps every other entry. */
  lemma PushSpec(root: Value, parts: seq<string>, id: string, v: Value)
    requires |parts| > 0
    ensures var before := Walk(Defined(root), parts);
            PushPath(root, parts, id, v).Ok? <==> Writable(root, parts) && NodeOrFalsy(before)
    ensures var before := Walk(Defined(root), parts);
            PushPath(root, parts, id, v).Ok? ==>
              var after := Walk(Defined(PushPath(root, parts, id, v).value), parts);
              && after.Defined? && after.value.Node?
              && id in after.value.children && after.value.children[id] == v
              && (forall k :: k != id ==>
                    (k in after.value.children <==> before.Defined? && before.value.Node? && k in before.value.children))
              && (forall k :: k != id && k in after.value.children ==> after.value.children[k] == before.value.children[k])
  {
    var existing := Walk(Defined(root), parts);
    var parent := if Truthy(existing) then existing.value else EmptyNode;
    if parent.Node? {
      WriteAtSpec(root, parts, Node(parent.children[id := v]));
    }
  }

  /** pushPath with no segments always throws. */
  lemma PushAtRootFails(root: Value, parts: seq<string>, id: string, v: Value)
    requires |parts| == 0
    ensures PushPath(root, parts, id, v).Err?
    ensures root.Node? ==> PushPath(root, parts, id, v) == Err(CircularSnapshot)
  {
  }
}
