/** Path strings and the segment sequences the store walks.

  Every path helper turns its path string into segments the same way: split
  on '/' exactly as `String.prototype.split('/')` does, then keep only the
  non-empty pieces. Leading, trailing and repeated slashes therefore vanish.
 */
module Paths {

  /** `s.split('/')`: the maximal slash-free pieces, one more than there are
      slashes, empty pieces included. */
  function Split(s: string): (parts: seq<string>)
    ensures |parts| == SlashCount(s) + 1
    ensures forall i :: 0 <= i < |parts| ==> '/' !in parts[i]
    decreases |s|
  {
    if |s| == 0 then [""]
    else
      var rest := Split(s[1..]);
      if s[0] == '/' then [""] + rest
      else [[s[0]] + rest[0]] + rest[1..]
  }

  function SlashCount(s: string): (n: nat)
    decreases |s|
  {
    if |s| == 0 then 0 else (if s[0] == '/' then 1 else 0) + SlashCount(s[1..])
  }

  /** `parts.filter(Boolean)`: drops the empty pieces, keeps the order. */
  function KeepNonEmpty(parts: seq<string>): (r: seq<string>)
    ensures |r| <= |parts|
    ensures forall i :: 0 <= i < |r| ==> r[i] != []
    ensures forall x :: x in r <==> x in parts && x != []
    decreases |parts|
  {
    if |parts| == 0 then []
    else (if parts[0] == [] then [] else [parts[0]]) + KeepNonEmpty(parts[1..])
  }

  /** The filter keeps every non-empty piece as often as it occurs. */
  lemma {:induction false} KeepNonEmptyCounts(parts: seq<string>)
    ensures multiset(KeepNonEmpty(parts)) == multiset(parts)[[] := 0]
    decreases |parts|
  {
    if |parts| > 0 {
      KeepNonEmptyCounts(parts[1..]);
      assert parts == [parts[0]] + parts[1..];
    }
  }

  /** The segments a path string addresses. */
  function Segments(path: string): (r: seq<string>)
    ensures forall i :: 0 <= i < |r| ==> r[i] != [] && '/' !in r[i]
  {
    var parts := Split(path);
    assert forall x :: x in parts ==> '/' !in x;
    KeepNonEmpty(parts)
  }

  /** Segments joined by single slashes. */
  function Join(segs: seq<string>): (s: string)
    decreases |segs|
  {
    if |segs| == 0 then ""
    else if |segs| == 1 then segs[0]
    else segs[0] + "/" + Join(segs[1..])
  }

  /** A segment as the store can produce it. */
  predicate IsSegment(x: string)
  {
    x != [] && '/' !in x
  }

  /** Splitting loses nothing: rejoining the pieces gives back the string. */
  lemma {:induction false} JoinSplit(s: string)
    ensures Join(Split(s)) == s
    decreases |s|
  {
    if |s| > 0 {
      var rest := Split(s[1..]);
      JoinSplit(s[1..]);
      if s[0] == '/' {
        assert Split(s) == [""] + rest;
        assert ([""] + rest)[1..] == rest;
      } else if |rest| == 1 {
        assert Split(s) == [[s[0]] + rest[0]];
      } else {
        var parts := [[s[0]] + rest[0]] + rest[1..];
        assert Split(s) == parts;
        assert parts[1..] == rest[1..];
        assert Join(rest) == rest[0] + "/" + Join(rest[1..]);
      }
    }
  }

  /** A slash splits its two sides independently. */
  lemma {:induction false} SplitAround(a: string, b: string)
    ensures Split(a + "/" + b) == Split(a) + Split(b)
    decreases |a|
  {
    var s := a + "/" + b;
    if |a| == 0 {
      assert s == "/" + b;
      assert s[1..] == b;
    } else {
      assert s[0] == a[0];
      assert s[1..] == a[1..] + "/" + b;
      SplitAround(a[1..], b);
      var rest := Split(a[1..]);
      var whole := Split(s[1..]);
      assert whole == rest + Split(b);
      if a[0] == '/' {
        assert Split(s) == [""] + whole;
        assert Split(a) == [""] + rest;
      } else {
        assert whole[0] == rest[0];
        assert whole[1..] == rest[1..] + Split(b);
        assert Split(s) == [[a[0]] + whole[0]] + whole[1..];
        assert Split(a) == [[a[0]] + rest[0]] + rest[1..];
      }
    }
  }

  /** The filter works piece by piece: it keeps the survivors' order. */
  lemma {:induction false} KeepNonEmptyAppend(x: seq<string>, y: seq<string>)
    ensures KeepNonEmpty(x + y) == KeepNonEmpty(x) + KeepNonEmpty(y)
    decreases |x|
  {
    if |x| > 0 {
      assert (x + y)[0] == x[0];
      assert (x + y)[1..] == x[1..] + y;
      KeepNonEmptyAppend(x[1..], y);
    } else {
      assert x + y == y;
    }
  }

  /** The segments of `a/b` are those of `a` followed by those of `b`. */
  lemma SegmentsAround(a: string, b: string)
    ensures Segments(a + "/" + b) == Segments(a) + Segments(b)
  {
    SplitAround(a, b);
    KeepNonEmptyAppend(Split(a), Split(b));
  }

  /** Leading, trailing and doubled slashes do not change the segments. */
  lemma SlashesCollapse(a: string, b: string)
    ensures Segments("/" + a) == Segments(a)
    ensures Segments(a + "/") == Segments(a)
    ensures Segments(a + "//" + b) == Segments(a + "/" + b)
  {
    SegmentsAround("", a);
    assert "" + "/" + a == "/" + a;
    SegmentsAround(a, "");
    assert a + "/" + "" == a + "/";
    SegmentsAround(a, "/" + b);
    assert a + "/" + ("/" + b) == a + "//" + b;
    SegmentsAround("", b);
    assert "" + "/" + b == "/" + b;
    SegmentsAround(a, b);
  }

  lemma {:induction false} SplitSlashFree(x: string)
    requires '/' !in x
    ensures Split(x) == [x]
    decreases |x|
  {
    if |x| > 0 {
      assert x[0] in x;
      assert forall c :: c in x[1..] ==> c in x;
      SplitSlashFree(x[1..]);
      assert [x[0]] + x[1..] == x;
    }
  }

  /** A string of slashes only, the empty string included, has no segments:
      it addresses the root. */
  lemma {:induction false} OnlySlashes(s: string)
    requires forall i :: 0 <= i < |s| ==> s[i] == '/'
    ensures Segments(s) == []
    decreases |s|
  {
    if |s| > 0 {
      OnlySlashes(s[1..]);
      assert s == "" + "/" + s[1..];
      SegmentsAround("", s[1..]);
    }
  }

  /** Joining proper segments and parsing the result gives them back. */
  lemma {:induction false} SegmentsOfJoin(segs: seq<string>)
    requires forall i :: 0 <= i < |segs| ==> IsSegment(segs[i])
    ensures Segments(Join(segs)) == segs
    decreases |segs|
  {
    if |segs| == 1 {
      SplitSlashFree(segs[0]);
    } else if |segs| > 1 {
      SegmentsOfJoin(segs[1..]);
      SegmentsAround(segs[0], Join(segs[1..]));
      SplitSlashFree(segs[0]);
      assert segs == [segs[0]] + segs[1..];
    }
  }
}
