/** data.c and checks.c: property values with markers, and the expansion of path references. */
module Data {
  import opened Bytes

  datatype MarkerType = REF_PHANDLE | REF_PATH | LABEL | TYPE_NONE | TYPE_UINT32 | TYPE_STRING

  datatype Marker = Marker(offset: nat, kind: MarkerType, ref: seq<byte>)

  /** struct data as a value. */
  datatype Value = Value(val: seq<byte>, marks: seq<Marker>)

  /** Markers are in order and in bounds. */
  predicate Sorted(v: Value) {
    (forall i | 0 <= i < |v.marks| :: v.marks[i].offset <= |v.val|) &&
    (forall i, j | 0 <= i <= j < |v.marks| :: v.marks[i].offset <= v.marks[j].offset)
  }

  function Shifted(m: Marker, n: nat): Marker { m.(offset := m.offset + n) }

  // ---- the operations ----

  function AppendData(v: Value, p: seq<byte>): Value { v.(val := v.val + p) }

  function AddMarker(v: Value, kind: MarkerType,
    ref: seq<byte>): Value { v.(marks := v.marks + [Marker(|v.val|, kind, ref)]) }

  /** data_merge. */
  function Merge(v: Value, w: Value): Value {
    Value(v.val + w.val, v.marks + seq(|w.marks|, i requires 0 <= i < |w.marks| => Shifted(w.marks[i], |v.val|)))
  }

  /** data_insert_at_marker: markers later in the list move, the marker itself does not. */
  function InsertAt(v: Value, k: nat, p: seq<byte>): Value
    requires k < |v.marks| && v.marks[k].offset <= |v.val|
  {
    var o := v.marks[k].offset;
    Value(v.val[..o] + p + v.val[o..],
      seq(|v.marks|, i requires 0 <= i < |v.marks| => if i <= k then v.marks[i] else Shifted(v.marks[i], |p|)))
  }

  /** Every operation keeps markers in order and in bounds. */
  lemma {:induction false} KeepSorted(v: Value, w: Value, p: seq<byte>, kind: MarkerType, ref: seq<byte>, k: nat)
    requires Sorted(v) && Sorted(w)
    ensures Sorted(AppendData(v, p)) && Sorted(AddMarker(v, kind, ref)) && Sorted(Merge(v, w)) &&
            (k < |v.marks| ==> Sorted(InsertAt(v, k, p)))
  {
    MergeSorted(v, w);
    if k < |v.marks| {
      InsertSorted(v, k, p);
    }
  }

  lemma {:induction false} MergeSorted(v: Value, w: Value)
    requires Sorted(v) && Sorted(w)
    ensures Sorted(Merge(v, w))
  {
    var m, n := Merge(v, w), |v.marks|;
    assert forall i | 0 <= i < |w.marks| :: m.marks[n + i] == Shifted(w.marks[i], |v.val|);
    forall i | 0 <= i < |m.marks| ensures m.marks[i].offset <= |m.val| &&
      (i >= n ==> m.marks[i] == Shifted(w.marks[i - n], |v.val|)) {
    }
  }

  /** After a merge every marker points at the bytes it pointed at: those of v have kept their places,
      and those of w have moved with the bytes of w. */
  lemma {:induction false} MergePoints(v: Value, w: Value, i: nat)
    requires Sorted(v) && Sorted(w)
    ensures var m, n := Merge(v, w), |v.marks|;
            |m.marks| == n + |w.marks| && m.marks[..n] == v.marks && m.val[..|v.val|] == v.val &&
            (i < |w.marks| ==>
               m.marks[n + i].kind == w.marks[i].kind && m.marks[n + i].ref == w.marks[i].ref &&
               m.marks[n + i].offset <= |m.val| &&
               m.val[m.marks[n + i].offset..] == w.val[w.marks[i].offset..])
  {
    var m := Merge(v, w);
    if i < |w.marks| {
      assert m.marks[|v.marks| + i] == Shifted(w.marks[i], |v.val|);
    }
  }

  lemma {:induction false} InsertSorted(v: Value, k: nat, p: seq<byte>)
    requires Sorted(v) && k < |v.marks|
    ensures Sorted(InsertAt(v, k, p))
  {
  }

  // ---- fixup_path_references ----

  /** The path inserted at each marker, empty where none is: `paths` gives, for every REF_PATH
      marker whose reference resolves, the target's full path with its NUL. */
  ghost predicate Plan(v: Value, paths: seq<seq<byte>>) {
    |paths| == |v.marks| && forall i | 0 <= i < |paths| :: v.marks[i].kind != REF_PATH ==> paths[i] == []
  }

  /** The loop of fixup_path_references from marker k on. */
  function Expand(v: Value, paths: seq<seq<byte>>, k: nat): (r: Value)
    requires |paths| == |v.marks| && k <= |v.marks| && Sorted(v)
    ensures |r.marks| == |v.marks|
    decreases |v.marks| - k
  {
    if k == |v.marks| then v
    else
      KeepSorted(v, v, paths[k], REF_PATH, [], k);
      Expand(InsertAt(v, k, paths[k]), paths, k + 1)
  }

  /** Total length of the first k paths. */
  function Total(paths: seq<seq<byte>>, k: nat): nat
    requires k <= |paths|
  {
    if k == 0 then 0 else Total(paths, k - 1) + |paths[k - 1]|
  }

  /** Offset of the marker before the k-th. */
  function Before(v: Value, k: nat): nat
    requires k <= |v.marks|
  {
    if k == 0 then 0 else v.marks[k - 1].offset
  }

  /** All paths spliced in at once, up to and with that of marker k - 1. */
  function Woven(v: Value, paths: seq<seq<byte>>, k: nat): (r: seq<byte>)
    requires |paths| == |v.marks| && k <= |v.marks| && Sorted(v)
    ensures |r| == Before(v, k) + Total(paths, k)
  {
    if k == 0 then [] else Woven(v, paths, k - 1) + v.val[Before(v, k - 1)..Before(v, k)] + paths[k - 1]
  }

  /** The simultaneous splice, cut short after k markers: marker i has moved by the paths
      inserted at markers before it. */
  function Spliced(v: Value, paths: seq<seq<byte>>, k: nat): Value
    requires |paths| == |v.marks| && k <= |v.marks| && Sorted(v)
  {
    Value(Woven(v, paths, k) + v.val[Before(v, k)..],
          seq(|v.marks|, i requires 0 <= i < |v.marks| => Shifted(v.marks[i], Total(paths, if i < k then i else k))))
  }

  lemma {:induction false} TotalMonotone(paths: seq<seq<byte>>, i: nat, j: nat)
    requires i <= j <= |paths|
    ensures Total(paths, i) <= Total(paths, j)
    decreases j - i
  {
    if i < j {
      TotalMonotone(paths, i, j - 1);
    }
  }

  lemma {:induction false} SplicedSorted(v: Value, paths: seq<seq<byte>>, k: nat)
    requires |paths| == |v.marks| && k <= |v.marks| && Sorted(v)
    ensures Sorted(Spliced(v, paths, k))
  {
    var w := Spliced(v, paths, k);
    assert |w.val| == |v.val| + Total(paths, k);
    forall i, j | 0 <= i <= j < |v.marks| ensures w.marks[i].offset <= w.marks[j].offset {
      TotalMonotone(paths, if i < k then i else k, if j < k then j else k);
    }
    forall i | 0 <= i < |v.marks| ensures w.marks[i].offset <= |w.val| {
      TotalMonotone(paths, if i < k then i else k, k);
    }
  }

  /** One insertion takes the splice of k markers to the splice of k + 1. */
  lemma {:induction false} SpliceOne(v: Value, paths: seq<seq<byte>>, k: nat)
    requires |paths| == |v.marks| && k < |v.marks| && Sorted(v)
    ensures var w := Spliced(v, paths, k);
            w.marks[k].offset <= |w.val| && InsertAt(w, k, paths[k]) == Spliced(v, paths, k + 1)
  {
    SplicedSorted(v, paths, k);
    var w := Spliced(v, paths, k);
    var a, o := Before(v, k), v.marks[k].offset;
    SpliceBytes(Woven(v, paths, k), v.val, a, o, paths[k], w.marks[k].offset);
    var x, y := InsertAt(w, k, paths[k]).marks, Spliced(v, paths, k + 1).marks;
    assert forall i | 0 <= i < |x| :: x[i] == y[i];
  }

  lemma {:induction false} SpliceBytes(pre: seq<byte>, val: seq<byte>, a: nat, o: nat, p: seq<byte>, at: nat)
    requires a <= o <= |val| && at == |pre| + o - a
    ensures var s := pre + val[a..]; at <= |s| && s[..at] + p + s[at..] == pre + val[a..o] + p + val[o..]
  {
    var s := pre + val[a..];
    assert s[..at] == pre + val[a..o] && s[at..] == val[o..];
  }

  lemma {:induction false} ExpandFrom(v: Value, paths: seq<seq<byte>>, k: nat)
    requires |paths| == |v.marks| && k <= |v.marks| && Sorted(v)
    ensures Sorted(Spliced(v, paths, k)) && Expand(Spliced(v, paths, k), paths, k) == Spliced(v, paths, |v.marks|)
    decreases |v.marks| - k
  {
    SplicedSorted(v, paths, k);
    if k < |v.marks| {
      SpliceOne(v, paths, k);
      ExpandFrom(v, paths, k + 1);
    }
  }

  /** The main result: expanding the path references one after the other is one simultaneous
      splice of all paths at the original markers. */
  lemma {:induction false} ExpandIs(v: Value, paths: seq<seq<byte>>)
    requires Sorted(v) && |paths| == |v.marks|
    ensures Expand(v, paths, 0) == Spliced(v, paths, |v.marks|) && Sorted(Expand(v, paths, 0))
  {
    ExpandFrom(v, paths, 0);
    SplicedSorted(v, paths, |v.marks|);
    var w := Spliced(v, paths, 0);
    assert w.val == v.val;
    assert forall i | 0 <= i < |v.marks| :: w.marks[i] == v.marks[i];
    assert w == v;
  }

  lemma {:induction false} WovenPrefix(v: Value, paths: seq<seq<byte>>, k: nat, n: nat)
    requires Sorted(v) && |paths| == |v.marks| && k <= n <= |v.marks|
    ensures |Woven(v, paths, k)| <= |Woven(v, paths, n)| &&
            Woven(v, paths, n)[..|Woven(v, paths, k)|] == Woven(v, paths, k)
    decreases n - k
  {
    if k < n {
      WovenPrefix(v, paths, k, n - 1);
    }
  }

  /** So every marker still points at the bytes it pointed at: behind marker i, and behind the
      path inserted there, stand the original bytes up to the next marker. */
  lemma {:induction false} MarkersPoint(v: Value, paths: seq<seq<byte>>, i: nat)
    requires Sorted(v) && |paths| == |v.marks| && i < |v.marks|
    ensures var w := Expand(v, paths, 0);
            var o := w.marks[i].offset;
            |w.marks| == |v.marks| && o + |paths[i]| <= |w.val| && w.val[o..o + |paths[i]|] == paths[i] &&
            (i + 1 < |v.marks| ==>
               o + |paths[i]| <= w.marks[i + 1].offset <= |w.val| &&
               w.val[o + |paths[i]|..w.marks[i + 1].offset] == v.val[v.marks[i].offset..v.marks[i + 1].offset])
  {
    ExpandIs(v, paths);
    PathStands(v, paths, i, Spliced(v, paths, |v.marks|).val);
    if i + 1 < |v.marks| {
      GapStands(v, paths, i, Spliced(v, paths, |v.marks|).val);
    }
  }

  lemma {:induction false} PathStands(v: Value, paths: seq<seq<byte>>, i: nat, val: seq<byte>)
    requires Sorted(v) && |paths| == |v.marks| && i < |v.marks| && val == Spliced(v, paths, |v.marks|).val
    ensures var o := v.marks[i].offset + Total(paths, i); o + |paths[i]| <= |val| && val[o..o + |paths[i]|] == paths[i]
  {
    var n, x := |v.marks|, Woven(v, paths, i + 1);
    WovenPrefix(v, paths, i + 1, n);
    PrefixBytes(x, Woven(v, paths, n), v.val[Before(v, n)..], val);
    var pre := Woven(v, paths, i) + v.val[Before(v, i)..Before(v, i + 1)];
    assert x == pre + paths[i] + [];
    Middle(val, x, pre, paths[i], []);
  }

  lemma {:induction false} GapStands(v: Value, paths: seq<seq<byte>>, i: nat, val: seq<byte>)
    requires Sorted(v) && |paths| == |v.marks| && i + 1 < |v.marks| && val == Spliced(v, paths, |v.marks|).val
    ensures var a, b := v.marks[i].offset, v.marks[i + 1].offset;
            var o := a + Total(paths, i + 1);
            o + b - a <= |val| && val[o..o + b - a] == v.val[a..b]
  {
    var n, x := |v.marks|, Woven(v, paths, i + 2);
    var pre, mid := Woven(v, paths, i + 1), v.val[v.marks[i].offset..v.marks[i + 1].offset];
    WovenPrefix(v, paths, i + 2, n);
    PrefixBytes(x, Woven(v, paths, n), v.val[Before(v, n)..], val);
    assert x == pre + mid + paths[i + 1];
    Middle(val, x, pre, mid, paths[i + 1]);
  }

  lemma {:induction false} Middle(val: seq<byte>, x: seq<byte>, pre: seq<byte>, mid: seq<byte>, post: seq<byte>)
    requires |x| <= |val| && val[0..|x|] == x && x == pre + mid + post
    ensures |pre| + |mid| <= |val| && val[|pre|..|pre| + |mid|] == mid
  {
    assert x[|pre|..|pre| + |mid|] == mid;
    SliceSlice(val, 0, |x|, |pre|, |pre| + |mid|);
  }

  lemma {:induction false} PrefixBytes(x: seq<byte>, y: seq<byte>, z: seq<byte>, w: seq<byte>)
    requires |x| <= |y| && y[..|x|] == x && w == y + z
    ensures |x| <= |w| && w[0..|x|] == x
  {
    assert w[0..|x|] == y[..|x|];
  }

  // ---- in place ----

  /** struct data with its buffer and its marker list. */
  class PropData {
    var val: seq<byte>
    var marks: seq<Marker>

    ghost function Now(): Value
      reads this
    {
      Value(val, marks)
    }

    constructor ()
      ensures Now() == Value([], []) && Sorted(Now())
    {
      val, marks := [], [];
    }

    /** data_append_data. */
    method Append(p: seq<byte>)
      requires Sorted(Now())
      modifies this
      ensures Now() == AppendData(old(Now()), p) && Sorted(Now())
    {
      val := val + p;
    }

    /** data_add_marker. */
    method Mark(kind: MarkerType, ref: seq<byte>)
      requires Sorted(Now())
      modifies this
      ensures Now() == AddMarker(old(Now()), kind, ref) && Sorted(Now())
    {
      marks := marks + [Marker(|val|, kind, ref)];
    }

    /** data_insert_at_marker. */
    method InsertAtMarker(k: nat, p: seq<byte>)
      requires Sorted(Now()) && k < |marks|
      modifies this
      ensures Now() == InsertAt(old(Now()), k, p) && Sorted(Now())
    {
      KeepSorted(Now(), Now(), p, REF_PATH, [], k);
      var o := marks[k].offset;
      val := val[..o] + p + val[o..];
      var i := k + 1;
      while i < |marks|
        invariant k < i <= |marks| == |old(marks)|
        invariant forall j | 0 <= j < |marks| :: marks[j] == if k < j < i then Shifted(old(marks)[j], |p|)
                  else old(marks)[j]
        invariant val == old(val)[..o] + p + old(val)[o..]
      {
        marks := marks[i := Shifted(marks[i], |p|)];
        i := i + 1;
      }
      assert marks == InsertAt(old(Now()), k, p).marks;
    }

    /** data_merge. */
    method MergeIn(w: PropData)
      requires Sorted(Now()) && Sorted(w.Now()) && w != this
      modifies this
      ensures Now() == Merge(old(Now()), old(w.Now())) && Sorted(Now())
    {
      KeepSorted(Now(), w.Now(), [], REF_PATH, [], 0);
      var ms := w.marks;
      var n := |val|;
      var i := 0;
      while i < |ms|
        invariant i <= |ms| == |w.marks|
        invariant forall j | 0 <= j < |ms| :: ms[j] == if j < i then Shifted(w.marks[j], n) else w.marks[j]
      {
        ms := ms[i := Shifted(ms[i], n)];
        i := i + 1;
      }
      val, marks := val + w.val, marks + ms;
      assert marks == Merge(old(Now()), old(w.Now())).marks;
    }

    /** The loop of fixup_path_references over the markers of one property. */
    method ExpandPaths(paths: seq<seq<byte>>)
      requires Sorted(Now()) && Plan(Now(), paths)
      modifies this
      ensures Now() == Expand(old(Now()), paths, 0) && Sorted(Now())
    {
      var k := 0;
      while k < |marks|
        invariant k <= |marks| == |paths| && Sorted(Now())
        invariant Expand(old(Now()), paths, 0) == Expand(Now(), paths, k)
        decreases |paths| - k
      {
        InsertAtMarker(k, paths[k]);
        k := k + 1;
      }
    }
  }
}
