/** util.c, dtc.c and checks.c: the full paths of nodes, and the expansion of path references. */
module LivePaths {
  import opened Bytes
  import opened LivePhandles
  import opened Data

  // ---- fill_fullpaths ----

  /** join_path. */
  function JoinPath(path: seq<byte>, name: seq<byte>): seq<byte> {
    (if path != [] && path[|path| - 1] == SLASH then path else path + [SLASH]) + name
  }

  /** The full paths of the nodes, in the order of Ids. */
  function FullPaths(s: Shape, prefix: seq<byte>): (ps: seq<seq<byte>>)
    ensures |ps| == |Ids(s)|
    decreases s, 1
  {
    [JoinPath(prefix, s.name)] + FullPathsOf(s.kids, JoinPath(prefix, s.name))
  }

  function FullPathsOf(ss: seq<Shape>, prefix: seq<byte>): (ps: seq<seq<byte>>)
    ensures |ps| == |IdsOf(ss)|
    decreases ss, 0
  {
    if ss == [] then [] else FullPaths(ss[0], prefix) + FullPathsOf(ss[1..], prefix)
  }

  function Index(ids: seq<nat>, id: nat): (i: nat)
    requires id in ids
    ensures i < |ids| && ids[i] == id && id !in ids[..i]
  {
    if ids[0] == id then 0
    else
      assert ids[..Index(ids[1..], id) + 1] == [ids[0]] + ids[1..][..Index(ids[1..], id)];
      Index(ids[1..], id) + 1
  }

  /** fullpath of the node with that number; the prefix of the root is empty. */
  function FullPath(s: Shape, id: nat): seq<byte>
    requires id in Ids(s)
  {
    FullPaths(s, [])[Index(Ids(s), id)]
  }

  // ---- what the full path of a node is ----

  /** "/" and the names, with a slash between them. */
  function Joined(names: seq<seq<byte>>): seq<byte> {
    if names == [] then [SLASH]
    else if |names| == 1 then [SLASH] + names[0]
    else [SLASH] + names[0] + Joined(names[1..])
  }

  /** Names below the node are not empty and free of slashes, as the grammar has them, and siblings have
      different names, as the check duplicate_node_names demands. */
  predicate Plain(s: Shape)
    decreases s, 1
  {
    PlainAll(s.kids)
  }

  predicate PlainAll(ss: seq<Shape>)
    decreases ss, 0
  {
    (forall i | 0 <= i < |ss| :: ss[i].name != [] && SLASH !in ss[i].name && Plain(ss[i])) &&
    forall i, j | 0 <= i < j < |ss| :: ss[i].name != ss[j].name
  }

  /** The names on the way to a node. */
  function Way(s: Shape, p: seq<nat>): (names: seq<seq<byte>>)
    requires At(s, p).Some?
    ensures |names| == |p|
    decreases |p|
  {
    if p == [] then [] else [s.kids[p[0]].name] + Way(s.kids[p[0]], p[1..])
  }

  lemma {:induction false} WayAlong(s: Shape, p: seq<nat>)
    requires Plain(s) && At(s, p).Some?
    ensures Along(s, p, Way(s, p))
    decreases |p|
  {
    if p != [] {
      WayAlong(s.kids[p[0]], p[1..]);
      assert Way(s, p)[1..] == Way(s.kids[p[0]], p[1..]);
    }
  }

  /** The text of a path that starts at a node whose own path is `prefix`. */
  function Below(prefix: seq<byte>, names: seq<seq<byte>>): seq<byte>
    decreases |names|
  {
    if names == [] then prefix else Below(JoinPath(prefix, names[0]), names[1..])
  }

  /** Every node has a path of child indices, and its full path is that of the names on the way. */
  lemma {:induction false} HasPath(s: Shape, prefix: seq<byte>, k: nat) returns (p: seq<nat>)
    requires k < |Ids(s)|
    ensures At(s, p).Some? && At(s, p).value.id == Ids(s)[k]
    ensures FullPaths(s, prefix)[k] == Below(JoinPath(prefix, s.name), Way(s, p))
    decreases s, 1
  {
    p := [];
    if k > 0 {
      p := HasPathOf(s.kids, JoinPath(prefix, s.name), k - 1);
      var names := Way(s, p);
      assert names[0] == s.kids[p[0]].name && names[1..] == Way(s.kids[p[0]], p[1..]);
    }
  }

  lemma {:induction false} HasPathOf(ss: seq<Shape>, prefix: seq<byte>, k: nat) returns (p: seq<nat>)
    requires k < |IdsOf(ss)|
    ensures p != [] && p[0] < |ss| && At(ss[p[0]], p[1..]).Some? && At(ss[p[0]], p[1..]).value.id == IdsOf(ss)[k]
    ensures FullPathsOf(ss, prefix)[k] == Below(JoinPath(prefix, ss[p[0]].name), Way(ss[p[0]], p[1..]))
    decreases ss, 0
  {
    var n := |Ids(ss[0])|;
    if k < n {
      var q := HasPath(ss[0], prefix, k);
      p := [0] + q;
      assert p[1..] == q;
    } else {
      var q := HasPathOf(ss[1..], prefix, k - n);
      p := [q[0] + 1] + q[1..];
      assert p[1..] == q[1..] && ss[p[0]] == ss[1..][q[0]];
    }
  }

  lemma {:induction false} WayNames(s: Shape, p: seq<nat>)
    requires Plain(s) && At(s, p).Some?
    ensures forall i | 0 <= i < |p| :: Way(s, p)[i] != [] && SLASH !in Way(s, p)[i]
    decreases |p|
  {
    if p != [] {
      WayNames(s.kids[p[0]], p[1..]);
      assert Way(s, p)[1..] == Way(s.kids[p[0]], p[1..]);
      forall i | 0 <= i < |p| ensures Way(s, p)[i] != [] && SLASH !in Way(s, p)[i] {
        if i > 0 {
          assert Way(s, p)[i] == Way(s.kids[p[0]], p[1..])[i - 1];
        }
      }
    }
  }

  predicate Proper(names: seq<seq<byte>>) { forall i | 0 <= i < |names| :: names[i] != [] && SLASH !in names[i] }

  /** From a path that does not end in a slash. */
  lemma {:induction false} BelowIs(prefix: seq<byte>, names: seq<seq<byte>>)
    requires Proper(names) && prefix != [] && prefix[|prefix| - 1] != SLASH && names != []
    ensures Below(prefix, names) == prefix + Joined(names)
    decreases |names|
  {
    ProperParts(names);
    var next := JoinPath(prefix, names[0]);
    assert next == prefix + ([SLASH] + names[0]);
    if |names| > 1 {
      BelowIs(next, names[1..]);
      Regroup(prefix, [SLASH] + names[0], Joined(names[1..]));
    } else {
      assert names[1..] == [];
    }
  }

  lemma {:induction false} ProperParts(names: seq<seq<byte>>)
    requires Proper(names) && names != []
    ensures names[0] != [] && names[0][|names[0]| - 1] != SLASH && Proper(names[1..])
  {
    assert names[0][|names[0]| - 1] in names[0];
    assert forall i | 0 <= i < |names| - 1 :: names[1..][i] == names[i + 1];
  }

  lemma {:induction false} Regroup(a: seq<byte>, b: seq<byte>, c: seq<byte>)
    ensures a + b + c == a + (b + c)
  {
  }

  /** From the root. */
  lemma {:induction false} BelowRoot(names: seq<seq<byte>>)
    requires Proper(names)
    ensures Below([SLASH], names) == Joined(names)
  {
    if names != [] {
      var next := JoinPath([SLASH], names[0]);
      assert next == [SLASH] + names[0];
      ProperParts(names);
      if |names| > 1 {
        BelowIs(next, names[1..]);
      } else {
        assert names[1..] == [];
      }
    }
  }

  lemma {:induction false} JoinedSpelled(names: seq<seq<byte>>)
    requires Proper(names) && names != []
    ensures Joined(names) != [] && Joined(names)[0] == SLASH && Spelled(Joined(names), names) &&
            Spelled(Joined(names)[1..], names)
    decreases |names|
  {
    var path, name := Joined(names), names[0];
    if |names| > 1 {
      assert forall i | 0 <= i < |names| - 1 :: names[1..][i] == names[i + 1];
      JoinedSpelled(names[1..]);
      assert path[1 + |name|..] == Joined(names[1..]);
      assert path[1 + |name|] == Joined(names[1..])[0];
      assert path[1 + |name| + 1..] == Joined(names[1..])[1..];
      assert path[1..][|name| + 1..] == path[1 + |name| + 1..];
    }
    assert path[1..1 + |name|] == name && path[1..][0..|name|] == name;
    assert SpelledFrom(path, names, 1);
    assert SpelledFrom(path[1..], names, 0);
  }

  /** The full path of a node, given as a reference, means that node, and is all its names. */
  lemma {:induction false} FullPathMeans(s: Shape, id: nat)
    requires s.name == [] && Plain(s) && id in Ids(s)
    ensures Means(s, FullPath(s, id), id)
    ensures exists p :: At(s, p).Some? && At(s, p).value.id == id && FullPath(s, id) == Joined(Way(s, p))
  {
    var p := HasPath(s, [], Index(Ids(s), id));
    var names := Way(s, p);
    WayNames(s, p);
    WayAlong(s, p);
    assert JoinPath([], []) == [SLASH];
    BelowRoot(names);
    if p != [] {
      JoinedSpelled(names);
      assert names[0] != [] && Joined(names) != [SLASH] by { assert |Joined(names)| > 1; }
    }
  }

  // ---- fixup_path_references ----

  /** What is inserted at each marker. */
  function Targets(s: Shape, ms: seq<Marker>): (ps: seq<seq<byte>>)
    ensures |ps| == |ms|
  {
    if ms == [] then [] else [TargetOf(s, ms[0])] + Targets(s, ms[1..])
  }

  function TargetOf(s: Shape, m: Marker): seq<byte> {
    if m.kind != REF_PATH || ByRef(s, m.ref).None? then []
    else
      ByRefInside(s, m.ref);
      FullPath(s, ByRef(s, m.ref).value) + [0]
  }

  lemma {:induction false} ByRefInside(s: Shape, target: seq<byte>)
    ensures ByRef(s, target).Some? ==> ByRef(s, target).value in Ids(s)
  {
    ByPathIs(s, target);
    ByLabelIs(s, target);
  }

  lemma {:induction false} TargetsAt(s: Shape, ms: seq<Marker>, i: nat)
    requires i < |ms|
    ensures Targets(s, ms)[i] == TargetOf(s, ms[i])
    decreases i
  {
    if i > 0 {
      TargetsAt(s, ms[1..], i - 1);
    }
  }

  lemma {:induction false} TargetMeans(s: Shape, m: Marker, id: nat)
    requires s.name == [] && Plain(s)
    ensures m.kind == REF_PATH && Means(s, m.ref, id) ==>
              id in Ids(s) && TargetOf(s, m) == FullPath(s, id) + [0] && Means(s, FullPath(s, id), id)
    ensures m.kind != REF_PATH || Dangling(s, m.ref) ==> TargetOf(s, m) == []
  {
    ByRefExact(s, m.ref);
    if m.kind == REF_PATH && Means(s, m.ref, id) {
      ByRefInside(s, m.ref);
      FullPathMeans(s, id);
    }
  }

  /** The main result on path references: in the end the value holds, at every marker of a path
      reference that means a node, the full path of that node with a NUL, and this path means that node
      again; behind it, and at all other markers, the bytes are those that were there. */
  lemma {:induction false} PathsExpanded(s: Shape, v: Value, i: nat, id: nat)
    requires s.name == [] && Plain(s) && Sorted(v) && i < |v.marks|
    ensures var w := Expand(v, Targets(s, v.marks), 0);
            var o := w.marks[i].offset;
            var text := Targets(s, v.marks)[i];
            o + |text| <= |w.val| && w.val[o..o + |text|] == text &&
            (v.marks[i].kind == REF_PATH && Means(s, v.marks[i].ref, id) ==>
               id in Ids(s) && text == FullPath(s, id) + [0] && Means(s, FullPath(s, id), id)) &&
            (v.marks[i].kind != REF_PATH || Dangling(s, v.marks[i].ref) ==> text == []) &&
            (i + 1 < |v.marks| ==>
               o + |text| <= w.marks[i + 1].offset <= |w.val| &&
               w.val[o + |text|..w.marks[i + 1].offset] == v.val[v.marks[i].offset..v.marks[i + 1].offset])
  {
    MarkersPoint(v, Targets(s, v.marks), i);
    TargetsAt(s, v.marks, i);
    TargetMeans(s, v.marks[i], id);
  }

  lemma {:induction false} InsertNothing(v: Value, k: nat)
    requires k < |v.marks| && v.marks[k].offset <= |v.val|
    ensures InsertAt(v, k, []) == v
  {
    var w := InsertAt(v, k, []);
    assert w.val == v.val;
    assert forall j | 0 <= j < |v.marks| :: w.marks[j] == v.marks[j];
    assert w.marks == v.marks;
  }

  ghost predicate Unresolved(s: Shape, ms: seq<Marker>) {
    exists k :: 0 <= k < |ms| && ms[k].kind == REF_PATH && Dangling(s, ms[k].ref)
  }

  lemma {:induction false} UnresolvedMore(s: Shape, ms: seq<Marker>, k: nat)
    requires k < |ms|
    ensures Unresolved(s, ms[..k + 1]) <==>
            Unresolved(s, ms[..k]) || (ms[k].kind == REF_PATH && Dangling(s, ms[k].ref))
  {
    var a, b := ms[..k], ms[..k + 1];
    assert forall j | 0 <= j < k :: a[j] == b[j];
    assert b[k] == ms[k];
  }

  /** fixup_path_references on one property; it fails iff a path reference means no node. */
  method FixPaths(s: Shape, d: PropData) returns (failed: bool)
    requires Sorted(d.Now())
    modifies d
    ensures d.Now() == Expand(old(d.Now()), Targets(s, old(d.marks)), 0) && Sorted(d.Now())
    ensures failed <==> Unresolved(s, old(d.marks))
  {
    ghost var paths := Targets(s, d.marks);
    ghost var ms := d.marks;
    failed := false;
    var k := 0;
    while k < |d.marks|
      invariant k <= |d.marks| == |ms| == |paths| && Sorted(d.Now()) && paths == Targets(s, ms)
      invariant forall j | 0 <= j < |ms| :: d.marks[j].kind == ms[j].kind && d.marks[j].ref == ms[j].ref
      invariant Expand(old(d.Now()), paths, 0) == Expand(d.Now(), paths, k)
      invariant failed <==> Unresolved(s, ms[..k])
      decreases |ms| - k
    {
      TargetsAt(s, ms, k);
      ByRefExact(s, ms[k].ref);
      ByRefInside(s, ms[k].ref);
      UnresolvedMore(s, ms, k);
      InsertNothing(d.Now(), k);
      if d.marks[k].kind == REF_PATH {
        var node := ByRef(s, d.marks[k].ref);
        if node.None? {
          failed := true;
        } else {
          d.InsertAtMarker(k, FullPath(s, node.value) + [0]);
        }
      }
      k := k + 1;
    }
    assert ms[..|ms|] == ms;
  }
}
