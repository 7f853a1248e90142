/** fdt_ro.c: the lookups by path and by phandle, on device trees and on blobs that hold them. */
module TreePaths {
  import opened Bytes
  import opened Syntax
  import opened DeviceTree
  import opened Fdt
  import opened Blob
  import opened Lookup
  import opened EditTheorems
  import opened Overlay
  import opened OverlayRefs
  import opened OverlayBlob
  import opened Paths

  const BADPATH: int := -5

  // ---- fdt_path_offset ----

  /** The loop of fdt_path_offset_namelen from index i on: the way down from the node t. */
  function TreeFrom(t: Tree, path: seq<byte>, i: nat): Option<seq<nat>>
    requires i <= |path|
    decreases |path| - i
  {
    var j := SkipSlashes(path, i);
    if j == |path| then Some([])
    else
      var q := NextSlash(path, j);
      var m := Match(t.kids, path[j..q]);
      if m.None? then None
      else
        var r := TreeFrom(t.kids[m.value], path, q);
        if r.None? then None else Some([m.value] + r.value)
  }

  /** fdt_path_offset in the tree t; paths that start with an alias are not modelled. */
  function FindPath(t: Tree, path: seq<byte>): Result<seq<nat>> {
    if path == [] || path[0] != SLASH then Err(BADPATH)
    else
      var r := TreeFrom(t, path, 0);
      if r.None? then Err(NOTFOUND) else Ok(r.value)
  }

  lemma {:induction false} TreeFromFollows(t: Tree, path: seq<byte>, i: nat)
    requires i <= |path| && TreeFrom(t, path, i).Some?
    ensures Follow(t, TreeFrom(t, path, i).value).Some?
    decreases |path| - i
  {
    var j := SkipSlashes(path, i);
    if j < |path| {
      var q := NextSlash(path, j);
      var m := Match(t.kids, path[j..q]).value;
      TreeFromFollows(t.kids[m], path, q);
      var r := TreeFrom(t.kids[m], path, q).value;
      assert ([m] + r)[1..] == r;
    }
  }

  /** A path lookup leads to a node. */
  lemma {:induction false} FindPathFollows(t: Tree, path: seq<byte>)
    requires FindPath(t, path).Ok?
    ensures Follow(t, FindPath(t, path).value).Some?
  {
    TreeFromFollows(t, path, 0);
  }

  /** On a blob, fdt_path_offset finds the node that the lookup in the tree finds, or none. */
  lemma {:induction false} PathFromTree(b: seq<byte>, t: Items, q: seq<nat>, path: seq<byte>, i: nat)
    requires Addresses(b, t, q) && i <= |path|
    ensures var r := TreeFrom(Get(Trees(b, t), q).value, path, i);
            PathFrom(b, path, i, NodeOffset(t, q)) == if r.Some? then NodeOffset(t, q + r.value) else NOTFOUND
    decreases |path| - i
  {
    var tree := Get(Trees(b, t), q).value;
    Located(b, t, q);
    var j := SkipSlashes(path, i);
    if j == |path| {
      assert q + [] == q;
    } else {
      var e := NextSlash(path, j);
      var m := Match(tree.kids, path[j..e]);
      SubnodeFound(b, t, q, path[j..e]);
      if m.Some? {
        ReplaceChild(Trees(b, t), q, m.value, tree);
        PathFromTree(b, t, q + [m.value], path, e);
        var r := TreeFrom(tree.kids[m.value], path, e);
        if r.Some? {
          assert q + [m.value] + r.value == q + ([m.value] + r.value);
        }
      }
    }
  }

  lemma {:induction false} PathInTree(b: seq<byte>, t: Items, path: seq<byte>)
    requires Holds(b, t) && t.Node? && Trees(b, t) != [] && path != [] && path[0] == SLASH
    ensures var r := FindPath(Trees(b, t)[0], path);
            PathOffset(b, path) == if r.Ok? then NodeOffset(t, [0] + r.value) else NOTFOUND
  {
    assert Get(Trees(b, t), [0]) == Some(Trees(b, t)[0]);
    RwProbeDef(b);
    CtxSizeDef(Hole);
    Located(b, t, [0]);
    PathFromTree(b, t, [0], path, 0);
  }

  lemma {:induction false} TreeTurn(t: Tree, path: seq<byte>, i: nat, q: nat, m: nat)
    requires i <= |path| && SkipSlashes(path, i) < |path| && NextSlash(path, SkipSlashes(path, i)) == q
    requires Match(t.kids, path[SkipSlashes(path, i)..q]) == Some(m)
    ensures TreeFrom(t, path, i) == Under(m, TreeFrom(t.kids[m], path, q))
  {
  }

  function Under(m: nat, r: Option<seq<nat>>): Option<seq<nat>> { if r.None? then None else Some([m] + r.value) }

  /** The path of a node leads to it, if each name on the way is found first. */
  lemma {:induction false} TreeFromIs(t: Tree, p: seq<nat>, pre: seq<byte>)
    requires Resolvable(t, p)
    ensures NamesTo(t, p).Some? && TreeFrom(t, pre + PathText(NamesTo(t, p).value), |pre|) == Some(p)
    decreases |p|
  {
    if p == [] {
      assert pre + [] == pre;
      assert PathText([]) == [];
    } else {
      TreeFromIs(t.kids[p[0]], p[1..], pre + ([SLASH] + t.kids[p[0]].name));
      TreeFromKid(t, p, pre);
    }
  }

  lemma {:induction false} TreeFromKid(t: Tree, p: seq<nat>, pre: seq<byte>)
    requires Resolvable(t, p) && p != [] && NamesTo(t.kids[p[0]], p[1..]).Some?
    requires var pre' := pre + ([SLASH] + t.kids[p[0]].name);
             TreeFrom(t.kids[p[0]], pre' + PathText(NamesTo(t.kids[p[0]], p[1..]).value), |pre'|) == Some(p[1..])
    ensures NamesTo(t, p).Some? && TreeFrom(t, pre + PathText(NamesTo(t, p).value), |pre|) == Some(p)
  {
    MatchSelf(t.kids, p[0]);
    TreeStep(t, p[0], t.kids[p[0]].name, pre, NamesTo(t.kids[p[0]], p[1..]).value, p[1..]);
    assert [p[0]] + p[1..] == p;
  }

  lemma {:induction false} TreeStep(t: Tree, i: nat, name: seq<byte>, pre: seq<byte>, ns: seq<seq<byte>>, q: seq<nat>)
    requires Match(t.kids, name) == Some(i) && name != [] && SLASH !in name
    requires var pre' := pre + ([SLASH] + name); TreeFrom(t.kids[i], pre' + PathText(ns), |pre'|) == Some(q)
    ensures TreeFrom(t, pre + PathText([name] + ns), |pre|) == Some([i] + q)
  {
    var rest := PathText(ns);
    var path := pre + ([SLASH] + name + rest);
    FirstName(name, ns);
    NextComponent(pre, name, rest);
    assert path == pre + ([SLASH] + name) + rest;
    TreeTurn(t, path, |pre|, |pre| + 1 + |name|, i);
  }

  lemma {:induction false} FirstName(name: seq<byte>, ns: seq<seq<byte>>)
    ensures PathText([name] + ns) == [SLASH] + name + PathText(ns)
    ensures PathText(ns) == [] || PathText(ns)[0] == SLASH
  {
    assert ([name] + ns)[1..] == ns;
  }

  lemma {:induction false} FindPathIs(t: Tree, p: seq<nat>)
    requires Resolvable(t, p)
    ensures NamesTo(t, p).Some? && FindPath(t, FullPath(NamesTo(t, p).value)) == Ok(p)
  {
    TreeFromIs(t, p, []);
    var text := PathText(NamesTo(t, p).value);
    assert [] + text == text;
  }

  /** No name on the way is empty or has a slash. */
  predicate ProperWay(t: Tree, p: seq<nat>)
    decreases |p|
  {
    p == [] ||
    (p[0] < |t.kids| && t.kids[p[0]].name != [] && SLASH !in t.kids[p[0]].name && ProperWay(t.kids[p[0]], p[1..]))
  }

  lemma {:induction false} ProperNames(t: Tree, p: seq<nat>)
    requires ProperWay(t, p)
    ensures NamesTo(t, p).Some? && |NamesTo(t, p).value| == |p|
    decreases |p|
  {
    if p != [] {
      ProperNames(t.kids[p[0]], p[1..]);
    }
  }

  lemma {:induction false} WayTurn(t: Tree, p: seq<nat>, pre: seq<byte>)
    requires ProperWay(t, p) && p != []
    ensures NamesTo(t, p).Some? && NamesTo(t.kids[p[0]], p[1..]).Some?
    ensures var name := t.kids[p[0]].name;
            var m, pre' := Match(t.kids, name), pre + ([SLASH] + name);
            TreeFrom(t, pre + PathText(NamesTo(t, p).value), |pre|) ==
            if m.None? then None
            else Under(m.value,
              TreeFrom(t.kids[m.value], pre' + PathText(NamesTo(t.kids[p[0]], p[1..]).value), |pre'|))
  {
    ProperNames(t, p);
    var name := t.kids[p[0]].name;
    var rest := NamesTo(t.kids[p[0]], p[1..]).value;
    FirstName(name, rest);
    NextComponent(pre, name, PathText(rest));
    assert pre + ([SLASH] + name + PathText(rest)) == pre + ([SLASH] + name) + PathText(rest);
    var m := Match(t.kids, name);
    if m.Some? {
      TreeTurn(t, pre + ([SLASH] + name + PathText(rest)), |pre|, |pre| + 1 + |name|, m.value);
    }
  }

  /** A name that an earlier sibling takes leads elsewhere. */
  lemma {:induction false} LeadsElsewhere(t: Tree, p: seq<nat>, pre: seq<byte>)
    requires ProperWay(t, p) && !Resolvable(t, p)
    ensures NamesTo(t, p).Some? && TreeFrom(t, pre + PathText(NamesTo(t, p).value), |pre|) != Some(p)
    decreases |p|
  {
    WayTurn(t, p, pre);
    var name := t.kids[p[0]].name;
    var pre' := pre + ([SLASH] + name);
    if Match(t.kids, name) == Some(p[0]) {
      LeadsElsewhere(t.kids[p[0]], p[1..], pre');
      OtherTail(p[0], TreeFrom(t.kids[p[0]], pre' + PathText(NamesTo(t.kids[p[0]], p[1..]).value), |pre'|), p);
    }
  }

  lemma {:induction false} OtherTail(c: nat, r: Option<seq<nat>>, p: seq<nat>)
    requires p != [] && r != Some(p[1..])
    ensures Under(c, r) != Some(p)
  {
    if r.Some? {
      assert ([c] + r.value)[1..] == r.value;
    }
  }

  /** The path of a node leads to it iff no earlier sibling, of it or of a node above it, is called as it
      is. */
  lemma {:induction false} FindPathWhen(t: Tree, p: seq<nat>)
    requires ProperWay(t, p)
    ensures NamesTo(t, p).Some?
    ensures FindPath(t, FullPath(NamesTo(t, p).value)) == Ok(p) <==> Resolvable(t, p)
  {
    ProperNames(t, p);
    if Resolvable(t, p) {
      FindPathIs(t, p);
    } else {
      LeadsElsewhere(t, p, []);
      assert [] + PathText(NamesTo(t, p).value) == PathText(NamesTo(t, p).value);
    }
  }

  // ---- the node that a path means ----

  predicate Slashes(x: seq<byte>) { forall i | 0 <= i < |x| :: x[i] == SLASH }

  /** The text is the names, each with one or more slashes in front, and any number of slashes behind
      the last. */
  predicate Words(path: seq<byte>, names: seq<seq<byte>>)
    decreases |names|
  {
    if names == [] then Slashes(path) else exists k: nat | k <= |path| :: WordsFrom(path, names, k)
  }

  predicate WordsFrom(path: seq<byte>, names: seq<seq<byte>>, k: nat)
    requires names != []
    decreases |names|, 0
  {
    var e := k + |names[0]|;
    0 < k && e <= |path| && Slashes(path[..k]) && names[0] != [] && path[k..e] == names[0] && SLASH !in names[0] &&
    (e < |path| ==> path[e] == SLASH) && Words(path[e..], names[1..])
  }

  /** Each name picks the first child that is called so. */
  ghost predicate Picks(t: Tree, p: seq<nat>, names: seq<seq<byte>>)
    decreases |p|
  {
    if p == [] then names == []
    else
      p[0] < |t.kids| && names != [] && Called(t.kids[p[0]].name, names[0]) &&
      (forall j | 0 <= j < p[0] :: !Called(t.kids[j].name, names[0])) && Picks(t.kids[p[0]], p[1..], names[1..])
  }

  lemma {:induction false} SkipTo(path: seq<byte>, i: nat, k: nat)
    requires i <= k <= |path| && Slashes(path[i..k]) && (k < |path| ==> path[k] != SLASH)
    ensures SkipSlashes(path, i) == k
    decreases k - i
  {
    if i < k {
      assert path[i..k][0] == SLASH;
      assert path[i..k][1..] == path[i + 1..k];
      SkipTo(path, i + 1, k);
    }
  }

  lemma {:induction false} SkippedAll(path: seq<byte>, i: nat)
    requires i <= |path|
    ensures Slashes(path[i..SkipSlashes(path, i)])
    decreases |path| - i
  {
    if i < |path| && path[i] == SLASH {
      SkippedAll(path, i + 1);
      assert path[i..SkipSlashes(path, i)] == [path[i]] + path[i + 1..SkipSlashes(path, i)];
    }
  }

  /** Where the loop leads, it leads along the words. */
  lemma {:induction false} TreeFromLeads(t: Tree, path: seq<byte>, i: nat) returns (names: seq<seq<byte>>)
    requires i <= |path| && (i < |path| ==> path[i] == SLASH) && TreeFrom(t, path, i).Some?
    ensures Words(path[i..], names) && Picks(t, TreeFrom(t, path, i).value, names)
    decreases |path| - i
  {
    names := [];
    var j := SkipSlashes(path, i);
    SkippedAll(path, i);
    if j == |path| {
      assert path[i..] == path[i..j];
    } else {
      var q := NextSlash(path, j);
      var m := Match(t.kids, path[j..q]).value;
      var rest := TreeFromLeads(t.kids[m], path, q);
      names := [path[j..q]] + rest;
      MatchIs(t.kids, path[j..q]);
      var r := TreeFrom(t.kids[m], path, q).value;
      assert ([m] + r)[1..] == r && names[1..] == rest;
      OneWord(path, i, j, q, names);
    }
  }

  lemma {:induction false} OneWord(path: seq<byte>, i: nat, j: nat, q: nat, names: seq<seq<byte>>)
    requires i < j < q <= |path| && Slashes(path[i..j]) && (q < |path| ==> path[q] == SLASH)
    requires names != [] && names[0] == path[j..q] && SLASH !in path[j..q] && Words(path[q..], names[1..])
    ensures Words(path[i..], names)
  {
    var x := path[i..];
    assert x[..j - i] == path[i..j] && x[j - i..q - i] == path[j..q] && x[q - i..] == path[q..];
    assert WordsFrom(x, names, j - i);
  }

  /** Words that lead somewhere are followed. */
  lemma {:induction false} LeadsTreeFrom(t: Tree, path: seq<byte>, i: nat, p: seq<nat>, names: seq<seq<byte>>)
    requires i <= |path| && Words(path[i..], names) && Picks(t, p, names)
    ensures TreeFrom(t, path, i) == Some(p)
    decreases |p|
  {
    if p == [] {
      WordsEnd(t, path, i);
    } else {
      var q := LeadsStep(t, path, i, p, names);
      LeadsTreeFrom(t.kids[p[0]], path, q, p[1..], names[1..]);
      assert [p[0]] + p[1..] == p;
    }
  }

  lemma {:induction false} LeadsStep(t: Tree, path: seq<byte>, i: nat, p: seq<nat>, names: seq<seq<byte>>)
    returns (q: nat)
    requires i <= |path| && Words(path[i..], names) && Picks(t, p, names) && p != []
    ensures names != [] && p[0] < |t.kids| && Picks(t.kids[p[0]], p[1..], names[1..])
    ensures i < q <= |path| && Words(path[q..], names[1..])
    ensures TreeFrom(t, path, i) == Under(p[0], TreeFrom(t.kids[p[0]], path, q))
  {
    PickFirst(t, p, names);
    var k := WordStep(path, i, names);
    q := i + k + |names[0]|;
    TreeTurn(t, path, i, q, p[0]);
  }

  lemma {:induction false} WordsEnd(t: Tree, path: seq<byte>, i: nat)
    requires i <= |path| && Words(path[i..], [])
    ensures TreeFrom(t, path, i) == Some([])
  {
    assert path[i..] == path[i..|path|];
    SkipTo(path, i, |path|);
  }

  lemma {:induction false} PickFirst(t: Tree, p: seq<nat>, names: seq<seq<byte>>)
    requires Picks(t, p, names) && p != []
    ensures names != [] && p[0] < |t.kids| && Match(t.kids, names[0]) == Some(p[0]) &&
            Picks(t.kids[p[0]], p[1..], names[1..])
  {
    MatchIs(t.kids, names[0]);
  }

  lemma {:induction false} WordStep(path: seq<byte>, i: nat, names: seq<seq<byte>>) returns (k: nat)
    requires i <= |path| && names != [] && Words(path[i..], names)
    ensures var j, q := i + k, i + k + |names[0]|;
            0 < k && j < q <= |path| && SkipSlashes(path, i) == j && NextSlash(path, j) == q &&
            path[j..q] == names[0] && Words(path[q..], names[1..])
  {
    k :| k <= |path[i..]| && WordsFrom(path[i..], names, k);
    var j, q := i + k, i + k + |names[0]|;
    TailSlices(path, i, k, k + |names[0]|);
    assert path[j] == path[j..q][0];
    SkipTo(path, i, j);
    WordEnds(path, j, q);
  }

  lemma {:induction false} TailSlices(s: seq<byte>, i: nat, k: nat, e: nat)
    requires i <= |s| && k <= e <= |s| - i
    ensures s[i..][..k] == s[i..i + k] && s[i..][k..e] == s[i + k..i + e] && s[i..][e..] == s[i + e..]
    ensures e < |s| - i ==> s[i..][e] == s[i + e]
  {
  }

  lemma {:induction false} WordEnds(path: seq<byte>, j: nat, q: nat)
    requires j <= q <= |path| && SLASH !in path[j..q] && (q < |path| ==> path[q] == SLASH)
    ensures NextSlash(path, j) == q
  {
    forall k | j <= k < q ensures path[k] != SLASH {
      assert path[j..q][k - j] == path[k];
    }
  }

  /** fdt_path_offset leads to the node that the words of the path pick, if there is one. */
  lemma {:induction false} FindPathExact(t: Tree, path: seq<byte>, p: seq<nat>)
    ensures FindPath(t, path) == Ok(p) <==>
            path != [] && path[0] == SLASH && exists names :: Words(path, names) && Picks(t, p, names)
  {
    assert path[0..] == path;
    if FindPath(t, path) == Ok(p) {
      var names := TreeFromLeads(t, path, 0);
      assert Words(path, names) && Picks(t, p, names);
    }
    if path != [] && path[0] == SLASH && exists names :: Words(path, names) && Picks(t, p, names) {
      var names :| Words(path, names) && Picks(t, p, names);
      LeadsTreeFrom(t, path, 0, p, names);
    }
  }

  // ---- fdt_node_offset_by_phandle ----

  /** The first node, in preorder, with that phandle. */
  ghost function WithPhandle(t: Tree, v: int): Option<seq<nat>>
    decreases t, 1
  {
    if Phandle(t.props) == v then Some([]) else AmongKids(t.kids, v)
  }

  ghost function AmongKids(ts: seq<Tree>, v: int): (r: Option<seq<nat>>)
    ensures r.Some? ==> r.value != []
    decreases ts, 0
  {
    if ts == [] then None
    else
      var r := WithPhandle(ts[0], v);
      if r.Some? then Some([0] + r.value)
      else
        var s := AmongKids(ts[1..], v);
        if s.None? then None else Some([s.value[0] + 1] + s.value[1..])
  }

  lemma {:induction false} WithPhandleIs(t: Tree, v: int)
    requires WithPhandle(t, v).Some?
    ensures var n := Follow(t, WithPhandle(t, v).value); n.Some? && Phandle(n.value.props) == v
    decreases t, 1
  {
    if Phandle(t.props) != v {
      AmongKidsIs(t.kids, v);
    }
  }

  lemma {:induction false} AmongKidsIs(ts: seq<Tree>, v: int)
    requires AmongKids(ts, v).Some?
    ensures var p := AmongKids(ts, v).value;
            p[0] < |ts| && Follow(ts[p[0]], p[1..]).Some? && Phandle(Follow(ts[p[0]], p[1..]).value.props) == v
    decreases ts, 0
  {
    var r := WithPhandle(ts[0], v);
    if r.Some? {
      WithPhandleIs(ts[0], v);
      assert ([0] + r.value)[1..] == r.value;
    } else {
      AmongKidsIs(ts[1..], v);
      var s := AmongKids(ts[1..], v).value;
      assert ([s[0] + 1] + s[1..])[1..] == s[1..];
    }
  }

  ghost predicate HasPhandle(t: Tree, p: seq<nat>, v: int) {
    Follow(t, p).Some? && Phandle(Follow(t, p).value.props) == v
  }

  /** The node at p comes before the node at q: a node before those below it, and siblings in order. */
  predicate Before(p: seq<nat>, q: seq<nat>) {
    q != [] && (p == [] || p[0] < q[0] || (p[0] == q[0] && Before(p[1..], q[1..])))
  }

  /** The lookup by phandle finds the first node that has it, if there is one. */
  lemma {:induction false} WithPhandleExact(t: Tree, v: int)
    ensures WithPhandle(t, v).None? <==> forall p :: !HasPhandle(t, p, v)
    ensures WithPhandle(t, v).Some? ==> HasPhandle(t, WithPhandle(t, v).value, v)
    ensures WithPhandle(t, v).Some? ==>
              forall q :: HasPhandle(t, q, v) && q != WithPhandle(t, v).value ==> Before(WithPhandle(t, v).value, q)
    decreases t, 1
  {
    if Phandle(t.props) == v {
      assert HasPhandle(t, [], v);
    } else {
      AmongKidsExact(t.kids, v);
      forall q | HasPhandle(t, q, v) ensures q != [] && HasAmong(t.kids, q, v) {
      }
      if AmongKids(t.kids, v).Some? {
        assert HasPhandle(t, AmongKids(t.kids, v).value, v);
      }
    }
  }

  ghost predicate HasAmong(ts: seq<Tree>, p: seq<nat>, v: int) {
    p != [] && p[0] < |ts| && HasPhandle(ts[p[0]], p[1..], v)
  }

  lemma {:induction false} AmongKidsExact(ts: seq<Tree>, v: int)
    ensures AmongKids(ts, v).None? ==> forall p :: !HasAmong(ts, p, v)
    ensures AmongKids(ts, v).Some? ==> HasAmong(ts, AmongKids(ts, v).value, v)
    ensures AmongKids(ts, v).Some? ==>
              forall q :: HasAmong(ts, q, v) && q != AmongKids(ts, v).value ==> Before(AmongKids(ts, v).value, q)
    decreases ts, 0
  {
    if ts != [] {
      WithPhandleExact(ts[0], v);
      AmongKidsExact(ts[1..], v);
      var r, s := WithPhandle(ts[0], v), AmongKids(ts[1..], v);
      var found := AmongKids(ts, v);
      if r.Some? {
        assert found.value[1..] == r.value;
      } else if s.Some? {
        assert found.value[1..] == s.value[1..] && ts[1..][s.value[0]] == ts[found.value[0]];
      }
      forall q | HasAmong(ts, q, v) ensures found.Some? && (q != found.value ==> Before(found.value, q)) {
        if q[0] == 0 {
          assert [0] + q[1..] == q;
        } else {
          LaterAmong(ts, q, v);
          var q' := [q[0] - 1] + q[1..];
          assert q'[1..] == q[1..] && q == [q'[0] + 1] + q'[1..];
        }
      }
    }
  }

  lemma {:induction false} LaterAmong(ts: seq<Tree>, q: seq<nat>, v: int)
    requires HasAmong(ts, q, v) && q[0] > 0
    ensures HasAmong(ts[1..], [q[0] - 1] + q[1..], v)
  {
    assert ([q[0] - 1] + q[1..])[1..] == q[1..] && ts[1..][q[0] - 1] == ts[q[0]];
  }

  /** A node below t has its phandle among those of t. */
  lemma {:induction false} PhandleAmong(t: Tree, p: seq<nat>)
    requires Follow(t, p).Some? && Phandle(Follow(t, p).value.props) > 0
    ensures Phandle(Follow(t, p).value.props) in Phandles(t)
    decreases |p|
  {
    if p != [] {
      PhandleAmong(t.kids[p[0]], p[1..]);
      PhandlesSplit(t.kids, p[0]);
    }
  }

  lemma {:induction false} NotHere(t: Tree, v: int)
    requires v > 0 && v !in Phandles(t)
    ensures WithPhandle(t, v).None?
  {
    if WithPhandle(t, v).Some? {
      WithPhandleIs(t, v);
      PhandleAmong(t, WithPhandle(t, v).value);
    }
  }

  /** If phandles are distinct the lookup by phandle finds the node that has it. */
  lemma {:induction false} PhandleFinds(t: Tree, p: seq<nat>)
    requires Distinct(Phandles(t)) && Follow(t, p).Some? && Phandle(Follow(t, p).value.props) > 0
    ensures WithPhandle(t, Phandle(Follow(t, p).value.props)) == Some(p)
    decreases t, 1
  {
    if p != [] {
      var v := Phandle(Follow(t, p).value.props);
      DistinctParts(Own(Phandle(t.props)), PhandlesOf(t.kids));
      KidsFind(t.kids, p);
      PhandleAmong(t.kids[p[0]], p[1..]);
      PhandlesSplit(t.kids, p[0]);
      assert v in PhandlesOf(t.kids);
    }
  }

  lemma {:induction false} KidsFind(ts: seq<Tree>, p: seq<nat>)
    requires Distinct(PhandlesOf(ts)) && p != [] && p[0] < |ts| && Follow(ts[p[0]], p[1..]).Some?
    requires Phandle(Follow(ts[p[0]], p[1..]).value.props) > 0
    ensures AmongKids(ts, Phandle(Follow(ts[p[0]], p[1..]).value.props)) == Some(p)
    decreases ts, 0
  {
    DistinctParts(Phandles(ts[0]), PhandlesOf(ts[1..]));
    if p[0] == 0 {
      PhandleFinds(ts[0], p[1..]);
      assert [0] + p[1..] == p;
    } else {
      var q := [p[0] - 1] + p[1..];
      assert ts[1..][q[0]] == ts[p[0]] && q[1..] == p[1..];
      KidsFind(ts[1..], q);
      assert [q[0] + 1] + q[1..] == p;
      EarlierHasNot(ts, p);
    }
  }

  lemma {:induction false} EarlierHasNot(ts: seq<Tree>, p: seq<nat>)
    requires Distinct(PhandlesOf(ts)) && |p| > 0 && 0 < p[0] < |ts| && Follow(ts[p[0]], p[1..]).Some?
    requires Phandle(Follow(ts[p[0]], p[1..]).value.props) > 0
    ensures WithPhandle(ts[0], Phandle(Follow(ts[p[0]], p[1..]).value.props)).None?
  {
    var v := Phandle(Follow(ts[p[0]], p[1..]).value.props);
    DistinctParts(Phandles(ts[0]), PhandlesOf(ts[1..]));
    PhandleAmong(ts[p[0]], p[1..]);
    PhandlesSplit(ts[1..], p[0] - 1);
    assert v in PhandlesOf(ts[1..]);
    NotHere(ts[0], v);
  }
}
