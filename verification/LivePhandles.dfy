/** checks.c and livetree.c: explicit phandles, phandle allocation and phandle references, on a tree
    of nodes that keep their identity.  The shape of the tree, with names and labels, does not change;
    phandles and properties do. */
module LivePhandles {
  import opened Bytes
  import opened DeviceTree
  import opened Overlay

  /** A REF_PHANDLE marker. */
  datatype Ref = Ref(off: nat, target: seq<byte>)

  datatype Prop = Prop(name: seq<byte>, val: seq<byte>, refs: seq<Ref>)

  /** The nodes are numbered; id is the node's number. */
  datatype Shape = Shape(id: nat, name: seq<byte>, labels: seq<seq<byte>>, kids: seq<Shape>)

  /** phandle and proplist of every node, and the static counter of get_node_phandle. */
  datatype State = State(ph: seq<int>, props: seq<seq<Prop>>, next: int)

  const SLASH: byte := 47

  // ---- the nodes of a tree ----

  /** The numbers of the nodes, in the order of check_nodes_props. */
  function Ids(s: Shape): seq<nat>
    decreases s, 1
  {
    [s.id] + IdsOf(s.kids)
  }

  function IdsOf(ss: seq<Shape>): seq<nat>
    decreases ss, 0
  {
    if ss == [] then [] else Ids(ss[0]) + IdsOf(ss[1..])
  }

  predicate NumberedBody(s: Shape, n: nat) {
    (forall i | 0 <= i < |Ids(s)| :: Ids(s)[i] < n) &&
      (forall i, j | 0 <= i < j < |Ids(s)| :: Ids(s)[i] != Ids(s)[j]) &&
    forall id | 0 <= id < n :: id in Ids(s)
  }

  ghost predicate IsNumbered(s: Shape, n: nat, r: bool) { forall z :: Unseal(z) ==> r == NumberedBody(s, n) }

  /** Every number below n is that of exactly one node; sealed. */
  ghost predicate Numbered(s: Shape, n: nat) {
    assert IsNumbered(s, n, NumberedBody(s, n));
    var r :| IsNumbered(s, n, r);
    r
  }

  lemma {:induction false} NumberedDef(s: Shape, n: nat)
    ensures Numbered(s, n) == NumberedBody(s, n)
  {
    assert Unseal(0);
  }

  lemma {:induction false} KidId(ss: seq<Shape>, i: nat, id: nat)
    requires i < |ss| && id in Ids(ss[i])
    ensures id in IdsOf(ss)
    decreases |ss|
  {
    if i > 0 {
      KidId(ss[1..], i - 1, id);
    }
  }

  // ---- get_node_by_ref ----

  function SkipSlashes(path: seq<byte>): (r: seq<byte>)
    ensures |r| <= |path| && (r != [] ==> r[0] != SLASH)
  {
    if path != [] && path[0] == SLASH then SkipSlashes(path[1..]) else path
  }

  /** strchr: the first '/', or the end. */
  function UpToSlash(path: seq<byte>): (n: nat)
    ensures n <= |path| && (n < |path| ==> path[n] == SLASH)
  {
    if path == [] || path[0] == SLASH then 0 else 1 + UpToSlash(path[1..])
  }

  function Child(ss: seq<Shape>, name: seq<byte>): (r: Option<nat>)
    ensures r.Some? ==> r.value < |ss| && ss[r.value].name == name && forall i | 0 <= i < r.value :: ss[i].name != name
    ensures r.None? ==> forall i | 0 <= i < |ss| :: ss[i].name != name
  {
    if ss == [] then None
    else if ss[0].name == name then Some(0)
    else
      var r := Child(ss[1..], name);
      assert forall i | 0 <= i < |ss| - 1 :: ss[1..][i] == ss[i + 1];
      if r.None? then None else Some(r.value + 1)
  }

  /** get_node_by_path. */
  function ByPath(s: Shape, path: seq<byte>): Option<nat>
    decreases |path|
  {
    if path == [] then Some(s.id)
    else
      var p := SkipSlashes(path);
      var n := UpToSlash(p);
      var c := Child(s.kids, p[..n]);
      if c.None? then None
      else if n == |p| then Some(s.kids[c.value].id)
      else ByPath(s.kids[c.value], p[n + 1..])
  }

  /** get_node_by_label. */
  function ByLabel(s: Shape, text: seq<byte>): Option<nat>
    decreases s, 1
  {
    if text in s.labels then Some(s.id) else ByLabelOf(s.kids, text)
  }

  function ByLabelOf(ss: seq<Shape>, text: seq<byte>): Option<nat>
    decreases ss, 0
  {
    if ss == [] then None
    else
      var r := ByLabel(ss[0], text);
      if r.Some? then r else ByLabelOf(ss[1..], text)
  }

  /** get_node_by_ref. */
  function ByRef(s: Shape, target: seq<byte>): Option<nat> {
    if target == [SLASH] then Some(s.id)
    else if target != [] && target[0] == SLASH then ByPath(s, target)
    else ByLabel(s, target)
  }

  lemma {:induction false} ByPathIs(s: Shape, path: seq<byte>)
    ensures ByPath(s, path).Some? ==> ByPath(s, path).value in Ids(s)
    decreases |path|
  {
    if path != [] {
      var p := SkipSlashes(path);
      var n := UpToSlash(p);
      var c := Child(s.kids, p[..n]);
      if c.Some? {
        if n < |p| {
          ByPathIs(s.kids[c.value], p[n + 1..]);
          if ByPath(s.kids[c.value], p[n + 1..]).Some? {
            KidId(s.kids, c.value, ByPath(s.kids[c.value], p[n + 1..]).value);
          }
        } else {
          KidId(s.kids, c.value, s.kids[c.value].id);
        }
      }
    }
  }

  lemma {:induction false} ByLabelIs(s: Shape, text: seq<byte>)
    ensures ByLabel(s, text).Some? ==> ByLabel(s, text).value in Ids(s)
    decreases s, 1
  {
    ByLabelOfIs(s.kids, text);
  }

  lemma {:induction false} ByLabelOfIs(ss: seq<Shape>, text: seq<byte>)
    ensures ByLabelOf(ss, text).Some? ==> ByLabelOf(ss, text).value in IdsOf(ss)
    decreases ss, 0
  {
    if ss != [] {
      ByLabelIs(ss[0], text);
      ByLabelOfIs(ss[1..], text);
    }
  }

  /** A reference that resolves resolves to a node of the tree. */
  lemma {:induction false} ByRefIs(s: Shape, target: seq<byte>, n: nat)
    requires Numbered(s, n)
    ensures ByRef(s, target).Some? ==> ByRef(s, target).value < n
  {
    NumberedDef(s, n);
    ByPathIs(s, target);
    ByLabelIs(s, target);
    var r := ByRef(s, target);
    if r.Some? {
      var i :| 0 <= i < |Ids(s)| && Ids(s)[i] == r.value;
    }
  }

  // ---- the node that a reference means ----

  /** The node that is reached by child indices. */
  function At(s: Shape, p: seq<nat>): Option<Shape>
    decreases |p|
  {
    if p == [] then Some(s) else if p[0] >= |s.kids| then None else At(s.kids[p[0]], p[1..])
  }

  /** The names on the way, each of them the first of its name among its siblings. */
  predicate Along(s: Shape, p: seq<nat>, names: seq<seq<byte>>)
    decreases |p|
  {
    if p == [] then names == []
    else
      p[0] < |s.kids| && names != [] && s.kids[p[0]].name == names[0] &&
      (forall i | 0 <= i < p[0] :: s.kids[i].name != names[0]) && Along(s.kids[p[0]], p[1..], names[1..])
  }

  predicate AllSlashes(x: seq<byte>) { forall i | 0 <= i < |x| :: x[i] == SLASH }

  /** The text is the names, with one or more slashes between them, any number in front, and at
      most one behind; an empty name can only be the last, with nothing behind it. */
  predicate Spelled(path: seq<byte>, names: seq<seq<byte>>)
    decreases |names|, 1
  {
    if names == [] then path == []
    else path != [] && exists k: nat | k <= |path| :: SpelledFrom(path, names, k)
  }

  predicate SpelledFrom(path: seq<byte>, names: seq<seq<byte>>, k: nat)
    requires names != []
    decreases |names|, 0
  {
    var e := k + |names[0]|;
    e <= |path| && SpelledAt(path, names[0], k) &&
    if e == |path| then |names| == 1
    else names[0] != [] && path[e] == SLASH && Spelled(path[e + 1..], names[1..])
  }

  /** Behind k slashes stands the name, which has none. */
  predicate SpelledAt(path: seq<byte>, name: seq<byte>, k: nat)
    requires k + |name| <= |path|
  {
    AllSlashes(path[..k]) && path[k..k + |name|] == name && SLASH !in name
  }

  /** The nodes in the order of Ids. */
  function Nodes(s: Shape): seq<Shape>
    decreases s, 1
  {
    [s] + NodesOf(s.kids)
  }

  function NodesOf(ss: seq<Shape>): seq<Shape>
    decreases ss, 0
  {
    if ss == [] then [] else Nodes(ss[0]) + NodesOf(ss[1..])
  }

  /** The first of the nodes with that label has that number. */
  predicate FirstWith(ns: seq<Shape>, text: seq<byte>, id: nat) {
    exists k ::
      0 <= k < |ns| && text in ns[k].labels && ns[k].id == id && forall j | 0 <= j < k :: text !in ns[j].labels
  }

  /** The reference means the node of that number: "/" the root, a path the node at the end of its
      names, and anything else the first node with that label. */
  ghost predicate Means(s: Shape, target: seq<byte>, id: nat) {
    if target == [SLASH] then id == s.id
    else if target != [] && target[0] == SLASH then
      exists p, names :: Along(s, p, names) && Spelled(target, names) && At(s, p).Some? && At(s, p).value.id == id
    else FirstWith(Nodes(s), target, id)
  }

  /** The reference means no node. */
  ghost predicate Dangling(s: Shape, target: seq<byte>) { forall id: nat :: !Means(s, target, id) }

  lemma {:induction false} FirstWithAppend(a: seq<Shape>, b: seq<Shape>, text: seq<byte>, id: nat)
    ensures FirstWith(a + b, text, id) <==>
            FirstWith(a, text, id) || ((forall j | 0 <= j < |a| :: text !in a[j].labels) && FirstWith(b, text, id))
  {
    var c := a + b;
    assert forall j | 0 <= j < |a| :: c[j] == a[j];
    assert forall j | 0 <= j < |b| :: c[|a| + j] == b[j];
    if k :| 0 <= k < |b| && text in b[k].labels && b[k].id == id && forall j | 0 <= j < k :: text !in b[j].labels {
      assert c[|a| + k] == b[k];
      if forall j | 0 <= j < |a| :: text !in a[j].labels {
        forall j | 0 <= j < |a| + k ensures text !in c[j].labels {
          assert c[j] == if j < |a| then a[j] else b[j - |a|];
        }
      }
    }
    if k :| 0 <= k < |c| && text in c[k].labels && c[k].id == id && forall j | 0 <= j < k :: text !in c[j].labels {
      if k >= |a| {
        assert b[k - |a|] == c[k];
      }
    }
  }

  predicate NoneWith(ns: seq<Shape>, text: seq<byte>) { forall j | 0 <= j < |ns| :: text !in ns[j].labels }

  lemma {:induction false} ByLabelExact(s: Shape, text: seq<byte>)
    ensures forall id: nat :: ByLabel(s, text) == Some(id) <==> FirstWith(Nodes(s), text, id)
    ensures ByLabel(s, text).None? <==> NoneWith(Nodes(s), text)
    decreases s, 1
  {
    ByLabelOfExact(s.kids, text);
    assert Nodes(s)[0] == s;
    forall id: nat ensures ByLabel(s, text) == Some(id) <==> FirstWith(Nodes(s), text, id) {
      FirstWithAppend([s], NodesOf(s.kids), text, id);
    }
    NoneWithAppend([s], NodesOf(s.kids), text);
  }

  lemma {:induction false} NoneWithAppend(a: seq<Shape>, b: seq<Shape>, text: seq<byte>)
    ensures NoneWith(a + b, text) <==> NoneWith(a, text) && NoneWith(b, text)
  {
    var c := a + b;
    assert forall j | 0 <= j < |a| :: c[j] == a[j];
    assert forall j | 0 <= j < |b| :: c[|a| + j] == b[j];
  }

  lemma {:induction false} ByLabelOfExact(ss: seq<Shape>, text: seq<byte>)
    ensures forall id: nat :: ByLabelOf(ss, text) == Some(id) <==> FirstWith(NodesOf(ss), text, id)
    ensures ByLabelOf(ss, text).None? <==> NoneWith(NodesOf(ss), text)
    decreases ss, 0
  {
    if ss != [] {
      ByLabelExact(ss[0], text);
      ByLabelOfExact(ss[1..], text);
      forall id: nat ensures ByLabelOf(ss, text) == Some(id) <==> FirstWith(NodesOf(ss), text, id) {
        FirstWithAppend(Nodes(ss[0]), NodesOf(ss[1..]), text, id);
      }
      NoneWithAppend(Nodes(ss[0]), NodesOf(ss[1..]), text);
    }
  }

  lemma {:induction false} SkipIs(path: seq<byte>, k: nat)
    requires k <= |path| && AllSlashes(path[..k]) && (k < |path| ==> path[k] != SLASH)
    ensures SkipSlashes(path) == path[k..]
    decreases k
  {
    if k > 0 {
      assert path[..k][0] == SLASH;
      assert path[1..][..k - 1] == path[..k][1..];
      SkipIs(path[1..], k - 1);
    }
  }

  lemma {:induction false} Skipped(path: seq<byte>) returns (k: nat)
    ensures k <= |path| && AllSlashes(path[..k]) && SkipSlashes(path) == path[k..] &&
            (k < |path| ==> path[k] != SLASH)
    decreases |path|
  {
    k := 0;
    if path != [] && path[0] == SLASH {
      k := Skipped(path[1..]);
      assert path[1..][k..] == path[k + 1..];
      assert path[..k + 1] == [path[0]] + path[1..][..k];
      k := k + 1;
    }
  }

  lemma {:induction false} UpToIs(path: seq<byte>, n: nat)
    requires n <= |path| && SLASH !in path[..n] && (n < |path| ==> path[n] == SLASH)
    ensures UpToSlash(path) == n
    decreases n
  {
    if n > 0 {
      assert path[..n][0] == path[0];
      assert path[1..][..n - 1] == path[..n][1..];
      UpToIs(path[1..], n - 1);
    }
  }

  lemma {:induction false} UpToNone(path: seq<byte>)
    ensures SLASH !in path[..UpToSlash(path)]
    decreases |path|
  {
    if path != [] && path[0] != SLASH {
      UpToNone(path[1..]);
      var n := UpToSlash(path[1..]);
      assert path[..n + 1] == [path[0]] + path[1..][..n];
    }
  }

  /** Where a path leads, if anywhere, it leads along its names. */
  lemma {:induction false} PathLeads(s: Shape, path: seq<byte>) returns (p: seq<nat>, names: seq<seq<byte>>)
    requires ByPath(s, path).Some?
    ensures Along(s, p, names) && Spelled(path, names) && At(s, p).Some? && At(s, p).value.id == ByPath(s, path).value
    decreases |path|
  {
    p, names := [], [];
    if path != [] {
      var k := Skipped(path);
      var q := SkipSlashes(path);
      var n := UpToSlash(q);
      UpToNone(q);
      var c := Child(s.kids, q[..n]).value;
      assert path[k..k + n] == q[..n] && SpelledAt(path, q[..n], k);
      var p1, names1: seq<seq<byte>> := [], [];
      if n < |q| {
        p1, names1 := PathLeads(s.kids[c], q[n + 1..]);
      }
      p, names := [c] + p1, [q[..n]] + names1;
      OneStep(s, c, q[..n], p1, names1);
      SpelledStep(path, k, n, names1);
    }
  }

  lemma {:induction false} SpelledStep(path: seq<byte>, k: nat, n: nat, names: seq<seq<byte>>)
    requires path != [] && k + n <= |path| && AllSlashes(path[..k]) && SLASH !in path[k..][..n]
    requires if k + n == |path| then names == []
             else n > 0 && path[k..][n] == SLASH && Spelled(path[k..][n + 1..], names)
    ensures Spelled(path, [path[k..][..n]] + names)
  {
    var all := [path[k..][..n]] + names;
    assert all[1..] == names && path[k..k + n] == path[k..][..n];
    if k + n < |path| {
      assert path[k + n + 1..] == path[k..][n + 1..] && path[k + n] == path[k..][n];
    }
    assert SpelledFrom(path, all, k);
  }

  lemma {:induction false} OneStep(s: Shape, c: nat, name: seq<byte>, p: seq<nat>, names: seq<seq<byte>>)
    requires Child(s.kids, name) == Some(c) && Along(s.kids[c], p, names) && At(s.kids[c], p).Some?
    ensures Along(s, [c] + p, [name] + names) && At(s, [c] + p) == At(s.kids[c], p)
  {
    assert ([c] + p)[1..] == p && ([name] + names)[1..] == names;
  }

  /** One name is followed. */
  lemma {:induction false} FollowsName(s: Shape, path: seq<byte>, name: seq<byte>, k: nat, c: nat)
    requires path != [] && k + |name| <= |path| && SpelledAt(path, name, k) && Child(s.kids, name) == Some(c)
    requires k + |name| < |path| ==> name != [] && path[k + |name|] == SLASH
    ensures ByPath(s, path) ==
            if k + |name| == |path| then Some(s.kids[c].id) else ByPath(s.kids[c], path[k + |name| + 1..])
  {
    var q := path[k..];
    assert q[..|name|] == name;
    assert name != [] ==> path[k] == name[0] && name[0] in name;
    SkipIs(path, k);
    UpToIs(q, |name|);
    if k + |name| < |path| {
      assert q[|name| + 1..] == path[k + |name| + 1..];
    }
  }

  /** Names that lead somewhere are followed. */
  lemma {:induction false} LeadsByPath(s: Shape, path: seq<byte>, p: seq<nat>, names: seq<seq<byte>>)
    requires Along(s, p, names) && Spelled(path, names) && At(s, p).Some?
    ensures ByPath(s, path) == Some(At(s, p).value.id)
    decreases |p|
  {
    if p != [] {
      var name, c := names[0], p[0];
      var k: nat :| k <= |path| && SpelledFrom(path, names, k);
      assert Child(s.kids, name) == Some(c);
      FollowsName(s, path, name, k, c);
      if k + |name| == |path| {
        assert p[1..] == [];
      } else {
        LeadsByPath(s.kids[c], path[k + |name| + 1..], p[1..], names[1..]);
      }
    }
  }

  /** get_node_by_ref finds the node that the reference means, if it means one. */
  lemma {:induction false} ByRefExact(s: Shape, target: seq<byte>)
    ensures forall id: nat :: ByRef(s, target) == Some(id) <==> Means(s, target, id)
    ensures ByRef(s, target).None? <==> Dangling(s, target)
  {
    forall id: nat ensures ByRef(s, target) == Some(id) <==> Means(s, target, id) {
      if target != [] && target[0] == SLASH && target != [SLASH] {
        if ByRef(s, target) == Some(id) {
          var p, names := PathLeads(s, target);
        }
        if Means(s, target, id) {
          var p, names :| Along(s, p, names) && Spelled(target, names) && At(s, p).Some? && At(s, p).value.id == id;
          LeadsByPath(s, target, p, names);
        }
      } else {
        ByLabelExact(s, target);
      }
    }
    if ByRef(s, target).Some? {
      assert Means(s, target, ByRef(s, target).value);
    }
  }

  // ---- properties ----

  /** get_property: the first of that name. */
  function Find(ps: seq<Prop>, name: seq<byte>): (r: Option<nat>)
    ensures r.Some? ==> r.value < |ps| && ps[r.value].name == name
    ensures r.None? ==> forall i | 0 <= i < |ps| :: ps[i].name != name
  {
    if ps == [] then None
    else if ps[0].name == name then Some(0)
    else
      var r := Find(ps[1..], name);
      assert forall i | 0 <= i < |ps| - 1 :: ps[1..][i] == ps[i + 1];
      if r.None? then None else Some(r.value + 1)
  }

  /** The node as it is flattened. */
  function Strip(ps: seq<Prop>): (qs: seq<Property>)
    ensures |qs| == |ps| && forall i | 0 <= i < |ps| :: qs[i] == Property(ps[i].name, ps[i].val)
  {
    if ps == [] then [] else [Property(ps[0].name, ps[0].val)] + Strip(ps[1..])
  }

  lemma {:induction false} StripValue(ps: seq<Prop>, name: seq<byte>)
    ensures Value(Strip(ps), name) == if Find(ps, name).Some? then Some(ps[Find(ps, name).value].val) else None
    decreases |ps|
  {
    if ps != [] {
      StripValue(ps[1..], name);
    }
  }

  // ---- explicit_phandles ----

  /** get_node_by_phandle. */
  predicate InUse(ph: seq<int>, v: int) { exists i :: 0 <= i < |ph| && ph[i] == v }

  /** check_phandle_prop: the value, 0 for none, and whether it fails. */
  ghost function Explicit(s: Shape, ps: seq<Prop>, id: nat, name: seq<byte>): (int, bool) {
    var i := Find(ps, name);
    if i.None? then (0, false)
    else
      var p := ps[i.value];
      if |p.val| != 4 then (0, true)
      else if p.refs != [] then (0, ByRef(s, p.refs[0].target) != Some(id))
      else if Ld32(p.val, 0) == 0 || Ld32(p.val, 0) == 0xffff_ffff then (0, true)
      else (Ld32(p.val, 0), false)
  }

  /** The first property of that name is one cell with this number, which can be a phandle. */
  ghost predicate Gives(ps: seq<Prop>, name: seq<byte>, v: int) {
    exists i :: 0 <= i < |ps| && ps[i].name == name && (forall j | 0 <= j < i :: ps[j].name != name) &&
      ps[i].refs == [] && 0 < v < 0xffff_ffff && ps[i].val == Be32(v)
  }

  /** The first property of that name is not one cell, or refers to another node or to none, or
      holds 0 or 0xffffffff. */
  ghost predicate Spoilt(s: Shape, ps: seq<Prop>, id: nat, name: seq<byte>) {
    exists i :: 0 <= i < |ps| && ps[i].name == name && (forall j | 0 <= j < i :: ps[j].name != name) &&
      (|ps[i].val| != 4 ||
       (if ps[i].refs != [] then !Means(s, ps[i].refs[0].target, id)
        else ps[i].val == Be32(0) || ps[i].val == Be32(0xffff_ffff)))
  }

  lemma {:induction false} FindFirst(ps: seq<Prop>, name: seq<byte>)
    ensures Find(ps, name).Some? ==> forall j | 0 <= j < Find(ps, name).value :: ps[j].name != name
    decreases |ps|
  {
    if ps != [] && ps[0].name != name {
      FindFirst(ps[1..], name);
      assert forall j | 0 <= j < |ps| - 1 :: ps[1..][j] == ps[j + 1];
    }
  }

  /** check_phandle_prop fails iff the property is spoilt, and returns the number that it gives. */
  lemma {:induction false} ExplicitIs(s: Shape, ps: seq<Prop>, id: nat, name: seq<byte>)
    ensures Explicit(s, ps, id, name).1 <==> Spoilt(s, ps, id, name)
    ensures var p := Explicit(s, ps, id, name).0; forall v | v != 0 :: p == v <==> Gives(ps, name, v)
  {
    FindFirst(ps, name);
    var f := Find(ps, name);
    if f.Some? {
      var p := ps[f.value];
      if p.refs != [] {
        ByRefExact(s, p.refs[0].target);
      } else if |p.val| == 4 {
        CellValue(p.val);
      }
      forall v ensures v != 0 ==> (Explicit(s, ps, id, name).0 == v <==> Gives(ps, name, v)) {
        if 0 < v < 0xffff_ffff && p.val == Be32(v) {
          Be32RoundTrip(v);
        }
      }
    }
  }

  /** The phandle that the properties of a node ask for. */
  ghost function Asked(s: Shape, ps: seq<Prop>, id: nat): int {
    if Explicit(s, ps, id, PHANDLE).0 != 0 then Explicit(s, ps, id, PHANDLE).0 else Explicit(s, ps, id, LINUX_PHANDLE).0
  }

  /** What a node fails for by itself: a bad property, or two that differ. */
  ghost predicate Faulty(s: Shape, ps: seq<Prop>, id: nat) {
    var (p, a) := Explicit(s, ps, id, PHANDLE);
    var (l, b) := Explicit(s, ps, id, LINUX_PHANDLE);
    a || b || (p != 0 && l != 0 && p != l)
  }

  /** "phandle" is asked before "linux,phandle"; a node fails for a spoilt property or for two numbers
      that differ. */
  lemma {:induction false} AskedIs(s: Shape, ps: seq<Prop>, id: nat)
    ensures var a := Asked(s, ps, id); forall v | v != 0 :: a == v <==>
              Gives(ps, PHANDLE, v) || ((forall w :: !Gives(ps, PHANDLE, w)) && Gives(ps, LINUX_PHANDLE, v))
    ensures Faulty(s, ps, id) <==>
            Spoilt(s, ps, id, PHANDLE) || Spoilt(s, ps, id, LINUX_PHANDLE) ||
            exists v, w :: Gives(ps, PHANDLE, v) && Gives(ps, LINUX_PHANDLE, w) && v != w
  {
    var (p, a) := Explicit(s, ps, id, PHANDLE);
    var (l, b) := Explicit(s, ps, id, LINUX_PHANDLE);
    ExplicitIs(s, ps, id, PHANDLE);
    ExplicitIs(s, ps, id, LINUX_PHANDLE);
    NumberOrNone(ps, PHANDLE, p);
    NumberOrNone(ps, LINUX_PHANDLE, l);
    AskedFrom(p, l, v => Gives(ps, PHANDLE, v), v => Gives(ps, LINUX_PHANDLE, v));
  }

  lemma {:induction false} AskedFrom(p: int, l: int, g: int -> bool, h: int -> bool)
    requires if p == 0 then forall v :: !g(v) else forall v :: g(v) <==> v == p
    requires if l == 0 then forall v :: !h(v) else forall v :: h(v) <==> v == l
    ensures forall v | v != 0 :: (if p != 0 then p else l) == v <==> g(v) || ((forall w :: !g(w)) && h(v))
    ensures p != 0 && l != 0 && p != l <==> exists v, w :: g(v) && h(w) && v != w
  {
    if p != 0 {
      assert g(p);
      if l != 0 {
        assert h(l);
      }
    }
  }

  lemma {:induction false} NumberOrNone(ps: seq<Prop>, name: seq<byte>, p: int)
    requires forall v | v != 0 :: p == v <==> Gives(ps, name, v)
    ensures if p == 0 then forall v :: !Gives(ps, name, v) else forall v :: Gives(ps, name, v) <==> v == p
  {
    assert !Gives(ps, name, 0);
    if p != 0 {
      assert Gives(ps, name, p);
    }
  }

  /** check_explicit_phandles for one node: the phandles, and whether it fails. */
  ghost function CheckNode(s: Shape, props: seq<seq<Prop>>, ph: seq<int>, id: nat): (r: (seq<int>, bool))
    requires id < |props| == |ph|
    ensures |r.0| == |ph|
  {
    var v := Asked(s, props[id], id);
    var fault := Faulty(s, props[id], id);
    if v == 0 then (ph, fault)
    else if InUse(ph, v) then (ph, true)
    else (ph[id := v], fault)
  }

  ghost function CheckFrom(s: Shape, props: seq<seq<Prop>>, ph: seq<int>, ids: seq<nat>): (r: (seq<int>, bool))
    requires |props| == |ph| && forall i | 0 <= i < |ids| :: ids[i] < |ph|
    ensures |r.0| == |ph|
    decreases |ids|
  {
    if ids == [] then (ph, false)
    else
      var (ph1, a) := CheckNode(s, props, ph, ids[0]);
      assert forall i | 0 <= i < |ids| - 1 :: ids[1..][i] == ids[i + 1];
      var (ph2, b) := CheckFrom(s, props, ph1, ids[1..]);
      (ph2, a || b)
  }

  /** Two nodes ask for the same phandle. */
  ghost predicate Twice(s: Shape, props: seq<seq<Prop>>, a: nat, b: nat) {
    a < |props| && b < |props| && a != b && Asked(s, props[a], a) == Asked(s, props[b], b) != 0
  }

  /** Something is wrong with the phandles of the given nodes, or between them and those before. */
  ghost predicate Wrong(s: Shape, props: seq<seq<Prop>>, ids: seq<nat>) {
    (exists i :: 0 <= i < |ids| && ids[i] < |props| && Faulty(s, props[ids[i]], ids[i])) ||
    (exists i, j :: 0 <= i < j < |ids| && Twice(s, props, ids[i], ids[j]))
  }

  /** So far the phandles are those asked for by the nodes `done`. */
  ghost predicate Given(s: Shape, props: seq<seq<Prop>>, ph: seq<int>, done: seq<nat>) {
    |ph| == |props| && forall id | 0 <= id < |ph| :: ph[id] == if id in done then Asked(s, props[id], id) else 0
  }

  lemma {:induction false} WrongMore(s: Shape, props: seq<seq<Prop>>, done: seq<nat>, id: nat)
    requires id < |props| && forall i | 0 <= i < |done| :: done[i] < |props| && done[i] != id
    ensures Wrong(s, props, done + [id]) <==>
            Wrong(s, props, done) || Faulty(s, props[id], id) || exists i ::
              0 <= i < |done| &&
              Twice(s, props, done[i], id)
  {
    var more := done + [id];
    assert forall i | 0 <= i < |done| :: more[i] == done[i];
    assert more[|done|] == id;
    if i :| 0 <= i < |done| && done[i] < |props| && Faulty(s, props[done[i]], done[i]) {
      assert Faulty(s, props[more[i]], more[i]);
    }
    if i, j :| 0 <= i < j < |done| && Twice(s, props, done[i], done[j]) {
      assert Twice(s, props, more[i], more[j]);
    }
    if i :| 0 <= i < |done| && Twice(s, props, done[i], id) {
      assert Twice(s, props, more[i], more[|done|]);
    }
  }

  /** One node, as long as nothing was wrong. */
  lemma {:induction false} NodeChecked(s: Shape, props: seq<seq<Prop>>, ph: seq<int>, done: seq<nat>, id: nat)
    requires Given(s, props, ph, done) && id < |props| && forall i | 0 <= i < |done| ::
               done[i] < |props| &&
               done[i] != id
    ensures CheckNode(s, props, ph, id).1 <==>
            Faulty(s, props[id], id) || exists i :: 0 <= i < |done| && Twice(s, props, done[i], id)
    ensures !CheckNode(s, props, ph, id).1 ==> Given(s, props, CheckNode(s, props, ph, id).0, done + [id])
  {
    var v := Asked(s, props[id], id);
    if v != 0 && InUse(ph, v) {
      var x :| 0 <= x < |ph| && ph[x] == v;
      assert x in done;
      var i :| 0 <= i < |done| && done[i] == x;
      assert Twice(s, props, done[i], id);
    }
    if i :| 0 <= i < |done| && Twice(s, props, done[i], id) {
      assert done[i] in done;
      assert ph[done[i]] == v;
      assert InUse(ph, v);
    }
  }

  /** The check fails iff something is wrong; otherwise every node has the phandle it asks for. */
  lemma {:induction false} AllChecked(s: Shape, props: seq<seq<Prop>>, ph: seq<int>, done: seq<nat>, ids: seq<nat>)
    requires Given(s, props, ph, done) && !Wrong(s, props, done)
    requires forall i | 0 <= i < |done + ids| :: (done + ids)[i] < |props|
    requires forall i, j | 0 <= i < j < |done + ids| :: (done + ids)[i] != (done + ids)[j]
    ensures forall i | 0 <= i < |ids| :: ids[i] < |ph|
    ensures CheckFrom(s, props, ph, ids).1 <==> Wrong(s, props, done + ids)
    ensures !CheckFrom(s, props, ph, ids).1 ==> Given(s, props, CheckFrom(s, props, ph, ids).0, done + ids)
    decreases |ids|
  {
    assert forall i | 0 <= i < |ids| :: ids[i] == (done + ids)[|done| + i];
    if ids == [] {
      assert done + ids == done;
    } else {
      Splits(done, ids);
      NodeChecked(s, props, ph, done, ids[0]);
      WrongMore(s, props, done, ids[0]);
      if CheckNode(s, props, ph, ids[0]).1 {
        WrongPrefix(s, props, done + [ids[0]], ids[1..]);
      } else {
        AllChecked(s, props, CheckNode(s, props, ph, ids[0]).0, done + [ids[0]], ids[1..]);
      }
    }
  }

  lemma {:induction false} Splits(done: seq<nat>, ids: seq<nat>)
    requires ids != [] && forall i, j | 0 <= i < j < |done + ids| :: (done + ids)[i] != (done + ids)[j]
    ensures done + [ids[0]] + ids[1..] == done + ids
    ensures forall i | 0 <= i < |done| :: done[i] == (done + ids)[i] && done[i] != ids[0]
  {
    assert (done + ids)[|done|] == ids[0];
  }

  lemma {:induction false} WrongPrefix(s: Shape, props: seq<seq<Prop>>, a: seq<nat>, b: seq<nat>)
    requires Wrong(s, props, a)
    ensures Wrong(s, props, a + b)
  {
    var c := a + b;
    assert forall i | 0 <= i < |a| :: c[i] == a[i];
    if i :| 0 <= i < |a| && a[i] < |props| && Faulty(s, props[a[i]], a[i]) {
      assert Faulty(s, props[c[i]], c[i]);
    } else {
      var i, j :| 0 <= i < j < |a| && Twice(s, props, a[i], a[j]);
      assert Twice(s, props, c[i], c[j]);
    }
  }
}
