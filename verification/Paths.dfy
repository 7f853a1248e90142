/** fdt_ro.c: fdt_get_path and fdt_path_offset on absolute paths. */
module Paths {
  import opened Bytes
  import opened Syntax
  import opened DeviceTree
  import opened Fdt
  import opened Walk
  import opened Blob
  import opened Lookup
  import opened EditTheorems
  import opened Overlay
  import opened OverlayBlob
  import opened Visit

  const SLASH: byte := 47

  // ---- fdt_path_offset ----

  function SkipSlashes(path: seq<byte>, i: nat): (j: nat)
    requires i <= |path|
    ensures i <= j <= |path| && (j < |path| ==> path[j] != SLASH)
    decreases |path| - i
  {
    if i == |path| || path[i] != SLASH then i else SkipSlashes(path, i + 1)
  }

  /** memchr for the next slash, or the end. */
  function NextSlash(path: seq<byte>, i: nat): (j: nat)
    requires i <= |path|
    ensures i <= j <= |path| && (forall k | i <= k < j :: path[k] != SLASH) && (j < |path| ==> path[j] == SLASH)
    decreases |path| - i
  {
    if i == |path| || path[i] == SLASH then i else NextSlash(path, i + 1)
  }

  /** The loop of fdt_path_offset_namelen from index i on. */
  ghost function PathFrom(b: seq<byte>, path: seq<byte>, i: nat, offset: int): int
    requires Buf(b) && i <= |path|
    decreases |path| - i
  {
    var j := SkipSlashes(path, i);
    if j == |path| || offset >= 0x8000_0000 then offset
    else
      var q := NextSlash(path, j);
      var o := SubnodeOffset(b, offset, path[j..q]);
      if o < 0 then o else PathFrom(b, path, q, o)
  }

  /** fdt_path_offset on a path that starts with '/'; aliases are not modelled. */
  ghost function PathOffset(b: seq<byte>, path: seq<byte>): int
    requires Buf(b) && path != [] && path[0] == SLASH
  {
    if RoProbe(b) < 0 then RoProbe(b) else PathFrom(b, path, 0, 0)
  }

  // ---- the path of a node ----

  /** The names of the nodes at p and around it, from the child of the root on. */
  function NamesTo(t: Tree, p: seq<nat>): Option<seq<seq<byte>>>
    decreases |p|
  {
    if p == [] then Some([])
    else if p[0] >= |t.kids| then None
    else
      var r := NamesTo(t.kids[p[0]], p[1..]);
      if r.None? then None else Some([t.kids[p[0]].name] + r.value)
  }

  /** "/" followed by every name. */
  function PathText(ns: seq<seq<byte>>): seq<byte> {
    if ns == [] then [] else [SLASH] + ns[0] + PathText(ns[1..])
  }

  /** Each name on the way down is found first by its own node: names are not empty and free
      of '/', and no earlier sibling has the name, or, if it has no unit address, the name
      with one. */
  predicate Resolvable(t: Tree, p: seq<nat>)
    decreases |p|
  {
    p == [] ||
    (p[0] < |t.kids| && t.kids[p[0]].name != [] && SLASH !in t.kids[p[0]].name &&
     (forall j | 0 <= j < p[0] :: !NodeNameEq(t.kids[j].name, t.kids[p[0]].name)) && Resolvable(t.kids[p[0]], p[1..]))
  }

  lemma {:induction false} MatchSelf(ks: seq<Tree>, i: nat)
    requires i < |ks| && forall j | 0 <= j < i :: !NodeNameEq(ks[j].name, ks[i].name)
    ensures Match(ks, ks[i].name) == Some(i)
  {
    assert NodeNameEq(ks[i].name, ks[i].name);
  }

  lemma {:induction false} NextComponent(pre: seq<byte>, name: seq<byte>, rest: seq<byte>)
    requires name != [] && SLASH !in name && (rest == [] || rest[0] == SLASH)
    ensures var path := pre + ([SLASH] + name + rest);
            SkipSlashes(path, |pre|) == |pre| + 1 && NextSlash(path, |pre| + 1) == |pre| + 1 + |name| &&
            path[|pre| + 1..|pre| + 1 + |name|] == name
  {
    var path := pre + ([SLASH] + name + rest);
    assert path[|pre|] == SLASH && path[|pre| + 1] == name[0];
    assert SkipSlashes(path, |pre| + 1) == |pre| + 1;
    var j := NextSlash(path, |pre| + 1);
    assert forall k | 0 <= k < |name| :: path[|pre| + 1 + k] == name[k];
    if rest != [] {
      assert path[|pre| + 1 + |name|] == SLASH;
    }
  }

  /** Resolving the path from the node at q reaches the node at q + p. */
  lemma {:induction false} PathFromIs(b: seq<byte>, t: Items, q: seq<nat>, p: seq<nat>, pre: seq<byte>)
    requires Addresses(b, t, q) && Resolvable(Get(Trees(b, t), q).value, p)
    ensures NamesTo(Get(Trees(b, t), q).value, p).Some?
    ensures var text := PathText(NamesTo(Get(Trees(b, t), q).value, p).value);
            PathFrom(b, pre + text, |pre|, NodeOffset(t, q)) == NodeOffset(t, q + p)
    decreases |p|
  {
    var tree := Get(Trees(b, t), q).value;
    Located(b, t, q);
    if p == [] {
      assert pre + [] == pre && q + [] == q;
    } else {
      var i, name := p[0], tree.kids[p[0]].name;
      ChildFound(b, t, q, i);
      PathFromIs(b, t, q + [i], p[1..], pre + ([SLASH] + name));
      assert q + [i] + p[1..] == q + p;
      var ns := NamesTo(tree.kids[i], p[1..]).value;
      PathStep(b, pre, name, ns, NodeOffset(t, q), NodeOffset(t, q + [i]));
    }
  }

  lemma {:induction false} ChildFound(b: seq<byte>, t: Items, q: seq<nat>, i: nat)
    requires Addresses(b, t, q) && i < |Get(Trees(b, t), q).value.kids|
    requires var ks := Get(Trees(b, t), q).value.kids; forall j | 0 <= j < i :: !NodeNameEq(ks[j].name, ks[i].name)
    ensures Addresses(b, t, q + [i]) && Get(Trees(b, t), q + [i]) == Some(Get(Trees(b, t), q).value.kids[i])
    ensures NodeOffset(t, q) < 0x8000_0000 &&
            SubnodeOffset(b, NodeOffset(t, q), Get(Trees(b, t), q).value.kids[i].name) == NodeOffset(t, q + [i])
  {
    var tree := Get(Trees(b, t), q).value;
    ReplaceChild(Trees(b, t), q, i, tree);
    MatchSelf(tree.kids, i);
    SubnodeFound(b, t, q, tree.kids[i].name);
  }

  /** One turn of the loop. */
  lemma {:induction false} PathStep(b: seq<byte>, pre: seq<byte>, name: seq<byte>, ns: seq<seq<byte>>, offset: int,
    o: int)
    requires Buf(b) && name != [] && SLASH !in name && offset < 0x8000_0000 && SubnodeOffset(b, offset, name) == o &&
             0 <= o
    ensures var pre' := pre + ([SLASH] + name);
            PathFrom(b, pre + PathText([name] + ns), |pre|, offset) == PathFrom(b, pre' + PathText(ns), |pre'|, o)
  {
    var rest := PathText(ns);
    assert ([name] + ns)[1..] == ns;
    assert PathText([name] + ns) == [SLASH] + name + rest;
    NextComponent(pre, name, rest);
    assert pre + ([SLASH] + name + rest) == pre + ([SLASH] + name) + rest;
  }

  /** fdt_path_offset of a node's path finds the node, for the root at offset 0 and every
      resolvable node below it. */
  lemma {:induction false} PathOffsetIs(b: seq<byte>, t: Items, p: seq<nat>)
    requires Holds(b, t) && t.Node? && Trees(b, t) != [] && Resolvable(Trees(b, t)[0], p)
    ensures NamesTo(Trees(b, t)[0], p).Some?
    ensures var text := PathText(NamesTo(Trees(b, t)[0], p).value);
            PathOffset(b, if text == [] then [SLASH] else text) == NodeOffset(t, [0] + p)
  {
    assert Get(Trees(b, t), [0]) == Some(Trees(b, t)[0]);
    assert Addresses(b, t, [0]);
    Located(b, t, [0]);
    RwProbeDef(b);
    CtxSizeDef(Hole);
    PathFromIs(b, t, [0], p, []);
    var text := PathText(NamesTo(Trees(b, t)[0], p).value);
    assert [] + text == text;
    if text == [] {
      EmptyText(NamesTo(Trees(b, t)[0], p).value);
      assert p == [];
      assert SkipSlashes([SLASH], 0) == 1;
    }
  }

  lemma {:induction false} EmptyText(ns: seq<seq<byte>>)
    requires PathText(ns) == []
    ensures ns == []
  {
  }

  // ---- fdt_get_path ----

  ghost function CompBody(ns: seq<seq<byte>>): (t: seq<byte>)
    decreases |ns|, 1
  {
    if ns == [] then [] else Comp(ns[..|ns| - 1]) + ns[|ns| - 1] + [SLASH]
  }

  ghost predicate IsComp(ns: seq<seq<byte>>, t: seq<byte>)
    decreases |ns|, 2
  {
    forall z :: Unseal(z) ==> t == CompBody(ns)
  }

  /** The components of a path, each with a slash behind it; sealed. */
  ghost function Comp(ns: seq<seq<byte>>): (t: seq<byte>)
    decreases |ns|, 3
  {
    assert IsComp(ns, CompBody(ns));
    var t :| IsComp(ns, t);
    t
  }

  lemma {:induction false} CompDef(ns: seq<seq<byte>>)
    ensures Comp(ns) == CompBody(ns)
  {
    assert Unseal(0);
  }

  lemma {:induction false} CompPush(ns: seq<seq<byte>>, name: seq<byte>)
    ensures Comp(ns + [name]) == Comp(ns) + name + [SLASH]
  {
    CompDef(ns + [name]);
    assert (ns + [name])[..|ns|] == ns;
  }

  /** The innermost loop: bytes are taken off the end until a '/' ends what is left. */
  function CutBack(buf: seq<byte>): (r: seq<byte>)
    ensures |r| <= |buf| && r == buf[..|r|]
  {
    if buf == [] || buf[|buf| - 1] == SLASH then buf else CutBack(buf[..|buf| - 1])
  }

  function PopOne(buf: seq<byte>): seq<byte> { if buf == [] then [] else CutBack(buf[..|buf| - 1]) }

  /** The inner while loop. */
  function PopTo(buf: seq<byte>, pdepth: nat, depth: int): (r: (seq<byte>, nat))
    ensures r.1 <= pdepth
    decreases pdepth
  {
    if pdepth > depth && pdepth > 0 then PopTo(PopOne(buf), pdepth - 1, depth) else (buf, pdepth)
  }

  datatype PathResult = PathResult(code: int, text: seq<byte>)

  /** The visit of one node: buffer contents and pdepth afterwards. */
  function PathVisit(buf: seq<byte>, pdepth: nat, depth: int, name: seq<byte>, buflen: int): (seq<byte>, nat) {
    var (buf1, pd1) := PopTo(buf, pdepth, depth);
    if pd1 >= depth && |buf1| + |name| + 1 <= buflen then (buf1 + name + [SLASH], pd1 + 1) else (buf1, pd1)
  }

  /** The loop of fdt_get_path; the codes of failing name lookups are merged into INTERNAL. */
  ghost function PathLoop(b: seq<byte>, off: int, depth: int, target: int, buflen: int, buf: seq<byte>,
    pdepth: nat): PathResult
    requires Buf(b) && off < 0x8000_0000
    decreases 0x8000_0000 - off
  {
    if off < 0 || off > target then PathResult(SuperEnd(off), [])
    else if GetName(b, off).None? then PathResult(INTERNAL, [])
    else
      var (buf', pd) := PathVisit(buf, pdepth, depth, GetName(b, off).value, buflen);
      if off == target then
        if pd < depth + 1 then PathResult(NOSPACE, [])
        else PathResult(0, if |buf'| > 1 then buf'[..|buf'| - 1] else buf')
      else
        NextTagBound(b, off);
        NextNodeBound(b, NextTag(b, off).1, depth, true);
        var (o, d) := NextNode(b, off, depth, true);
        if o < 0 then PathResult(SuperEnd(o), []) else if o <= off then PathResult(DIVERGES, [])
          else PathLoop(b, o, d, target, buflen, buf', pd)
  }

  ghost function GetPath(b: seq<byte>, target: int, buflen: int): PathResult
    requires Buf(b)
  {
    if RoProbe(b) < 0 then PathResult(RoProbe(b), []) else if buflen < 2 then PathResult(NOSPACE, [])
    else PathLoop(b, 0, 0, target, buflen, [], 0)
  }

  // ---- the buffer as a stack of components ----

  predicate NoSlash(name: seq<byte>) { SLASH !in name }

  predicate Plain(ns: seq<seq<byte>>) { forall i | 0 <= i < |ns| :: NoSlash(ns[i]) }

  function Trim(st: seq<seq<byte>>, n: int): seq<seq<byte>> { if 0 <= n < |st| then st[..n] else st }

  lemma {:induction false} CutBackIs(x: seq<byte>, name: seq<byte>)
    requires SLASH !in name && (x == [] || x[|x| - 1] == SLASH)
    ensures CutBack(x + name) == x
    decreases |name|
  {
    if name == [] {
      assert x + name == x;
    } else {
      var y := x + name;
      assert y[..|y| - 1] == x + name[..|name| - 1] && y[|y| - 1] == name[|name| - 1];
      CutBackIs(x, name[..|name| - 1]);
    }
  }

  lemma {:induction false} PopToIs(st: seq<seq<byte>>, depth: int)
    requires Plain(st) && depth >= 0
    ensures PopTo(Comp(st), |st|, depth) == (Comp(Trim(st, depth)), |Trim(st, depth)|)
    decreases |st|
  {
    if |st| > depth {
      var init := st[..|st| - 1];
      PopOneIs(st);
      PopToIs(init, depth);
      PopStep(Comp(st), Comp(init), |st|, depth);
      assert Trim(init, depth) == Trim(st, depth);
    }
  }

  lemma {:induction false} PopStep(buf: seq<byte>, buf': seq<byte>, n: nat, depth: int)
    requires n > depth && n > 0 && PopOne(buf) == buf'
    ensures PopTo(buf, n, depth) == PopTo(buf', n - 1, depth)
  {
  }

  lemma {:induction false} PopOneIs(st: seq<seq<byte>>)
    requires st != [] && Plain(st)
    ensures PopOne(Comp(st)) == Comp(st[..|st| - 1])
  {
    var init, name := st[..|st| - 1], st[|st| - 1];
    CompDef(st);
    CompDef(init);
    var x := Comp(init) + name;
    assert (x + [SLASH])[..|x|] == x;
    assert NoSlash(name);
    CutBackIs(Comp(init), name);
  }

  ghost function PushBody(st: seq<seq<byte>>, depth: int, name: seq<byte>, buflen: int): seq<seq<byte>> {
    var s := Trim(st, depth);
    if |s| >= depth && |Comp(s)| + |name| + 1 <= buflen then s + [name] else s
  }

  ghost predicate IsPush(st: seq<seq<byte>>, depth: int, name: seq<byte>, buflen: int, r: seq<seq<byte>>) {
    forall z :: Unseal(z) ==> r == PushBody(st, depth, name, buflen)
  }

  /** The visit of a node, on the stack; sealed. */
  ghost function Push(st: seq<seq<byte>>, depth: int, name: seq<byte>, buflen: int): seq<seq<byte>> {
    assert IsPush(st, depth, name, buflen, PushBody(st, depth, name, buflen));
    var r :| IsPush(st, depth, name, buflen, r);
    r
  }

  lemma {:induction false} PushDef(st: seq<seq<byte>>, depth: int, name: seq<byte>, buflen: int)
    ensures Push(st, depth, name, buflen) == PushBody(st, depth, name, buflen)
  {
    assert Unseal(0);
  }

  lemma {:induction false} PathVisitIs(st: seq<seq<byte>>, depth: int, name: seq<byte>, buflen: int)
    requires Plain(st) && depth >= 0 && SLASH !in name
    ensures var r := Push(st, depth, name, buflen);
              Plain(r) &&
              PathVisit(Comp(st), |st|, depth, name, buflen) == (Comp(r), |r|)
  {
    PushDef(st, depth, name, buflen);
    PopToIs(st, depth);
    CompPush(Trim(st, depth), name);
  }

  predicate AgreeBody(st: seq<seq<byte>>, st': seq<seq<byte>>, n: int) {
    Plain(st) && Plain(st') && Trim(st, n) == Trim(st', n)
  }

  ghost predicate IsAgree(st: seq<seq<byte>>, st': seq<seq<byte>>, n: int, r: bool) {
    forall z :: Unseal(z) ==> r == AgreeBody(st, st', n)
  }

  /** The two stacks have the same lowest n components; sealed. */
  ghost predicate Agree(st: seq<seq<byte>>, st': seq<seq<byte>>, n: int) {
    assert IsAgree(st, st', n, AgreeBody(st, st', n));
    var r :| IsAgree(st, st', n, r);
    r
  }

  lemma {:induction false} AgreeDef(st: seq<seq<byte>>, st': seq<seq<byte>>, n: int)
    ensures Agree(st, st', n) == AgreeBody(st, st', n)
  {
    assert Unseal(0);
  }

  lemma {:induction false} AgreeTrans(st: seq<seq<byte>>, st1: seq<seq<byte>>, st2: seq<seq<byte>>, n: int)
    requires Agree(st, st1, n) && Agree(st1, st2, n)
    ensures Agree(st, st2, n) && Plain(st2)
  {
    AgreeDef(st, st1, n);
    AgreeDef(st1, st2, n);
    AgreeDef(st, st2, n);
  }

  /** What is pushed above the lowest n components is gone again below. */
  lemma {:induction false} AgreePush(st: seq<seq<byte>>, st2: seq<seq<byte>>, n: int, name: seq<byte>, buflen: int)
    requires n > 0 && Plain(st) && Agree(Push(st, n, name, buflen), st2, n + 1)
    ensures Agree(st, st2, n)
  {
    var st1 := Push(st, n, name, buflen);
    PushDef(st, n, name, buflen);
    AgreeDef(st1, st2, n + 1);
    AgreeDef(st, st2, n);
    assert Trim(Trim(st2, n + 1), n) == Trim(st2, n);
    assert Trim(Trim(st1, n + 1), n) == Trim(st1, n);
    assert Trim(st1, n) == Trim(st, n);
  }

  /** The names that fit, from the root down. */
  ghost function Fit(ns: seq<seq<byte>>, buflen: int): (r: seq<seq<byte>>)
    ensures |r| <= |ns| && r == ns[..|r|]
  {
    if ns == [] then []
    else
      var f := Fit(ns[..|ns| - 1], buflen);
      if |f| == |ns| - 1 && |Comp(f)| + |ns[|ns| - 1]| + 1 <= buflen then ns else f
  }

  ghost predicate StackedBody(st: seq<seq<byte>>, ns: seq<seq<byte>>, buflen: int) {
    Plain(st) && Trim(st, |ns|) == Fit(ns, buflen)
  }

  ghost predicate IsStacked(st: seq<seq<byte>>, ns: seq<seq<byte>>, buflen: int, r: bool) {
    forall z :: Unseal(z) ==> r == StackedBody(st, ns, buflen)
  }

  /** The lowest components are those of the names ns, as far as they fit; sealed. */
  ghost predicate Stacked(st: seq<seq<byte>>, ns: seq<seq<byte>>, buflen: int) {
    assert IsStacked(st, ns, buflen, StackedBody(st, ns, buflen));
    var r :| IsStacked(st, ns, buflen, r);
    r
  }

  lemma {:induction false} StackedDef(st: seq<seq<byte>>, ns: seq<seq<byte>>, buflen: int)
    ensures Stacked(st, ns, buflen) == StackedBody(st, ns, buflen)
  {
    assert Unseal(0);
  }

  lemma {:induction false} StackedAgree(st: seq<seq<byte>>, st': seq<seq<byte>>, ns: seq<seq<byte>>, buflen: int)
    requires Stacked(st, ns, buflen) && Agree(st, st', |ns|)
    ensures Stacked(st', ns, buflen)
  {
    StackedDef(st, ns, buflen);
    StackedDef(st', ns, buflen);
    AgreeDef(st, st', |ns|);
  }

  lemma {:induction false} StackedPush(st: seq<seq<byte>>, ns: seq<seq<byte>>, name: seq<byte>, buflen: int)
    requires Stacked(st, ns, buflen) && SLASH !in name
    ensures Plain(st) && Stacked(Push(st, |ns|, name, buflen), ns + [name], buflen)
  {
    StackedDef(st, ns, buflen);
    PushFits(st, ns, name, buflen);
    StackedDef(Push(st, |ns|, name, buflen), ns + [name], buflen);
  }

  lemma {:induction false} PushFits(st: seq<seq<byte>>, ns: seq<seq<byte>>, name: seq<byte>, buflen: int)
    requires Stacked(st, ns, buflen)
    ensures Push(st, |ns|, name, buflen) == Fit(ns + [name], buflen)
  {
    StackedDef(st, ns, buflen);
    PushDef(st, |ns|, name, buflen);
    assert (ns + [name])[..|ns|] == ns;
  }

  lemma {:induction false} FitAll(ns: seq<seq<byte>>, buflen: int)
    ensures Fit(ns, buflen) == ns <==> ns == [] || |Comp(ns)| <= buflen
    decreases |ns|
  {
    CompDef(ns);
    if ns != [] {
      FitAll(ns[..|ns| - 1], buflen);
    }
  }

  // ---- the loop against the items ----

  predicate PlainItems(t: Items) {
    match t
    case Nil => true
    case Leaf(_, next) => PlainItems(next)
    case Node(name, body, next) => SLASH !in name && PlainItems(body) && PlainItems(next)
  }

  /** The loop goes on from the token at pos, with the components st in the buffer. */
  ghost function PathGoes(b: seq<byte>, pos: int, depth: int, target: int, buflen: int, st: seq<seq<byte>>): PathResult
    requires Buf(b) && pos < 0x8000_0000
  {
    NextNodeBound(b, pos, depth, true);
    var (o, d) := NextNodeLoop(b, pos, depth, true);
    PathLoop(b, o, d, target, buflen, Comp(st), |st|)
  }

  lemma {:induction false} PathOpen(b: seq<byte>, o: int, name: seq<byte>, depth: int, target: int, buflen: int,
    st: seq<seq<byte>>)
    requires Sane(b) && On(b, o, Open(name)) && o < target && depth >= 0 && Plain(st) && SLASH !in name
    ensures 0 <= o < 0x8000_0000 && o + OpenSize(|name|) < 0x8000_0000 && Plain(Push(st, depth, name, buflen))
    ensures PathLoop(b, o, depth, target, buflen, Comp(st), |st|) ==
            PathGoes(b, o + OpenSize(|name|), depth, target, buflen, Push(st, depth, name, buflen))
  {
    NextNodeOpen(b, o, Open(name), depth);
    NextNodeBound(b, o + OpenSize(|name|), depth, true);
    OnStep(b, o, Open(name));
    GetNameIs(b, o, name);
    PathVisitIs(st, depth, name, buflen);
  }

  /** Passing over complete items leaves the components of the nodes around them. */
  ghost predicate PathPasses(b: seq<byte>, o: int, e: int, depth: int, target: int, buflen: int, st: seq<seq<byte>>)
    requires Buf(b) && o < 0x8000_0000 && e < 0x8000_0000
  {
    exists st' :: Agree(st, st', depth + 1) && Plain(st') &&
      PathGoes(b, o, depth, target, buflen, st) == PathGoes(b, e, depth, target, buflen, st')
  }

  lemma {:induction false} PathPass(b: seq<byte>, o: int, t: Items, depth: int, target: int, buflen: int,
    st: seq<seq<byte>>)
    requires Sane(b) && Aligned(o) && Lies(Struct(b), o, t) && PlainItems(t) && depth >= 0 && 0 <= o &&
             o + Size(t) <= SizeStruct(b) && o + Size(t) <= target && Plain(st)
    ensures PathPasses(b, o, o + Size(t), depth, target, buflen, st)
    decreases t, 0
  {
    SizeDef(t);
    match t
    case Nil =>
      AgreeDef(st, st, depth + 1);
      assert PathGoes(b, o, depth, target, buflen, st) == PathGoes(b, o + Size(t), depth, target, buflen, st);
    case Leaf(tok, next) =>
      LiesLeaf(Struct(b), o, tok, next);
      OnStep(b, o, tok);
      NextNodeLeaf(b, o, tok, depth);
      PathPass(b, o + TokSize(tok), next, depth, target, buflen, st);
    case Node(name, body, next) =>
      LiesNode(Struct(b), o, name, body, next);
      var e := o + NodeSize(name, body);
      PathPassNode(b, o, name, body, depth, target, buflen, st);
      var st1 :| Agree(st, st1, depth + 1) && Plain(st1) &&
        PathGoes(b, o, depth, target, buflen, st) == PathGoes(b, e, depth, target, buflen, st1);
      PathPass(b, e, next, depth, target, buflen, st1);
      var st2 :| Agree(st1, st2, depth + 1) && Plain(st2) &&
        PathGoes(b, e, depth, target, buflen, st1) == PathGoes(b, o + Size(t), depth, target, buflen, st2);
      AgreeTrans(st, st1, st2, depth + 1);
  }

  lemma {:induction false} PathPassNode(b: seq<byte>, o: int, name: seq<byte>, body: Items, depth: int, target: int,
    buflen: int, st: seq<seq<byte>>)
    requires Sane(b) && Aligned(o) && NodeLies(Struct(b), o, name, body) && SLASH !in name && PlainItems(body) &&
             depth >= 0 && o + NodeSize(name, body) <= target && Plain(st)
    ensures 0 <= o && o + NodeSize(name, body) <= SizeStruct(b) && Aligned(o + NodeSize(name, body))
    ensures PathPasses(b, o, o + NodeSize(name, body), depth, target, buflen, st)
    decreases body, 1
  {
    var m, e := NodeTags(b, o, name, body);
    NextNodeOpen(b, o, Open(name), depth);
    PathOpen(b, o, name, depth + 1, target, buflen, st);
    var st1 := Push(st, depth + 1, name, buflen);
    PathPass(b, m, body, depth + 1, target, buflen, st1);
    var st2 :| Agree(st1, st2, depth + 2) && Plain(st2) &&
      PathGoes(b, m, depth + 1, target, buflen, st1) == PathGoes(b, e, depth + 1, target, buflen, st2);
    NextNodeClose(b, e, depth + 1);
    AgreePush(st, st2, depth + 1, name, buflen);
    assert PathGoes(b, o, depth, target, buflen, st) == PathGoes(b, e + 4, depth, target, buflen, st2);
  }

  /** The names of the nodes that the hole lies in, and of the node in it. */
  function CtxNames(c: Ctx, n: Items): seq<seq<byte>>
    requires n.Node?
  {
    match c
    case Hole => [n.name]
    case AfterLeaf(_, rest) => CtxNames(rest, n)
    case AfterNode(_, _, rest) => CtxNames(rest, n)
    case Inside(name, rest, _) => [name] + CtxNames(rest, n)
  }

  ghost function PathOfBody(ns: seq<seq<byte>>, buflen: int): PathResult {
    var text := Comp(ns);
    if |text| > buflen then PathResult(NOSPACE, []) else PathResult(0, if |text| > 1 then text[..|text| - 1] else text)
  }

  ghost predicate IsPathOf(ns: seq<seq<byte>>, buflen: int, r: PathResult) {
    forall z :: Unseal(z) ==> r == PathOfBody(ns, buflen)
  }

  /** What fdt_get_path returns for a node with these names from the root on; sealed. */
  ghost function PathOfNames(ns: seq<seq<byte>>, buflen: int): PathResult {
    assert IsPathOf(ns, buflen, PathOfBody(ns, buflen));
    var r :| IsPathOf(ns, buflen, r);
    r
  }

  lemma {:induction false} PathOfDef(ns: seq<seq<byte>>, buflen: int)
    ensures PathOfNames(ns, buflen) == PathOfBody(ns, buflen)
  {
    assert Unseal(0);
  }

  lemma {:induction false} PathInto(b: seq<byte>, o: int, c: Ctx, n: Items, target: int, buflen: int,
    ns: seq<seq<byte>>, st: seq<seq<byte>>)
    requires Sane(b) && Aligned(o) && n.Node? && Lies(Struct(b), o, Plug(c, n)) && PlainItems(Plug(c, n)) &&
             0 <= o && o + Size(Plug(c, n)) <= SizeStruct(b)
    requires target == o + PreSize(c) && ns != [] && Stacked(st, ns, buflen)
    ensures PathGoes(b, o, |ns| - 1, target, buflen, st) == PathOfNames(ns + CtxNames(c, n), buflen)
    decreases c
  {
    CtxSizeDef(c);
    SizeDef(Plug(c, n));
    var depth := |ns| - 1;
    match c
    case Hole =>
      LiesNode(Struct(b), o, n.name, n.body, n.next);
      NextNodeOpen(b, o, Open(n.name), depth);
      PathArrives(b, o, n.name, ns, buflen, st);
    case AfterLeaf(tok, rest) =>
      LiesLeaf(Struct(b), o, tok, Plug(rest, n));
      OnStep(b, o, tok);
      NextNodeLeaf(b, o, tok, depth);
      PathInto(b, o + TokSize(tok), rest, n, target, buflen, ns, st);
    case AfterNode(name, body, rest) => PathAfter(b, o, c, n, target, buflen, ns, st);
    case Inside(name, rest, next) => PathInside(b, o, c, n, target, buflen, ns, st);
  }

  lemma {:induction false} PathAfter(b: seq<byte>, o: int, c: Ctx, n: Items, target: int, buflen: int,
    ns: seq<seq<byte>>, st: seq<seq<byte>>)
    requires Sane(b) && Aligned(o) && n.Node? && Lies(Struct(b), o, Plug(c, n)) && PlainItems(Plug(c, n)) &&
             0 <= o && o + Size(Plug(c, n)) <= SizeStruct(b)
    requires target == o + PreSize(c) && ns != [] && Stacked(st, ns, buflen) && c.AfterNode?
    ensures PathGoes(b, o, |ns| - 1, target, buflen, st) == PathOfNames(ns + CtxNames(c, n), buflen)
    decreases c, 0
  {
    CtxSizeDef(c);
    SizeDef(Plug(c, n));
    LiesNode(Struct(b), o, c.name, c.body, Plug(c.rest, n));
    var e, depth := o + NodeSize(c.name, c.body), |ns| - 1;
    StackedDef(st, ns, buflen);
    PathPassNode(b, o, c.name, c.body, depth, target, buflen, st);
    var st1 :| Agree(st, st1, depth + 1) && Plain(st1) &&
      PathGoes(b, o, depth, target, buflen, st) == PathGoes(b, e, depth, target, buflen, st1);
    StackedAgree(st, st1, ns, buflen);
    PathInto(b, e, c.rest, n, target, buflen, ns, st1);
  }

  lemma {:induction false} PathInside(b: seq<byte>, o: int, c: Ctx, n: Items, target: int, buflen: int,
    ns: seq<seq<byte>>, st: seq<seq<byte>>)
    requires Sane(b) && Aligned(o) && n.Node? && Lies(Struct(b), o, Plug(c, n)) && PlainItems(Plug(c, n)) &&
             0 <= o && o + Size(Plug(c, n)) <= SizeStruct(b)
    requires target == o + PreSize(c) && ns != [] && Stacked(st, ns, buflen) && c.Inside?
    ensures PathGoes(b, o, |ns| - 1, target, buflen, st) == PathOfNames(ns + CtxNames(c, n), buflen)
    decreases c, 0
  {
    CtxSizeDef(c);
    SizeDef(Plug(c, n));
    var body := Plug(c.rest, n);
    LiesNode(Struct(b), o, c.name, body, c.next);
    var m, e := NodeTags(b, o, c.name, body);
    NextNodeOpen(b, o, Open(c.name), |ns| - 1);
    StackedPush(st, ns, c.name, buflen);
    PathOpen(b, o, c.name, |ns|, target, buflen, st);
    var ns' := ns + [c.name];
    PathInto(b, m, c.rest, n, target, buflen, ns', Push(st, |ns|, c.name, buflen));
    assert ns' + CtxNames(c.rest, n) == ns + CtxNames(c, n);
  }

  lemma {:induction false} PathArrives(b: seq<byte>, o: int, name: seq<byte>, ns: seq<seq<byte>>, buflen: int,
    st: seq<seq<byte>>)
    requires Sane(b) && On(b, o, Open(name)) && SLASH !in name && Stacked(st, ns, buflen)
    ensures 0 <= o < 0x8000_0000 && PathLoop(b, o, |ns|, o, buflen, Comp(st), |st|) == PathOfNames(ns + [name], buflen)
  {
    OnStep(b, o, Open(name));
    GetNameIs(b, o, name);
    StackedPush(st, ns, name, buflen);
    PathVisitIs(st, |ns|, name, buflen);
    PushFits(st, ns, name, buflen);
    PathWritten(ns + [name], buflen);
  }

  lemma {:induction false} PathWritten(ns: seq<seq<byte>>, buflen: int)
    requires ns != []
    ensures var f := Fit(ns, buflen);
            PathOfNames(ns, buflen) ==
            if |f| < |ns| then PathResult(NOSPACE, [])
              else PathResult(0, if |Comp(f)| > 1 then Comp(f)[..|Comp(f)| - 1] else Comp(f))
  {
    PathOfDef(ns, buflen);
    FitAll(ns, buflen);
  }

  /** fdt_get_path succeeds iff the buffer has at least two bytes and room for the path and
      its NUL, and then writes the path: the names from the root down, joined by '/'. */
  lemma {:induction false} GetPathIs(b: seq<byte>, t: Items, p: seq<nat>, buflen: int)
    requires Addresses(b, t, p) && t.Node? && t.name == [] && p[0] == 0 && PlainItems(t)
    ensures ItemsAt(t, p).Node? &&
            GetPath(b, NodeOffset(t, p), buflen) ==
            if buflen < 2 then PathResult(NOSPACE, [])
            else PathOfNames(CtxNames(CtxAt(t, p), ItemsAt(t, p)), buflen)
  {
    Located(b, t, p);
    var c, n := CtxAt(t, p), ItemsAt(t, p);
    HoldsDef(b, t);
    SizeDef(t);
    AlignedConst();
    CompDef([]);
    LiesNode(Struct(b), 0, t.name, t.body, t.next);
    RwProbeDef(b);
    if buflen < 2 {
      return;
    }
    StackedDef([], [], buflen);
    if |p| == 1 {
      CtxSizeDef(c);
      PathArrives(b, 0, t.name, [], buflen, []);
      assert [] + [t.name] == [t.name];
    } else {
      GetPathBelow(b, t, p, buflen, c, n);
    }
  }

  lemma {:induction false} GetPathBelow(b: seq<byte>, t: Items, p: seq<nat>, buflen: int, c: Ctx, n: Items)
    requires Sane(b) && Lies(Struct(b), 0, t) && Size(t) <= SizeStruct(b) && t.Node? && |p| > 1 && p[0] == 0 &&
             PlainItems(t) && Stacked([], [], buflen)
    requires c == CtxAt(t, p) && Plug(c, n) == t && n.Node?
    ensures PathLoop(b, 0, 0, NodeOffset(t, p), buflen, Comp([]), 0) == PathOfNames(CtxNames(c, n), buflen)
  {
    AlignedConst();
    SizeDef(t);
    CtxSizeDef(c);
    LiesNode(Struct(b), 0, t.name, t.body, t.next);
    var m, e := NodeTags(b, 0, t.name, t.body);
    var d := CtxAt(t.body, p[1..]);
    assert c == Inside(t.name, d, t.next);
    StackedPush([], [], t.name, buflen);
    PathOpen(b, 0, t.name, 0, NodeOffset(t, p), buflen, []);
    assert [] + [t.name] == [t.name];
    PathInto(b, m, d, n, NodeOffset(t, p), buflen, [t.name], Push([], 0, t.name, buflen));
  }

  // ---- round trip ----

  lemma {:induction false} TextPush(ns: seq<seq<byte>>, name: seq<byte>)
    ensures PathText(ns + [name]) == PathText(ns) + [SLASH] + name
    decreases |ns|
  {
    if ns == [] {
      assert (ns + [name])[1..] == [];
    } else {
      TextPush(ns[1..], name);
      assert (ns + [name])[1..] == ns[1..] + [name];
    }
  }

  /** What is written for the names below a root with empty name. */
  lemma {:induction false} CompText(ns: seq<seq<byte>>)
    ensures Comp([[]] + ns) == (if ns == [] then [SLASH] else PathText(ns) + [SLASH])
    decreases |ns|
  {
    CompDef([]);
    if ns == [] {
      CompPush([], []);
      assert [[]] + ns == [] + [[]];
    } else {
      var init, name := ns[..|ns| - 1], ns[|ns| - 1];
      CompText(init);
      CompPush([[]] + init, name);
      TextPush(init, name);
      assert [[]] + ns == [[]] + init + [name] && ns == init + [name];
    }
  }

  lemma {:induction false} CtxNamesTo(t: Items, strs: seq<byte>, p: seq<nat>)
    requires |p| > 0 && Get(Forest(t, strs), p).Some?
    ensures ItemsAt(t, p).Node? && p[0] < |Forest(t, strs)| && NamesTo(Forest(t, strs)[p[0]], p[1..]).Some?
    ensures var tree := Forest(t, strs)[p[0]];
            CtxNames(CtxAt(t, p), ItemsAt(t, p)) == [tree.name] + NamesTo(tree, p[1..]).value
    decreases t
  {
    CtxOfPath(t, strs, p);
    match t
    case Nil =>
    case Leaf(tok, next) => CtxNamesTo(next, strs, p);
    case Node(name, body, next) =>
      if p[0] > 0 {
        var q := [p[0] - 1] + p[1..];
        assert q[1..] == p[1..] && [q[0] + 1] + q[1..] == p;
        ReplaceLater(TreeOf(name, body, strs), Forest(next, strs), q, []);
        CtxNamesTo(next, strs, q);
      } else if |p| == 1 {
        assert p[1..] == [];
      } else {
        assert p == [0] + p[1..];
        InsideForest(name, body, next, strs, p[1..], []);
        CtxNamesTo(body, strs, p[1..]);
      }
  }

  /** The path of a node; the root's is "/". */
  function FullPath(ns: seq<seq<byte>>): seq<byte> { if ns == [] then [SLASH] else PathText(ns) }

  /** fdt_get_path writes the path of every node iff the buffer has room for it and its NUL, and
      this path leads fdt_path_offset back to the node. */
  lemma {:induction false} PathRoundTrip(b: seq<byte>, t: Items, p: seq<nat>, buflen: int)
    requires Addresses(b, t, [0] + p) && t.Node? && t.name == [] && PlainItems(t)
    requires Trees(b, t) != [] && Resolvable(Trees(b, t)[0], p)
    ensures NamesTo(Trees(b, t)[0], p).Some?
    ensures var path := FullPath(NamesTo(Trees(b, t)[0], p).value);
            var o := NodeOffset(t, [0] + p);
            GetPath(b, o, buflen) == (if |path| < buflen then PathResult(0, path) else PathResult(NOSPACE, [])) &&
            path[0] == SLASH && PathOffset(b, path) == o
  {
    var q := [0] + p;
    GetPathIs(b, t, q, buflen);
    CtxNamesTo(t, Strings(b), q);
    assert q[1..] == p;
    PathOffsetIs(b, t, p);
    var ns := NamesTo(Trees(b, t)[0], p).value;
    CompText(ns);
    PathOfDef([[]] + ns, buflen);
    assert Trees(b, t)[0].name == [];
    var text := PathText(ns);
    if ns != [] {
      assert (text + [SLASH])[..|text|] == text;
    }
  }
}
