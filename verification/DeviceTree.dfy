/** Device trees, and the tree that an item list denotes given a strings block. */
module DeviceTree {
  import opened Bytes
  import opened Syntax

  datatype Property = Property(name: seq<byte>, val: seq<byte>)

  datatype Tree = Tree(name: seq<byte>, props: seq<Property>, kids: seq<Tree>)

  // ---- names ----

  ghost function StrBody(strs: seq<byte>, off: int): Option<seq<byte>> {
    if 0 <= off <= |strs| && NulIndex(strs, off).Some? then Some(strs[off..NulIndex(strs, off).value]) else None
  }

  ghost predicate IsStr(strs: seq<byte>, off: int, r: Option<seq<byte>>) {
    forall z :: Unseal(z) ==> r == StrBody(strs, off)
  }

  /** The NUL-terminated string at an offset of a strings block, if there is one; sealed. */
  ghost function StrAt(strs: seq<byte>, off: int): Option<seq<byte>> {
    assert IsStr(strs, off, StrBody(strs, off));
    var r :| IsStr(strs, off, r);
    r
  }

  lemma {:induction false} StrDef(strs: seq<byte>, off: int)
    ensures StrAt(strs, off) == StrBody(strs, off)
  {
    assert Unseal(0);
  }

  lemma {:induction false} StrIs(strs: seq<byte>, off: int, x: seq<byte>)
    ensures StrAt(strs, off) == Some(x) <==> NameAt(strs, off, x)
  {
    StrDef(strs, off);
    if 0 <= off <= |strs| {
      NulIndexIs(strs, off, x);
    }
  }

  /** Appending to a strings block leaves the strings in it as they were. */
  lemma {:induction false} StrAppend(strs: seq<byte>, more: seq<byte>, off: int)
    requires StrAt(strs, off).Some?
    ensures StrAt(strs + more, off) == StrAt(strs, off)
  {
    var x := StrAt(strs, off).value;
    StrIs(strs, off, x);
    assert (strs + more)[off..off + |x|] == strs[off..off + |x|];
    StrIs(strs + more, off, x);
  }

  // ---- denotation ----

  /** Every property name of the items is a string of the strings block. */
  ghost predicate Named(t: Items, strs: seq<byte>) {
    match t
    case Nil => true
    case Leaf(tok, next) => (tok.Prop? ==> StrAt(strs, tok.nameoff).Some?) && Named(next, strs)
    case Node(_, body, next) => Named(body, strs) && Named(next, strs)
  }

  predicate NoProps(t: Items) {
    match t
    case Nil => true
    case Leaf(tok, next) => !tok.Prop? && NoProps(next)
    case Node(_, _, next) => NoProps(next)
  }

  /** In every node the properties precede the subnodes. */
  predicate Ordered(t: Items) {
    match t
    case Nil => true
    case Leaf(_, next) => Ordered(next)
    case Node(_, body, next) => Ordered(body) && NoProps(next) && Ordered(next)
  }

  /** The properties among the items. */
  ghost function Props(t: Items, strs: seq<byte>): seq<Property> {
    match t
    case Nil => []
    case Leaf(tok, next) =>
      if tok.Prop? then [Property(StrAt(strs, tok.nameoff).GetOr([]), tok.val)] + Props(next, strs)
        else Props(next, strs)
    case Node(_, _, next) => Props(next, strs)
  }

  /** The subnodes among the items. */
  ghost function Forest(t: Items, strs: seq<byte>): seq<Tree>
    decreases t, 0
  {
    match t
    case Nil => []
    case Leaf(_, next) => Forest(next, strs)
    case Node(name, body, next) => [TreeOf(name, body, strs)] + Forest(next, strs)
  }

  ghost function TreeOf(name: seq<byte>, body: Items, strs: seq<byte>): Tree
    decreases body, 1
  {
    Tree(name, Props(body, strs), Forest(body, strs))
  }

  // ---- addressing ----

  /** Path of the node in the hole: child indices from the top level down. */
  function PathOf(c: Ctx): (p: seq<nat>)
    ensures |p| > 0
  {
    match c
    case Hole => [0]
    case AfterLeaf(_, rest) => PathOf(rest)
    case AfterNode(_, _, rest) => [PathOf(rest)[0] + 1] + PathOf(rest)[1..]
    case Inside(_, rest, _) => [0] + PathOf(rest)
  }

  /** The forest with the tree at the path replaced by zero or more trees. */
  function Replace(f: seq<Tree>, p: seq<nat>, ts: seq<Tree>): seq<Tree>
    decreases |p|
  {
    if |p| == 0 || p[0] >= |f| then f
    else if |p| == 1 then f[..p[0]] + ts + f[p[0] + 1..]
    else f[..p[0]] + [f[p[0]].(kids := Replace(f[p[0]].kids, p[1..], ts))] + f[p[0] + 1..]
  }

  function Get(f: seq<Tree>, p: seq<nat>): Option<Tree>
    decreases |p|
  {
    if |p| == 0 || p[0] >= |f| then None
    else if |p| == 1 then Some(f[p[0]])
    else Get(f[p[0]].kids, p[1..])
  }

  lemma {:induction false} DenotesAppend(t: Items, strs: seq<byte>, more: seq<byte>)
    requires Named(t, strs)
    ensures Named(t, strs + more) && Props(t, strs + more) == Props(t, strs) &&
            Forest(t, strs + more) == Forest(t, strs)
    decreases t
  {
    match t
    case Nil =>
    case Leaf(tok, next) =>
      if tok.Prop? {
        StrAppend(strs, more, tok.nameoff);
      }
      DenotesAppend(next, strs, more);
    case Node(name, body, next) =>
      DenotesAppend(body, strs, more);
      DenotesAppend(next, strs, more);
  }

  lemma {:induction false} PlugProps(c: Ctx, x: Items, x': Items, strs: seq<byte>)
    requires Props(x, strs) == Props(x', strs)
    ensures Props(Plug(c, x), strs) == Props(Plug(c, x'), strs)
    decreases c
  {
    if c.AfterLeaf? || c.AfterNode? {
      PlugProps(c.rest, x, x', strs);
    }
  }

  lemma {:induction false} ReplaceLater(a: Tree, f: seq<Tree>, p: seq<nat>, ts: seq<Tree>)
    requires |p| > 0 && p[0] < |f|
    ensures Replace([a] + f, [p[0] + 1] + p[1..], ts) == [a] + Replace(f, p, ts)
    ensures Get([a] + f, [p[0] + 1] + p[1..]) == Get(f, p)
  {
    var g, q, i := [a] + f, [p[0] + 1] + p[1..], p[0];
    assert q[1..] == p[1..];
    assert g[..i + 1] == [a] + f[..i] && g[i + 1] == f[i] && g[i + 2..] == f[i + 1..];
  }

  /** Replacing the node in the hole replaces the tree at its path, and nothing else. */
  lemma {:induction false} PlugForest(c: Ctx, x: Items, x': Items, strs: seq<byte>, ts: seq<Tree>)
    requires x.Node? && Props(x', strs) == Props(x, strs) && Forest(x', strs) == ts + Forest(x.next, strs)
    ensures PathOf(c)[0] < |Forest(Plug(c, x), strs)|
    ensures Get(Forest(Plug(c, x), strs), PathOf(c)) == Some(TreeOf(x.name, x.body, strs))
    ensures Forest(Plug(c, x'), strs) == Replace(Forest(Plug(c, x), strs), PathOf(c), ts)
    decreases c
  {
    match c
    case Hole => assert Forest(x, strs)[1..] == Forest(x.next, strs);
    case AfterLeaf(_, rest) => PlugForest(rest, x, x', strs, ts);
    case AfterNode(name, body, rest) =>
      PlugForest(rest, x, x', strs, ts);
      AfterForest(name, body, Plug(rest, x), Plug(rest, x'), strs, PathOf(rest), ts);
    case Inside(name, rest, next) =>
      PlugForest(rest, x, x', strs, ts);
      PlugProps(rest, x, x', strs);
      InsideForest(name, Plug(rest, x), next, strs, PathOf(rest), ts);
  }

  lemma {:induction false} AfterForest(name: seq<byte>, body: Items, y: Items, y': Items, strs: seq<byte>,
    p: seq<nat>, ts: seq<Tree>)
    requires |p| > 0 && p[0] < |Forest(y, strs)| && Forest(y', strs) == Replace(Forest(y, strs), p, ts)
    ensures var f, q := Forest(Node(name, body, y), strs), [p[0] + 1] + p[1..];
            q[0] < |f| && Get(f, q) == Get(Forest(y, strs), p) &&
              Forest(Node(name, body, y'), strs) == Replace(f, q, ts)
  {
    ReplaceLater(TreeOf(name, body, strs), Forest(y, strs), p, ts);
  }

  lemma {:induction false} InsideForest(name: seq<byte>, body: Items, next: Items, strs: seq<byte>, p: seq<nat>,
    ts: seq<Tree>)
    requires |p| > 0
    ensures var f := Forest(Node(name, body, next), strs);
            Replace(f, [0] + p, ts) == [Tree(name, Props(body, strs), Replace(Forest(body, strs), p, ts))] +
              Forest(next, strs) &&
            Get(f, [0] + p) == Get(Forest(body, strs), p)
  {
    var f := Forest(Node(name, body, next), strs);
    assert ([0] + p)[1..] == p;
    assert f[..0] == [] && f[1..] == Forest(next, strs);
  }

  // ---- every node is at the hole of some context ----

  /** The context of the tree at path p. */
  function CtxAt(t: Items, p: seq<nat>): (c: Ctx)
    requires |p| > 0
    decreases t
  {
    match t
    case Nil => Hole
    case Leaf(tok, next) => AfterLeaf(tok, CtxAt(next, p))
    case Node(name, body, next) =>
      if p[0] > 0 then AfterNode(name, body, CtxAt(next, [p[0] - 1] + p[1..]))
      else if |p| == 1 then Hole
      else Inside(name, CtxAt(body, p[1..]), next)
  }

  function ItemsAt(t: Items, p: seq<nat>): (x: Items)
    requires |p| > 0
    decreases t
  {
    match t
    case Nil => Nil
    case Leaf(tok, next) => ItemsAt(next, p)
    case Node(name, body, next) =>
      if p[0] > 0 then ItemsAt(next, [p[0] - 1] + p[1..])
      else if |p| == 1 then t
      else ItemsAt(body, p[1..])
  }

  /** Offset of the node at path p in the structure block. */
  ghost function NodeOffset(t: Items, p: seq<nat>): nat
    requires |p| > 0
  {
    PreSize(CtxAt(t, p))
  }

  lemma {:induction false} CtxAtPlug(c: Ctx, n: Items)
    requires n.Node?
    ensures CtxAt(Plug(c, n), PathOf(c)) == c && ItemsAt(Plug(c, n), PathOf(c)) == n
    decreases c
  {
    match c
    case Hole =>
    case AfterLeaf(_, rest) => CtxAtPlug(rest, n);
    case AfterNode(_, _, rest) =>
      CtxAtPlug(rest, n);
      var p, q := PathOf(c), PathOf(rest);
      assert p[1..] == q[1..] && [p[0] - 1] + p[1..] == q;
    case Inside(_, rest, _) =>
      CtxAtPlug(rest, n);
      assert PathOf(c)[1..] == PathOf(rest);
  }

  /** The node at p and all nodes it lies in have the same offsets in both. */
  ghost predicate SameOffsets(t: Items, t': Items, p: seq<nat>) {
    forall k | 0 < k <= |p| :: NodeOffset(t', p[..k]) == NodeOffset(t, p[..k])
  }

  lemma {:induction false} PrefixOffset(c: Ctx, n: Items, n': Items, k: nat)
    requires n.Node? && n'.Node? && 0 < k <= |PathOf(c)|
    ensures NodeOffset(Plug(c, n'), PathOf(c)[..k]) == NodeOffset(Plug(c, n), PathOf(c)[..k])
    decreases c
  {
    var p := PathOf(c);
    var t, t', q := Plug(c, n), Plug(c, n'), p[..k];
    CtxSizeDef(CtxAt(t, q));
    CtxSizeDef(CtxAt(t', q));
    match c
    case Hole =>
    case AfterLeaf(_, rest) => PrefixOffset(rest, n, n', k);
    case AfterNode(_, _, rest) =>
      PrefixOffset(rest, n, n', k);
      assert [q[0] - 1] + q[1..] == PathOf(rest)[..k];
    case Inside(_, rest, _) =>
      if k > 1 {
        PrefixOffset(rest, n, n', k - 1);
        assert q[1..] == PathOf(rest)[..k - 1];
      }
  }

  lemma {:induction false} PlugOffsets(c: Ctx, n: Items, n': Items)
    requires n.Node? && n'.Node?
    ensures SameOffsets(Plug(c, n), Plug(c, n'), PathOf(c))
  {
    forall k | 0 < k <= |PathOf(c)| ensures NodeOffset(Plug(c, n'), PathOf(c)[..k]) ==
      NodeOffset(Plug(c, n), PathOf(c)[..k]) {
      PrefixOffset(c, n, n', k);
    }
  }

  /** The context of the i-th subnode of the node in the hole. */
  lemma {:induction false} ChildCtx(c: Ctx, n: Items, i: nat)
    requires n.Node?
    ensures CtxAt(Plug(c, n), PathOf(c) + [i]) == Compose(c, Inside(n.name, CtxAt(n.body, [i]), n.next))
    ensures ItemsAt(Plug(c, n), PathOf(c) + [i]) == ItemsAt(n.body, [i])
    decreases c
  {
    var p := PathOf(c) + [i];
    match c
    case Hole => assert p[1..] == [i];
    case AfterLeaf(_, rest) => ChildCtx(rest, n, i);
    case AfterNode(_, _, rest) =>
      ChildCtx(rest, n, i);
      assert [p[0] - 1] + p[1..] == PathOf(rest) + [i];
    case Inside(_, rest, _) =>
      ChildCtx(rest, n, i);
      assert p[1..] == PathOf(rest) + [i];
  }

  lemma {:induction false} ChildOffset(c: Ctx, n: Items, i: nat)
    requires n.Node?
    ensures NodeOffset(Plug(c, n), PathOf(c) + [i]) == PreSize(c) + OpenSize(|n.name|) + PreSize(CtxAt(n.body, [i]))
  {
    ChildCtx(c, n, i);
    ComposeIs(c, Inside(n.name, CtxAt(n.body, [i]), n.next), Nil);
    CtxSizeDef(Inside(n.name, CtxAt(n.body, [i]), n.next));
  }

  /** Every tree of the forest is the node in the hole of its context. */
  lemma {:induction false} CtxOfPath(t: Items, strs: seq<byte>, p: seq<nat>)
    requires |p| > 0 && Get(Forest(t, strs), p).Some?
    ensures ItemsAt(t, p).Node? && Plug(CtxAt(t, p), ItemsAt(t, p)) == t && PathOf(CtxAt(t, p)) == p
    decreases t
  {
    match t
    case Nil =>
    case Leaf(tok, next) => CtxOfPath(next, strs, p);
    case Node(name, body, next) =>
      if p[0] > 0 {
        var q := [p[0] - 1] + p[1..];
        assert q[1..] == p[1..] && [q[0] + 1] + q[1..] == p;
        ReplaceLater(TreeOf(name, body, strs), Forest(next, strs), q, []);
        CtxOfPath(next, strs, q);
      } else if |p| == 1 {
        assert p == [0];
      } else {
        assert p == [0] + p[1..];
        InsideForest(name, body, next, strs, p[1..], []);
        CtxOfPath(body, strs, p[1..]);
      }
  }

  lemma {:induction false} NamedPlug(c: Ctx, x: Items, x': Items, strs: seq<byte>)
    requires Named(Plug(c, x), strs)
    ensures Named(x, strs) && (Named(x', strs) ==> Named(Plug(c, x'), strs))
    decreases c
  {
    if c != Hole {
      NamedPlug(c.rest, x, x', strs);
    }
  }

  lemma {:induction false} NoPropsPlug(c: Ctx, x: Items, x': Items)
    requires NoProps(Plug(c, x)) && (NoProps(x) ==> NoProps(x'))
    ensures NoProps(Plug(c, x'))
    decreases c
  {
    if c.AfterLeaf? || c.AfterNode? {
      NoPropsPlug(c.rest, x, x');
    }
  }

  lemma {:induction false} OrderedPlug(c: Ctx, x: Items, x': Items)
    requires Ordered(Plug(c, x))
    ensures Ordered(x)
    ensures Ordered(x') && (NoProps(x) ==> NoProps(x')) ==> Ordered(Plug(c, x'))
    decreases c
  {
    if c != Hole {
      OrderedPlug(c.rest, x, x');
      if c.AfterNode? && (NoProps(x) ==> NoProps(x')) {
        NoPropsPlug(c.rest, x, x');
      }
    }
  }

  ghost predicate IsProper(t: Items, strs: seq<byte>, r: bool) {
    forall z :: Unseal(z) ==> r == (Named(t, strs) && Ordered(t))
  }

  /** Every property name is in the strings block and properties precede subnodes; sealed. */
  ghost predicate Proper(t: Items, strs: seq<byte>) {
    assert IsProper(t, strs, Named(t, strs) && Ordered(t));
    var r :| IsProper(t, strs, r);
    r
  }

  lemma {:induction false} ProperDef(t: Items, strs: seq<byte>)
    ensures Proper(t, strs) <==> Named(t, strs) && Ordered(t)
  {
    assert Unseal(0);
  }

  lemma {:induction false} ProperAppend(t: Items, strs: seq<byte>, more: seq<byte>)
    requires Proper(t, strs)
    ensures Proper(t, strs + more)
  {
    ProperDef(t, strs);
    ProperDef(t, strs + more);
    DenotesAppend(t, strs, more);
  }

  lemma {:induction false} ProperPlug(c: Ctx, x: Items, x': Items, strs: seq<byte>)
    requires Proper(Plug(c, x), strs)
    ensures Proper(x, strs)
    ensures Proper(x', strs) && (NoProps(x) ==> NoProps(x')) ==> Proper(Plug(c, x'), strs)
  {
    ProperDef(Plug(c, x), strs);
    ProperDef(Plug(c, x'), strs);
    ProperDef(x, strs);
    ProperDef(x', strs);
    NamedPlug(c, x, x', strs);
    OrderedPlug(c, x, x');
  }

  lemma {:induction false} ProperLeaf(tok: Tok, next: Items, strs: seq<byte>)
    ensures Proper(Leaf(tok, next), strs) <==> (tok.Prop? ==> StrAt(strs, tok.nameoff).Some?) && Proper(next, strs)
  {
    ProperDef(Leaf(tok, next), strs);
    ProperDef(next, strs);
  }

  lemma {:induction false} ProperNode(name: seq<byte>, body: Items, next: Items, strs: seq<byte>)
    ensures Proper(Node(name, body, next), strs) <==> Proper(body, strs) && NoProps(next) && Proper(next, strs)
  {
    ProperDef(Node(name, body, next), strs);
    ProperDef(body, strs);
    ProperDef(next, strs);
  }

  // ---- tree updates ----

  predicate HasProp(ps: seq<Property>, name: seq<byte>) { exists i | 0 <= i < |ps| :: ps[i].name == name }

  /** The value of the first property of that name. */
  function Value(ps: seq<Property>, name: seq<byte>): Option<seq<byte>> {
    if ps == [] then None else if ps[0].name == name then Some(ps[0].val) else Value(ps[1..], name)
  }

  /** The value of the first property of that name is val. */
  function SetFirst(ps: seq<Property>, name: seq<byte>, val: seq<byte>): seq<Property> {
    if ps == [] then []
    else if ps[0].name == name then [Property(name, val)] + ps[1..]
    else [ps[0]] + SetFirst(ps[1..], name, val)
  }

  /** The first property of that name is gone. */
  function DropFirst(ps: seq<Property>, name: seq<byte>): seq<Property> {
    if ps == [] then []
    else if ps[0].name == name then ps[1..]
    else [ps[0]] + DropFirst(ps[1..], name)
  }

  /** The property has the value val; a new property comes first. */
  function WithProp(t: Tree, name: seq<byte>, val: seq<byte>): Tree {
    t.(props := if HasProp(t.props, name) then SetFirst(t.props, name, val) else [Property(name, val)] + t.props)
  }

  function WithoutProp(t: Tree, name: seq<byte>): Tree { t.(props := DropFirst(t.props, name)) }

  /** A new, empty first child. */
  function WithChild(t: Tree, name: seq<byte>): Tree { t.(kids := [Tree(name, [], [])] + t.kids) }
}
