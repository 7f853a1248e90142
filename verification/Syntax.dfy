/** The structure block as a stream of tokens, and the item lists (FDT_NOP words
    included) that such a stream can spell: section 5.4 of the Devicetree
    Specification. */
module Syntax {
  import opened Bytes

  const FDT_BEGIN_NODE: int := 1
  const FDT_END_NODE: int := 2
  const FDT_PROP: int := 3
  const FDT_NOP: int := 4
  const FDT_END: int := 9

  // ---- tokens ----

  datatype Tok = Bad | End | Close | Nop | Prop(nameoff: int, val: seq<byte>) | Open(name: seq<byte>)

  ghost function PropSize(len: int): int { 12 + Align4(len) }

  ghost function OpenSize(namelen: int): int { 4 + Align4(namelen + 1) }

  ghost function TokSize(k: Tok): (n: nat) {
    match k
    case Prop(_, val) => PropSize(|val|)
    case Open(name) => OpenSize(|name|)
    case _ => 4
  }

  lemma {:induction false} TokSizeAligned(k: Tok)
    ensures Aligned(TokSize(k))
  {
    AlignedConst();
    match k
    case Prop(_, val) => AlignDef(|val|); AlignedAdd(12, Align4(|val|));
    case Open(name) => AlignDef(|name| + 1); AlignedAdd(4, Align4(|name| + 1));
    case _ =>
  }

  /** The bytes x followed by a NUL lie at o. */
  predicate NameAt(s: seq<byte>, o: int, x: seq<byte>) {
    0 <= o && o + |x| < |s| && s[o..o + |x|] == x && s[o + |x|] == 0 && NulFree(x)
  }

  /** Index of the first NUL at or after o, if there is one. */
  function NulIndex(s: seq<byte>, o: nat): (r: Option<nat>)
    requires o <= |s|
    ensures r.Some? ==> o <= r.value < |s| && s[r.value] == 0 && forall i | o <= i < r.value :: s[i] != 0
    ensures r.None? ==> forall i | o <= i < |s| :: s[i] != 0
    decreases |s| - o
  {
    if o == |s| then None
    else if s[o] == 0 then Some(o)
    else NulIndex(s, o + 1)
  }

  lemma {:induction false} NulIndexIs(s: seq<byte>, o: nat, x: seq<byte>)
    requires o <= |s|
    ensures NameAt(s, o, x) <==> NulIndex(s, o) == Some(o + |x|) && x == s[o..o + |x|]
  {
    if NameAt(s, o, x) {
      assert forall i | o <= i < o + |x| :: s[i] == x[i - o];
    }
  }

  /** The token k, alignment bytes included, lies in s at offset o. */
  ghost predicate Spells(s: seq<byte>, o: int, k: Tok) {
    0 <= o && o + TokSize(k) <= |s| &&
    var tag := Ld32(s, o);
    match k
    case Bad => false
    case End => tag == FDT_END
    case Close => tag == FDT_END_NODE
    case Nop => tag == FDT_NOP
    case Prop(nameoff, val) =>
      tag == FDT_PROP && Ld32(s, o + 4) == |val| && Ld32(s, o + 8) == nameoff && s[o + 12..o + 12 + |val|] == val
    case Open(name) => tag == FDT_BEGIN_NODE && NameAt(s, o + 4, name)
  }

  /** At most one token is spelled at an offset. */
  lemma {:induction false} SpellsUnique(s: seq<byte>, o: int, k: Tok, l: Tok)
    requires Spells(s, o, k) && Spells(s, o, l)
    ensures k == l
  {
    if k.Open? {
      NulIndexIs(s, o + 4, k.name);
      NulIndexIs(s, o + 4, l.name);
    }
  }

  ghost function Spelled(s: seq<byte>, o: int): Tok {
    if exists k :: Spells(s, o, k) then var k :| Spells(s, o, k); k else Bad
  }

  ghost predicate IsTok(s: seq<byte>, o: int, k: Tok) { forall z :: Unseal(z) ==> k == Spelled(s, o) }

  /** The token spelled at offset o, Bad if there is none; sealed. */
  ghost function TokAt(s: seq<byte>, o: int): Tok {
    assert IsTok(s, o, Spelled(s, o));
    var k :| IsTok(s, o, k);
    k
  }

  lemma {:induction false} TokDef(s: seq<byte>, o: int)
    ensures TokAt(s, o) == Spelled(s, o)
  {
    assert Unseal(0);
  }

  lemma {:induction false} TokIs(s: seq<byte>, o: int, k: Tok)
    requires !k.Bad?
    ensures TokAt(s, o) == k <==> Spells(s, o, k)
  {
    TokDef(s, o);
    if Spells(s, o, k) {
      SpellsUnique(s, o, k, TokAt(s, o));
    }
  }

  lemma {:induction false} TokFits(s: seq<byte>, o: int)
    requires !TokAt(s, o).Bad?
    ensures 0 <= o && o + TokSize(TokAt(s, o)) <= |s|
  {
    TokIs(s, o, TokAt(s, o));
  }

  lemma {:induction false} OpenMoved(s: seq<byte>, o: int, s': seq<byte>, o': int, name: seq<byte>)
    requires Spells(s, o, Open(name)) && Same(s, o, s', o', OpenSize(|name|))
    ensures NameAt(s', o' + 4, name)
  {
    var n := OpenSize(|name|);
    SamePart(s, o, s', o', n, 4, |name|);
    SameDef(s, o + 4, s', o' + 4, |name|);
    SamePart(s, o, s', o', n, 4 + |name|, 1);
    SameDef(s, o + (4 + |name|), s', o' + (4 + |name|), 1);
    assert s'[o' + 4 + |name|] == s'[o' + (4 + |name|)..o' + (4 + |name|) + 1][0];
    assert s[o + 4 + |name|] == s[o + (4 + |name|)..o + (4 + |name|) + 1][0];
  }

  /** A token depends on no byte outside its own range. */
  lemma {:induction false} TokMoved(s: seq<byte>, o: int, s': seq<byte>, o': int)
    requires !TokAt(s, o).Bad? && Same(s, o, s', o', TokSize(TokAt(s, o)))
    ensures TokAt(s', o') == TokAt(s, o)
  {
    var k := TokAt(s, o);
    var n := TokSize(k);
    TokIs(s, o, k);
    SamePart(s, o, s', o', n, 0, 4);
    LdSame(s, o, s', o');
    match k {
      case Prop(nameoff, val) =>
        SamePart(s, o, s', o', n, 4, 4);
        LdSame(s, o + 4, s', o' + 4);
        SamePart(s, o, s', o', n, 8, 4);
        LdSame(s, o + 8, s', o' + 8);
        SamePart(s, o, s', o', n, 12, |val|);
        SameDef(s, o + 12, s', o' + 12, |val|);
      case Open(name) => OpenMoved(s, o, s', o', name);
      case _ =>
    }
    TokIs(s', o', k);
  }

  // ---- items ----

  predicate IsLeaf(k: Tok) { k.Nop? || k.Prop? }

  /** The items of one node body, in first-child / next-sibling form: a leaf is
      an FDT_NOP or a property. */
  datatype Items = Nil | Leaf(tok: Tok, next: Items) | Node(name: seq<byte>, body: Items, next: Items)

  ghost function SizeBody(t: Items): nat
    decreases t, 1
  {
    match t
    case Nil => 0
    case Leaf(tok, next) => TokSize(tok) + Size(next)
    case Node(name, body, next) => OpenSize(|name|) + Size(body) + 4 + Size(next)
  }

  ghost predicate IsSize(t: Items, n: nat)
    decreases t, 2
  {
    forall z :: Unseal(z) ==> n == SizeBody(t)
  }

  /** Number of bytes the items occupy; sealed. */
  ghost function Size(t: Items): nat
    decreases t, 3
  {
    assert IsSize(t, SizeBody(t));
    var n: nat :| IsSize(t, n);
    n
  }

  lemma {:induction false} SizeDef(t: Items)
    ensures Size(t) == SizeBody(t)
  {
    assert Unseal(0);
  }

  ghost function NodeSize(name: seq<byte>, body: Items): nat { OpenSize(|name|) + Size(body) + 4 }

  lemma {:induction false} SizeAligned(t: Items)
    ensures Aligned(Size(t))
    decreases t, 0
  {
    SizeDef(t);
    AlignedConst();
    match t
    case Nil =>
    case Leaf(tok, next) =>
      TokSizeAligned(tok);
      SizeAligned(next);
      AlignedAdd(TokSize(tok), Size(next));
    case Node(name, body, next) =>
      NodeSizeAligned(name, body);
      SizeAligned(next);
      AlignedAdd(NodeSize(name, body), Size(next));
  }

  lemma {:induction false} NodeSizeAligned(name: seq<byte>, body: Items)
    ensures Aligned(NodeSize(name, body))
    decreases body, 1
  {
    TokSizeAligned(Open(name));
    SizeAligned(body);
    AlignedConst();
    AlignedAdd(OpenSize(|name|), Size(body));
    AlignedAdd(OpenSize(|name|) + Size(body), 4);
  }

  ghost predicate LiesBody(s: seq<byte>, o: int, t: Items)
    decreases t, 2
  {
    match t
    case Nil => true
    case Leaf(tok, next) => TokAt(s, o) == tok && IsLeaf(tok) && Lies(s, o + TokSize(tok), next)
    case Node(name, body, next) => NodeLies(s, o, name, body) && Lies(s, o + NodeSize(name, body), next)
  }

  ghost predicate IsLies(s: seq<byte>, o: int, t: Items, r: bool)
    decreases t, 3
  {
    forall z :: Unseal(z) ==> r == LiesBody(s, o, t)
  }

  /** The items are spelled by s from offset o on; sealed, see LiesNil, LiesLeaf and LiesNode. */
  ghost predicate Lies(s: seq<byte>, o: int, t: Items)
    decreases t, 4
  {
    assert IsLies(s, o, t, LiesBody(s, o, t));
    var r :| IsLies(s, o, t, r);
    r
  }

  /** A node, without its following siblings, lies at o. */
  ghost predicate NodeLies(s: seq<byte>, o: int, name: seq<byte>, body: Items)
    decreases body, 5
  {
    TokAt(s, o) == Open(name) && Lies(s, o + OpenSize(|name|), body) &&
    TokAt(s, o + OpenSize(|name|) + Size(body)) == Close
  }

  lemma {:induction false} LiesDef(s: seq<byte>, o: int, t: Items)
    ensures Lies(s, o, t) == LiesBody(s, o, t)
  {
    assert Unseal(0);
  }

  lemma {:induction false} LiesNil(s: seq<byte>, o: int)
    ensures Lies(s, o, Nil)
  {
    LiesDef(s, o, Nil);
  }

  lemma {:induction false} LiesLeaf(s: seq<byte>, o: int, tok: Tok, next: Items)
    ensures Lies(s, o, Leaf(tok, next)) <==> TokAt(s, o) == tok && IsLeaf(tok) && Lies(s, o + TokSize(tok), next)
  {
    LiesDef(s, o, Leaf(tok, next));
  }

  lemma {:induction false} LiesNode(s: seq<byte>, o: int, name: seq<byte>, body: Items, next: Items)
    ensures Lies(s, o, Node(name, body, next)) <==>
              NodeLies(s, o, name, body) &&
              Lies(s, o + NodeSize(name, body), next)
  {
    LiesDef(s, o, Node(name, body, next));
  }

  lemma {:induction false} LiesFits(s: seq<byte>, o: int, t: Items)
    requires Lies(s, o, t) && 0 <= o <= |s|
    ensures o + Size(t) <= |s|
    decreases t
  {
    SizeDef(t);
    match t
    case Nil =>
    case Leaf(tok, next) =>
      LiesLeaf(s, o, tok, next);
      TokFits(s, o);
      LiesFits(s, o + TokSize(tok), next);
    case Node(name, body, next) =>
      LiesNode(s, o, name, body, next);
      TokFits(s, o + OpenSize(|name|) + Size(body));
      LiesFits(s, o + NodeSize(name, body), next);
  }

  ghost predicate CarriesBody(s: seq<byte>, s': seq<byte>, d: int, o: int, n: int) {
    forall p | o <= p && TokAt(s, p) != Bad && p + TokSize(TokAt(s, p)) <= o + n :: TokAt(s', p + d) == TokAt(s, p)
  }

  ghost predicate IsCarries(s: seq<byte>, s': seq<byte>, d: int, o: int, n: int, r: bool) {
    forall z :: Unseal(z) ==> r == CarriesBody(s, s', d, o, n)
  }

  /** Every token in the n bytes of s from o is in s', d bytes further on; sealed. */
  ghost predicate Carries(s: seq<byte>, s': seq<byte>, d: int, o: int, n: int) {
    assert IsCarries(s, s', d, o, n, CarriesBody(s, s', d, o, n));
    var r :| IsCarries(s, s', d, o, n, r);
    r
  }

  lemma {:induction false} CarriesDef(s: seq<byte>, s': seq<byte>, d: int, o: int, n: int)
    ensures Carries(s, s', d, o, n) == CarriesBody(s, s', d, o, n)
  {
    assert Unseal(0);
  }

  lemma {:induction false} CarriesTok(s: seq<byte>, s': seq<byte>, d: int, o: int, n: int, p: int, k: Tok)
    requires Carries(s, s', d, o, n) && o <= p && TokAt(s, p) == k && k != Bad && p + TokSize(k) <= o + n
    ensures TokAt(s', p + d) == k
  {
    CarriesDef(s, s', d, o, n);
  }

  lemma {:induction false} SameCarries(s: seq<byte>, s': seq<byte>, d: int, o: int, n: int)
    requires Same(s, o, s', o + d, n)
    ensures Carries(s, s', d, o, n)
  {
    CarriesDef(s, s', d, o, n);
    forall p | o <= p && TokAt(s, p) != Bad && p + TokSize(TokAt(s, p)) <= o + n
      ensures TokAt(s', p + d) == TokAt(s, p)
    {
      SamePart(s, o, s', o + d, n, p - o, TokSize(TokAt(s, p)));
      TokMoved(s, p, s', p + d);
    }
  }

  /** Where items lie depends on no byte outside their own range. */
  lemma {:induction false} LiesMoved(s: seq<byte>, s': seq<byte>, d: int, o: int, n: int, p: int, t: Items)
    requires Carries(s, s', d, o, n) && o <= p && p + Size(t) <= o + n && Lies(s, p, t)
    ensures Lies(s', p + d, t)
    decreases t, 0
  {
    SizeDef(t);
    match t
    case Nil => LiesNil(s', p + d);
    case Leaf(tok, next) =>
      LiesLeaf(s, p, tok, next);
      CarriesTok(s, s', d, o, n, p, tok);
      LiesMoved(s, s', d, o, n, p + TokSize(tok), next);
      LiesLeaf(s', p + d, tok, next);
    case Node(name, body, next) =>
      LiesNode(s, p, name, body, next);
      NodeMoved(s, s', d, o, n, p, name, body);
      LiesMoved(s, s', d, o, n, p + NodeSize(name, body), next);
      LiesNode(s', p + d, name, body, next);
  }

  lemma {:induction false} NodeMoved(s: seq<byte>, s': seq<byte>, d: int, o: int, n: int, p: int, name: seq<byte>,
    body: Items)
    requires Carries(s, s', d, o, n) && o <= p && p + NodeSize(name, body) <= o + n && NodeLies(s, p, name, body)
    ensures NodeLies(s', p + d, name, body)
    decreases body, 1
  {
    var m := p + OpenSize(|name|);
    CarriesTok(s, s', d, o, n, p, Open(name));
    LiesMoved(s, s', d, o, n, m, body);
    CarriesTok(s, s', d, o, n, m + Size(body), Close);
  }

  lemma {:induction false} TailMoved(s: seq<byte>, o: int, s': seq<byte>, o': int, n: int, t: Items)
    requires Same(s, o, s', o', n) && Lies(s, o, t) && Size(t) <= n
    ensures Lies(s', o', t)
  {
    SameCarries(s, s', o' - o, o, n);
    LiesMoved(s, s', o' - o, o, n, o, t);
  }

  /** The token at e ends an item list. */
  ghost predicate Closed(s: seq<byte>, e: int) { TokAt(s, e) == End || TokAt(s, e) == Close }

  /** A block has at most one reading from a given offset. */
  lemma {:induction false} LiesUnique(s: seq<byte>, o: int, t: Items, u: Items)
    requires Lies(s, o, t) && Closed(s, o + Size(t)) && Lies(s, o, u) && Closed(s, o + Size(u))
    ensures t == u
    decreases t
  {
    SizeDef(t);
    SizeDef(u);
    if t.Leaf? { LiesLeaf(s, o, t.tok, t.next); }
    if u.Leaf? { LiesLeaf(s, o, u.tok, u.next); }
    if t.Node? { LiesNode(s, o, t.name, t.body, t.next); }
    if u.Node? { LiesNode(s, o, u.name, u.body, u.next); }
    if t.Leaf? {
      LiesUnique(s, o + TokSize(t.tok), t.next, u.next);
    } else if t.Node? {
      LiesUnique(s, o + OpenSize(|t.name|), t.body, u.body);
      LiesUnique(s, o + NodeSize(t.name, t.body), t.next, u.next);
    }
  }

  // ---- one node in its surroundings ----

  /** An item list with a hole where one node and its following siblings stand. */
  datatype Ctx =
    | Hole
    | AfterLeaf(tok: Tok, rest: Ctx)
    | AfterNode(name: seq<byte>, body: Items, rest: Ctx)
    | Inside(name: seq<byte>, rest: Ctx, next: Items)

  function Plug(c: Ctx, x: Items): Items {
    match c
    case Hole => x
    case AfterLeaf(tok, rest) => Leaf(tok, Plug(rest, x))
    case AfterNode(name, body, rest) => Node(name, body, Plug(rest, x))
    case Inside(name, rest, next) => Node(name, Plug(rest, x), next)
  }

  ghost function PreSizeBody(c: Ctx): nat
    decreases c, 1
  {
    match c
    case Hole => 0
    case AfterLeaf(tok, rest) => TokSize(tok) + PreSize(rest)
    case AfterNode(name, body, rest) => NodeSize(name, body) + PreSize(rest)
    case Inside(name, rest, _) => OpenSize(|name|) + PreSize(rest)
  }

  ghost predicate IsPreSize(c: Ctx, n: nat)
    decreases c, 2
  {
    forall z :: Unseal(z) ==> n == PreSizeBody(c)
  }

  /** Number of bytes before the hole; sealed. */
  ghost function PreSize(c: Ctx): nat
    decreases c, 3
  {
    assert IsPreSize(c, PreSizeBody(c));
    var n: nat :| IsPreSize(c, n);
    n
  }

  ghost function PostSizeBody(c: Ctx): nat
    decreases c, 1
  {
    match c
    case Hole => 0
    case AfterLeaf(_, rest) => PostSize(rest)
    case AfterNode(_, _, rest) => PostSize(rest)
    case Inside(_, rest, next) => PostSize(rest) + 4 + Size(next)
  }

  ghost predicate IsPostSize(c: Ctx, n: nat)
    decreases c, 2
  {
    forall z :: Unseal(z) ==> n == PostSizeBody(c)
  }

  /** Number of bytes after the items in the hole; sealed. */
  ghost function PostSize(c: Ctx): nat
    decreases c, 3
  {
    assert IsPostSize(c, PostSizeBody(c));
    var n: nat :| IsPostSize(c, n);
    n
  }

  lemma {:induction false} CtxSizeDef(c: Ctx)
    ensures PreSize(c) == PreSizeBody(c) && PostSize(c) == PostSizeBody(c)
  {
    assert Unseal(0);
  }

  lemma {:induction false} PlugSize(c: Ctx, x: Items)
    ensures Size(Plug(c, x)) == PreSize(c) + Size(x) + PostSize(c)
    decreases c
  {
    CtxSizeDef(c);
    SizeDef(Plug(c, x));
    if c != Hole {
      PlugSize(c.rest, x);
    }
  }

  lemma {:induction false} PlugLies(s: seq<byte>, o: int, c: Ctx, x: Items)
    requires Lies(s, o, Plug(c, x))
    ensures Lies(s, o + PreSize(c), x)
    decreases c
  {
    CtxSizeDef(c);
    match c
    case Hole =>
    case AfterLeaf(tok, rest) =>
      LiesLeaf(s, o, tok, Plug(rest, x));
      PlugLies(s, o + TokSize(tok), rest, x);
    case AfterNode(name, body, rest) =>
      LiesNode(s, o, name, body, Plug(rest, x));
      PlugLies(s, o + NodeSize(name, body), rest, x);
    case Inside(name, rest, next) =>
      LiesNode(s, o, name, Plug(rest, x), next);
      PlugLies(s, o + OpenSize(|name|), rest, x);
  }

  lemma {:induction false} PreSizeAligned(c: Ctx)
    ensures Aligned(PreSize(c))
    decreases c
  {
    CtxSizeDef(c);
    AlignedConst();
    match c
    case Hole =>
    case AfterLeaf(tok, rest) =>
      TokSizeAligned(tok); PreSizeAligned(rest); AlignedAdd(TokSize(tok), PreSize(rest));
    case AfterNode(name, body, rest) =>
      NodeSizeAligned(name, body); PreSizeAligned(rest); AlignedAdd(NodeSize(name, body), PreSize(rest));
    case Inside(name, rest, _) =>
      TokSizeAligned(Open(name)); PreSizeAligned(rest); AlignedAdd(OpenSize(|name|), PreSize(rest));
  }

  /** s' holds the tokens of s that end before h, and, d bytes further on, those from k to e. */
  ghost predicate Spliced(s: seq<byte>, s': seq<byte>, h: int, k: int, e: int, d: int) {
    Carries(s, s', 0, 0, h) && Carries(s, s', d, k, e - k)
  }

  /** Replacing the items x in the hole at h by x'. */
  lemma {:induction false} Replug(s: seq<byte>, s': seq<byte>, o: int, h: int, c: Ctx, x: Items, x': Items, e: int)
    requires Lies(s, o, Plug(c, x)) && Lies(s', h, x') && 0 <= o && h == o + PreSize(c)
    requires Spliced(s, s', h, h + Size(x), e, Size(x') - Size(x)) && h + Size(x) + PostSize(c) <= e
    ensures Lies(s', o, Plug(c, x'))
    decreases c, 0
  {
    CtxSizeDef(c);
    match c
    case Hole =>
    case AfterLeaf(tok, rest) =>
      LiesLeaf(s, o, tok, Plug(rest, x));
      CarriesTok(s, s', 0, 0, h, o, tok);
      Replug(s, s', o + TokSize(tok), h, rest, x, x', e);
      LiesLeaf(s', o, tok, Plug(rest, x'));
    case AfterNode(name, body, rest) =>
      LiesNode(s, o, name, body, Plug(rest, x));
      NodeMoved(s, s', 0, 0, h, o, name, body);
      Replug(s, s', o + NodeSize(name, body), h, rest, x, x', e);
      LiesNode(s', o, name, body, Plug(rest, x'));
    case Inside(name, rest, next) =>
      LiesNode(s, o, name, Plug(rest, x), next);
      Replug(s, s', o + OpenSize(|name|), h, rest, x, x', e);
      PlugSize(rest, x);
      PlugSize(rest, x');
      Reclose(s, s', o, h, name, Plug(rest, x), Plug(rest, x'), next, h + Size(x), e, Size(x') - Size(x));
  }

  lemma {:induction false} Reclose(s: seq<byte>, s': seq<byte>, o: int, h: int, name: seq<byte>, body: Items,
    body': Items, next: Items, k: int, e: int, d: int)
    requires NodeLies(s, o, name, body) && Lies(s, o + NodeSize(name, body), next) &&
             Lies(s', o + OpenSize(|name|), body')
    requires Spliced(s, s', h, k, e, d) && 0 <= o && o + OpenSize(|name|) <= h && Size(body') == Size(body) + d
    requires k <= o + OpenSize(|name|) + Size(body) && o + NodeSize(name, body) + Size(next) <= e
    ensures Lies(s', o, Node(name, body', next))
  {
    CarriesTok(s, s', 0, 0, h, o, Open(name));
    CloseMoved(s, s', d, k, e, o + OpenSize(|name|) + Size(body), next);
    LiesNode(s', o, name, body', next);
  }

  lemma {:induction false} CloseMoved(s: seq<byte>, s': seq<byte>, d: int, k: int, e: int, q: int, next: Items)
    requires Carries(s, s', d, k, e - k) && k <= q && q + 4 + Size(next) <= e
    requires TokAt(s, q) == Close && Lies(s, q + 4, next)
    ensures TokAt(s', q + d) == Close && Lies(s', q + 4 + d, next)
  {
    CarriesTok(s, s', d, k, e - k, q, Close);
    LiesMoved(s, s', d, k, e - k, q + 4, next);
  }

  // ---- contexts within contexts ----

  function Compose(c: Ctx, d: Ctx): Ctx {
    match c
    case Hole => d
    case AfterLeaf(tok, rest) => AfterLeaf(tok, Compose(rest, d))
    case AfterNode(name, body, rest) => AfterNode(name, body, Compose(rest, d))
    case Inside(name, rest, next) => Inside(name, Compose(rest, d), next)
  }

  lemma {:induction false} ComposeIs(c: Ctx, d: Ctx, x: Items)
    ensures Plug(Compose(c, d), x) == Plug(c, Plug(d, x))
    ensures PreSize(Compose(c, d)) == PreSize(c) + PreSize(d) && PostSize(Compose(c, d)) == PostSize(d) + PostSize(c)
    decreases c
  {
    CtxSizeDef(c);
    CtxSizeDef(Compose(c, d));
    if c != Hole {
      ComposeIs(c.rest, d, x);
    }
  }
}
