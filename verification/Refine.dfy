/** Every edit of fdt_rw.c is the corresponding update of the tree. */
module Refine {
  import opened Bytes
  import opened Syntax
  import opened DeviceTree
  import opened Fdt
  import opened Walk
  import opened Blob
  import opened Lookup
  import opened Splice
  import opened Edit

  /** The structure block of b' is that of b with the bytes of x at h replaced by x'. */
  ghost predicate Replaced(b: seq<byte>, b': seq<byte>, h: int, x: Items, x': Items) {
    Sane(b) && Sane(b') && SizeStruct(b') == SizeStruct(b) - Size(x) + Size(x') &&
    Same(Struct(b), 0, Struct(b'), 0, h) &&
    Same(Struct(b), h + Size(x), Struct(b'), h + Size(x'), SizeStruct(b) - h - Size(x)) &&
    Lies(Struct(b'), h, x')
  }

  lemma {:induction false} ReplacedHolds(b: seq<byte>, b': seq<byte>, c: Ctx, h: int, x: Items, x': Items, t: Items,
    t': Items)
    requires Holds(b, t) && t == Plug(c, x) && t' == Plug(c, x') && h == PreSize(c) && Replaced(b, b', h, x, x')
    requires Proper(t', Strings(b'))
    ensures Holds(b', t')
  {
    HoldsDef(b, t);
    HoldsDef(b', t');
    PlugSize(c, x);
    PlugSize(c, x');
    BlockReplaced(Struct(b), Struct(b'), c, h, h + Size(x), h + Size(x'), x, x');
  }

  lemma {:induction false} BlockReplaced(s: seq<byte>, s': seq<byte>, c: Ctx, h: int, k: int, k': int, x: Items,
    x': Items)
    requires h == PreSize(c) && k == h + Size(x) && k' == h + Size(x') && |s'| == |s| - k + k' &&
             k + PostSize(c) == |s| - 4
    requires Lies(s, 0, Plug(c, x)) && TokAt(s, |s| - 4) == End && Lies(s', h, x')
    requires Same(s, 0, s', 0, h) && Same(s, k, s', k', |s| - k)
    ensures Lies(s', 0, Plug(c, x')) && TokAt(s', |s'| - 4) == End
  {
    SameCarries(s, s', k' - k, k, |s| - k);
    SameCarries(s, s', 0, 0, h);
    CarriesTok(s, s', k' - k, k, |s| - k, |s| - 4, End);
    Replug(s, s', 0, h, c, x, x', |s|);
  }

  /** What Holds says about one node. */
  lemma {:induction false} NodeFacts(b: seq<byte>, c: Ctx, n: Items)
    requires Holds(b, Plug(c, n)) && n.Node?
    ensures Aligned(PreSize(c)) && NodeLies(Struct(b), PreSize(c), n.name, n.body)
    ensures PreSize(c) + NodeSize(n.name, n.body) <= SizeStruct(b) && Lies(Struct(b), PreSize(c), n)
    ensures Proper(n, Strings(b)) && Proper(n.body, Strings(b)) && Named(n.body, Strings(b)) && RwProbe(b) == 0 &&
            Editable(b)
  {
    SizeDef(n);
    HoldsDef(b, Plug(c, n));
    PreSizeAligned(c);
    PlugLies(Struct(b), 0, c, n);
    LiesNode(Struct(b), PreSize(c), n.name, n.body, n.next);
    PlugSize(c, n);
    ProperPlug(c, n, n, Strings(b));
    ProperNode(n.name, n.body, n.next, Strings(b));
    ProperDef(n.body, Strings(b));
    RwProbeSane(b);
  }

  /** The context of an item of a node's body. */
  lemma {:induction false} BodyCtx(c: Ctx, n: Items, d: Ctx, x: Items, x': Items) returns (e: Ctx)
    requires n.Node?
    ensures Plug(e, x) == Plug(c, n.(body := Plug(d, x))) && Plug(e, x') == Plug(c, n.(body := Plug(d, x')))
    ensures PreSize(e) == PreSize(c) + OpenSize(|n.name|) + PreSize(d)
  {
    CtxSizeDef(Inside(n.name, d, n.next));
    e := Compose(c, Inside(n.name, d, n.next));
    ComposeIs(c, Inside(n.name, d, n.next), x);
    ComposeIs(c, Inside(n.name, d, n.next), x');
  }

  lemma {:induction false} BodyFits(c: Ctx, n: Items, body': Items, strs: seq<byte>)
    requires n.Node? && Proper(Plug(c, n), strs) && Proper(body', strs)
    ensures Proper(Plug(c, n.(body := body')), strs)
  {
    ProperPlug(c, n, n.(body := body'), strs);
    ProperNode(n.name, n.body, n.next, strs);
    ProperNode(n.name, body', n.next, strs);
  }

  /** A splice inside a node's body. */
  lemma {:induction false} BodyHolds(b: seq<byte>, b': seq<byte>, c: Ctx, n: Items, d: Ctx, h: int, x: Items, x': Items)
    requires n.Node? && n.body == Plug(d, x) && Holds(b, Plug(c, n))
    requires h == PreSize(c) + OpenSize(|n.name|) + PreSize(d) && Replaced(b, b', h, x, x')
    requires Proper(Plug(c, n), Strings(b')) && Proper(Plug(d, x'), Strings(b'))
    ensures Holds(b', Plug(c, n.(body := Plug(d, x'))))
  {
    BodyFits(c, n, Plug(d, x'), Strings(b'));
    var e := BodyCtx(c, n, d, x, x');
    ReplacedHolds(b, b', e, h, x, x', Plug(c, n), Plug(c, n.(body := Plug(d, x'))));
  }

  /** Changing a node's body or name changes the tree at its path and nothing else. */
  lemma {:induction false} NodeForest(c: Ctx, n: Items, n': Items, strs: seq<byte>)
    requires n.Node? && n'.Node? && n'.next == n.next
    ensures Get(Forest(Plug(c, n), strs), PathOf(c)) == Some(TreeOf(n.name, n.body, strs))
    ensures Forest(Plug(c, n'), strs) == Replace(Forest(Plug(c, n), strs), PathOf(c), [TreeOf(n'.name, n'.body, strs)])
    ensures NodeOffset(Plug(c, n), PathOf(c)) == PreSize(c) && SameOffsets(Plug(c, n), Plug(c, n'), PathOf(c))
  {
    CtxAtPlug(c, n);
    PlugOffsets(c, n, n');
    PlugForest(c, n, n', strs, [TreeOf(n'.name, n'.body, strs)]);
  }

  // ---- properties ----

  /** Context and tail of the first property of that name among the items. */
  ghost function PropCtx(t: Items, strs: seq<byte>, name: seq<byte>): Ctx {
    if !t.Leaf? || (t.tok.Prop? && StrAt(strs, t.tok.nameoff) == Some(name)) then Hole
    else AfterLeaf(t.tok, PropCtx(t.next, strs, name))
  }

  ghost function PropTail(t: Items, strs: seq<byte>, name: seq<byte>): Items {
    if !t.Leaf? || (t.tok.Prop? && StrAt(strs, t.tok.nameoff) == Some(name)) then t
    else PropTail(t.next, strs, name)
  }

  lemma {:induction false} PropSplit(t: Items, strs: seq<byte>, name: seq<byte>)
    ensures Plug(PropCtx(t, strs, name), PropTail(t, strs, name)) == t
    ensures FindProp(t, strs, name).Some? ==>
              PropTail(t, strs, name).Leaf? && PropTail(t, strs, name).tok.Prop? &&
              StrAt(strs, PropTail(t, strs, name).tok.nameoff) == Some(name) &&
              PreSize(PropCtx(t, strs, name)) == FindProp(t, strs, name).value
    decreases t
  {
    CtxSizeDef(PropCtx(t, strs, name));
    if t.Leaf? {
      PropSplit(t.next, strs, name);
    }
  }

  /** The bytes fdt_setprop leaves at the property: new length, old name offset, new value. */
  lemma {:induction false} PropRewritten(s: seq<byte>, s1: seq<byte>, p: int, k: Tok, val: seq<byte>, n: int)
    requires k.Prop? && Spells(s, p, k) && |val| < 0x1_0000_0000 && |s1| == p + PropSize(|val|) + n
    requires Same(s, 0, s1, 0, p + 12) && Same(s, p + TokSize(k), s1, p + PropSize(|val|), n)
    ensures var s2 := Put(Put(s1, p + 4, Be32(|val|)), p + 12, val);
            Spells(s2, p, Prop(k.nameoff, val)) && Same(s, 0, s2, 0, p) &&
              Same(s, p + TokSize(k), s2, p + PropSize(|val|), n)
  {
    var sa := Put(s1, p + 4, Be32(|val|));
    var s2 := Put(sa, p + 12, val);
    SamePart(s, 0, s1, 0, p + 12, p, 4);
    LdSame(s, p, s1, p);
    SamePart(s, 0, s1, 0, p + 12, p + 8, 4);
    LdSame(s, p + 8, s1, p + 8);
    LdPutSame(s1, p + 4, |val|);
    LdPutOther(s1, p + 4, Be32(|val|), p);
    LdPutOther(s1, p + 4, Be32(|val|), p + 8);
    LdPutOther(sa, p + 12, val, p);
    LdPutOther(sa, p + 12, val, p + 4);
    LdPutOther(sa, p + 12, val, p + 8);
    PutInside(sa, p + 12, val);
    SamePart(s, 0, s1, 0, p + 12, 0, p);
    SamePut(s, 0, s1, 0, p, p + 4, Be32(|val|));
    SamePut(s, 0, sa, 0, p, p + 12, val);
    SamePut(s, p + TokSize(k), s1, p + PropSize(|val|), n, p + 4, Be32(|val|));
    SamePut(s, p + TokSize(k), sa, p + PropSize(|val|), n, p + 12, val);
  }

  /** Offset of the first property of that name in the node n that stands in c. */
  ghost function PropOffset(b: seq<byte>, c: Ctx, n: Items, name: seq<byte>): int
    requires Sane(b) && n.Node?
  {
    PreSize(c) + OpenSize(|n.name|) + PreSize(PropCtx(n.body, Strings(b), name))
  }

  /** Where fdt_get_property finds the property, and what the items say is there. */
  lemma {:induction false} PropertyFound(b: seq<byte>, c: Ctx, n: Items, name: seq<byte>, x: Items, h: int)
    requires n.Node? && Holds(b, Plug(c, n)) && FindProp(n.body, Strings(b), name).Some?
    requires x == PropTail(n.body, Strings(b), name) && h == PropOffset(b, c, n, name)
    ensures x.Leaf? && x.tok.Prop? && StrAt(Strings(b), x.tok.nameoff) == Some(name)
    ensures Editable(b) && RwProbe(b) == 0 && PreSize(c) < 0x8000_0000 && GetProperty(b, PreSize(c), name) == h &&
            PropFits(b, h)
    ensures 0 <= h && Lies(Struct(b), h, x) && Spells(Struct(b), h, x.tok) && h + Size(x) <= SizeStruct(b)
    ensures Ld32(b, OffStruct(b) + h + 4) == I32(Ld32(b, OffStruct(b) + h + 4)) == |x.tok.val| < 0x8000_0000
  {
    NodeFacts(b, c, n);
    PropSplit(n.body, Strings(b), name);
    GetPropertyIs(b, PreSize(c), n.name, n.body, name);
    PropertyThere(Struct(b), PreSize(c) + OpenSize(|n.name|), n.body, Strings(b), name, x, h);
    LdStruct(b, h + 4);
    U32Small(|x.tok.val|);
  }

  lemma {:induction false} PropertyThere(s: seq<byte>, m: int, body: Items, strs: seq<byte>, name: seq<byte>,
    x: Items, h: int)
    requires 0 <= m <= |s| && Lies(s, m, body) && FindProp(body, strs, name).Some?
    requires x == PropTail(body, strs, name) && h == m + PreSize(PropCtx(body, strs, name))
    ensures 0 <= h && x.Leaf? && Lies(s, h, x) && Spells(s, h, x.tok) && h + Size(x) <= |s|
  {
    PropSplit(body, strs, name);
    PlugLies(s, m, PropCtx(body, strs, name), x);
    LiesLeaf(s, h, x.tok, x.next);
    TokIs(s, h, x.tok);
    LiesFits(s, h, x);
  }

  /** fdt_setprop on an existing property: room for the new value decides; the property
      then has the new value, otherwise nothing has changed. */
  lemma {:induction false} SetPropExisting(b: seq<byte>, c: Ctx, n: Items, name: seq<byte>, val: seq<byte>,
    x: Items, h: int)
    requires n.Node? && Holds(b, Plug(c, n)) && FindProp(n.body, Strings(b), name).Some? && |val| < 0x7fff_fff0
    requires x == PropTail(n.body, Strings(b), name) && h == PropOffset(b, c, n, name)
    ensures x.Leaf? && x.tok.Prop? && PreSize(c) < 0x8000_0000 && Editable(b)
    ensures var r := SetProp(b, PreSize(c), name, val);
            if DataSize(b) - Align4(|x.tok.val|) + Align4(|val|) <= TotalSize(b) then
              r.code == 0 && Kept(b, r.blob) && Strings(r.blob) == Strings(b) &&
              Replaced(b, r.blob, h, x, Leaf(Prop(x.tok.nameoff, val), x.next))
            else r == Res(NOSPACE, b)
  {
    PropertyFound(b, c, n, name, x, h);
    ResizePropertyIs(b, h, x, val);
  }

  lemma {:induction false} ResizePropertyIs(b: seq<byte>, h: int, x: Items, val: seq<byte>)
    requires Sane(b) && x.Leaf? && x.tok.Prop? && |val| < 0x7fff_fff0
    requires 0 <= h && Lies(Struct(b), h, x) && Spells(Struct(b), h, x.tok) && h + Size(x) <= SizeStruct(b)
    ensures var r := ResizeProperty(b, h, |x.tok.val|, val);
            if DataSize(b) - Align4(|x.tok.val|) + Align4(|val|) <= TotalSize(b) then
              r.code == 0 && Kept(b, r.blob) && Strings(r.blob) == Strings(b) &&
              Replaced(b, r.blob, h, x, Leaf(Prop(x.tok.nameoff, val), x.next))
            else r == Res(NOSPACE, b)
  {
    SpliceStructIs(b, h + 12, Align4(|x.tok.val|), Align4(|val|));
    if DataSize(b) - Align4(|x.tok.val|) + Align4(|val|) <= TotalSize(b) {
      PropWritten(b, SpliceStruct(b, h + 12, Align4(|x.tok.val|), Align4(|val|)).blob, h, x, val);
    }
  }

  lemma {:induction false} PropWritten(b: seq<byte>, b1: seq<byte>, h: int, x: Items, val: seq<byte>)
    requires x.Leaf? && x.tok.Prop? && |val| < 0x7fff_fff0 &&
             StructSpliced(b, b1, h + 12, Align4(|x.tok.val|), Align4(|val|))
    requires 0 <= h && Lies(Struct(b), h, x) && Spells(Struct(b), h, x.tok) && h + Size(x) <= SizeStruct(b)
    ensures OffStruct(b) + h + 12 + |val| <= |b1|
    ensures var b' := Put(Put(b1, OffStruct(b) + h + 4, Be32(|val|)), OffStruct(b) + h + 12, val);
            Kept(b, b') && Strings(b') == Strings(b) && Replaced(b, b', h, x, Leaf(Prop(x.tok.nameoff, val), x.next))
  {
    SizeDef(x);
    SizeDef(Leaf(Prop(x.tok.nameoff, val), x.next));
    var n := SizeStruct(b) - h - TokSize(x.tok);
    PutStruct(b1, h + 4, Be32(|val|));
    var b2 := Put(b1, OffStruct(b) + h + 4, Be32(|val|));
    PutStruct(b2, h + 12, val);
    var b' := Put(b2, OffStruct(b) + h + 12, val);
    PropRewritten(Struct(b), Struct(b1), h, x.tok, val, n);
    PropReplaced(Struct(b), Struct(b'), h, x, val, n);
  }

  lemma {:induction false} PropReplaced(s: seq<byte>, s': seq<byte>, h: int, x: Items, val: seq<byte>, n: int)
    requires x.Leaf? && x.tok.Prop? && Lies(s, h, x) && Spells(s', h, Prop(x.tok.nameoff, val))
    requires Same(s, h + TokSize(x.tok), s', h + PropSize(|val|), n) && Size(x.next) <= n
    ensures Lies(s', h, Leaf(Prop(x.tok.nameoff, val), x.next))
    ensures n >= Size(x.next) ==>
            Same(s, h + Size(x), s', h + Size(Leaf(Prop(x.tok.nameoff, val), x.next)), n - Size(x.next))
  {
    SizeDef(x);
    SizeDef(Leaf(Prop(x.tok.nameoff, val), x.next));
    var k := Prop(x.tok.nameoff, val);
    LiesLeaf(s, h, x.tok, x.next);
    TokIs(s', h, k);
    TailMoved(s, h + TokSize(x.tok), s', h + PropSize(|val|), n, x.next);
    LiesLeaf(s', h, k, x.next);
    SamePart(s, h + TokSize(x.tok), s', h + PropSize(|val|), n, Size(x.next), n - Size(x.next));
  }

  // ---- new properties ----

  /** Same header and same three blocks. */
  ghost predicate Untouched(b: seq<byte>, b': seq<byte>) {
    Kept(b, b') && HeaderOf(b') == HeaderOf(b) && Struct(b') == Struct(b) && Strings(b') == Strings(b)
  }

  /** The structure block is as before and the strings block has grown by `more`. */
  ghost predicate Grown(b: seq<byte>, b': seq<byte>, more: seq<byte>) {
    Kept(b, b') && OffStrings(b') == OffStrings(b) && Struct(b') == Struct(b) && Strings(b') == Strings(b) + more
  }

  lemma {:induction false} GrownHolds(b: seq<byte>, b': seq<byte>, more: seq<byte>, t: Items)
    requires Holds(b, t) && Grown(b, b', more)
    ensures Holds(b', t) && Trees(b', t) == Trees(b, t)
  {
    HoldsDef(b, t);
    HoldsDef(b', t);
    ProperDef(t, Strings(b));
    ProperAppend(t, Strings(b), more);
    DenotesAppend(t, Strings(b), more);
  }

  lemma {:induction false} UntouchedHolds(b: seq<byte>, b': seq<byte>, t: Items)
    requires Holds(b, t) && Untouched(b, b')
    ensures Holds(b', t) && Trees(b', t) == Trees(b, t)
  {
    HoldsDef(b, t);
    HoldsDef(b', t);
  }

  /** The bytes fdt_find_add_string_ appends for a name. */
  function NewString(strs: seq<byte>, name: seq<byte>): seq<byte> {
    if FindString(strs, name, 0) >= 0 then [] else name + [0]
  }

  /** fdt_find_add_string_: the offset returned names the string in the new strings
      block, and is the first to do so; the block grows, by the string and its NUL, iff no offset
      named the string before; without room for a new string nothing has changed. */
  lemma {:induction false} FindAddStringIs(b: seq<byte>, name: seq<byte>)
    requires Sane(b) && NulFree(name)
    ensures var (f, added) := FindAddString(b, name);
            var more := NewString(Strings(b), name);
            if DataSize(b) + |more| > TotalSize(b) then f == Res(NOSPACE, b) && !added
            else 0 <= f.code < 0x8000_0000 && Grown(b, f.blob, more) && StrAt(Strings(f.blob), f.code) == Some(name) &&
                 added == (more != []) && (more == [] ==> f.blob == b) &&
                 forall j: nat | j < f.code :: StrAt(Strings(b), j) != Some(name)
    ensures NewString(Strings(b), name) == if exists j :: StrAt(Strings(b), j) == Some(name) then [] else name + [0]
  {
    var strs := Strings(b);
    var p := FindString(strs, name, 0);
    forall j: int ensures StrAt(strs, j) == Some(name) <==> StringHere(strs, j, name) {
      StrIs(strs, j, name);
    }
    if p >= 0 {
      StrIs(strs, p, name);
      assert strs + [] == strs;
    } else {
      SpliceStringIs(b, name + [0]);
      var t := strs + (name + [0]);
      assert t[|strs|..|strs| + |name|] == name && t[|strs| + |name|] == 0;
      StrIs(t, |strs|, name);
    }
  }

  /** Dropping the string added last restores the header and the blocks. */
  lemma {:induction false} RollBack(b: seq<byte>, b1: seq<byte>, more: seq<byte>)
    requires Grown(b, b1, more)
    ensures Untouched(b, Set(b1, AT_SIZE_STRINGS, SizeStrings(b1) - |more|))
  {
    SetHeader(b1, AT_SIZE_STRINGS, SizeStrings(b1) - |more|);
    var b2 := Set(b1, AT_SIZE_STRINGS, SizeStrings(b1) - |more|);
    assert Sane(b2);
    RsvDef(b1);
    RsvDef(b2);
    StructDef(b1);
    StructDef(b2);
    StringsDef(b1);
    StringsDef(b2);
    SliceSlice(b1, OffStrings(b1), DataSize(b1), 0, SizeStrings(b));
    assert (Strings(b) + more)[0..SizeStrings(b)] == Strings(b);
  }

  ghost function PropBytes(nameoff: int, val: seq<byte>): (s: seq<byte>)
    ensures |s| == 12 + |val|
  {
    Be32(FDT_PROP) + Be32(|val|) + Be32(nameoff) + val
  }

  lemma {:induction false} PropSpelled(s: seq<byte>, p: int, nameoff: int, val: seq<byte>)
    requires 0 <= p && p + PropSize(|val|) <= |s| && s[p..p + 12 + |val|] == PropBytes(nameoff, val)
    requires 0 <= nameoff < 0x1_0000_0000 && |val| < 0x1_0000_0000
    ensures Spells(s, p, Prop(nameoff, val))
  {
    var x := PropBytes(nameoff, val);
    assert x[0..4] == Be32(FDT_PROP) && x[4..8] == Be32(|val|) && x[8..12] == Be32(nameoff) && x[12..12 + |val|] == val;
    SliceSlice(s, p, p + 12 + |val|, 0, 4);
    SliceSlice(s, p, p + 12 + |val|, 4, 8);
    SliceSlice(s, p, p + 12 + |val|, 8, 12);
    SliceSlice(s, p, p + 12 + |val|, 12, 12 + |val|);
    LdBe32(s, p, FDT_PROP);
    LdBe32(s, p + 4, |val|);
    LdBe32(s, p + 8, nameoff);
  }

  /** Inserting a property in front of the items x at h. */
  lemma {:induction false} PropInserted(b: seq<byte>, b1: seq<byte>, h: int, x: Items, nameoff: int, val: seq<byte>)
    requires StructSpliced(b, b1, h, 0, PropSize(|val|)) && Lies(Struct(b), h, x) && h + Size(x) <= SizeStruct(b)
    requires 0 <= nameoff < 0x8000_0000
    ensures OffStruct(b) + h + 12 + |val| <= |b1|
    ensures var b' := Put(b1, OffStruct(b) + h, PropBytes(nameoff, val));
            Kept(b, b') && Strings(b') == Strings(b) && Replaced(b, b', h, x, Leaf(Prop(nameoff, val), x))
  {
    SizeDef(Leaf(Prop(nameoff, val), x));
    var y := PropBytes(nameoff, val);
    var n := SizeStruct(b) - h;
    var k := PropSize(|val|);
    PutStruct(b1, h, y);
    var b' := Put(b1, OffStruct(b) + h, y);
    var s, s1, s' := Struct(b), Struct(b1), Struct(b');
    PutInside(s1, h, y);
    PropSpelled(s', h, nameoff, val);
    TokIs(s', h, Prop(nameoff, val));
    SamePut(s, 0, s1, 0, h, h, y);
    SamePut(s, h, s1, h + k, n, h, y);
    TailMoved(s, h, s', h + k, n, x);
    LiesLeaf(s', h, Prop(nameoff, val), x);
    SamePart(s, h, s', h + k, n, Size(x), n - Size(x));
  }

  /** r is b with a property of that name in front of the items `body` at h, or, when
      the room does not suffice, an error and a blob with the same header and blocks. */
  ghost predicate PropAdded(b: seq<byte>, r: Res, h: int, body: Items, name: seq<byte>, val: seq<byte>)
    requires Sane(b)
  {
    var more := NewString(Strings(b), name);
    var f := FindAddString(b, name).0;
    if DataSize(b) + |more| + PropSize(|val|) <= TotalSize(b) then
      r.code == 0 && Grown(b, f.blob, more) && Kept(f.blob, r.blob) && Strings(r.blob) == Strings(f.blob) &&
      StrAt(Strings(f.blob), f.code) == Some(name) && Replaced(f.blob, r.blob, h, body, Leaf(Prop(f.code, val), body))
    else r.code == NOSPACE && Untouched(b, r.blob)
  }

  /** fdt_add_property_ in front of the items `body` at h. */
  lemma {:induction false} AddPropertyIs(b: seq<byte>, o: int, h: int, body: Items, name: seq<byte>, val: seq<byte>)
    requires Sane(b) && o < 0x8000_0000 && CheckNodeOffset(b, o) == h && 0 <= h && Lies(Struct(b), h, body)
    requires h + Size(body) <= SizeStruct(b) && NulFree(name) && |val| < 0x7fff_fff0
    ensures PropAdded(b, AddProperty(b, o, name, val), h, body, name, val)
  {
    var more := NewString(Strings(b), name);
    AddPropertyDef(b, o, name, val);
    FindAddStringIs(b, name);
    var f := FindAddString(b, name).0;
    if DataSize(b) + |more| <= TotalSize(b) {
      AddNamedIs(b, f, more, h, body, name, val);
    }
  }

  /** The structure half of fdt_add_property_, after the name has been found or added. */
  lemma {:induction false} AddNamedIs(b: seq<byte>, f: Res, more: seq<byte>, h: int, body: Items, name: seq<byte>,
    val: seq<byte>)
    requires Sane(b) && Grown(b, f.blob, more) && 0 <= f.code < 0x8000_0000 && 0 <= h
    requires Lies(Struct(b), h, body) && h + Size(body) <= SizeStruct(b) && |val| < 0x7fff_fff0
    ensures var r := SpliceStruct(f.blob, h, 0, PropSize(|val|));
            if DataSize(b) + |more| + PropSize(|val|) <= TotalSize(b) then
              r.code == 0 && OffStruct(f.blob) + h + 12 + |val| <= |r.blob| &&
              var b' := Put(r.blob, OffStruct(f.blob) + h, PropBytes(f.code, val));
              Kept(f.blob, b') && Strings(b') == Strings(f.blob) &&
                Replaced(f.blob, b', h, body, Leaf(Prop(f.code, val), body))
            else r == Res(NOSPACE, f.blob) && Untouched(b, Set(f.blob, AT_SIZE_STRINGS, SizeStrings(f.blob) - |more|))
  {
    SpliceStructIs(f.blob, h, 0, PropSize(|val|));
    if DataSize(b) + |more| + PropSize(|val|) <= TotalSize(b) {
      PropInserted(f.blob, SpliceStruct(f.blob, h, 0, PropSize(|val|)).blob, h, body, f.code, val);
    } else {
      RollBack(b, f.blob, more);
    }
  }

  /** fdt_setprop of a name the node does not have: room for the property and for its
      name, if new, decides; the property then comes first in the node, and otherwise
      header and blocks are as before, the string rolled back. */
  lemma {:induction false} SetPropNew(b: seq<byte>, c: Ctx, n: Items, name: seq<byte>, val: seq<byte>)
    requires n.Node? && Holds(b, Plug(c, n)) && FindProp(n.body, Strings(b), name).None?
    requires NulFree(name) && |val| < 0x7fff_fff0
    ensures PreSize(c) < 0x8000_0000 && Editable(b)
    ensures PropAdded(b, SetProp(b, PreSize(c), name, val), PreSize(c) + OpenSize(|n.name|), n.body, name, val)
  {
    SetPropAdds(b, c, n, name, val);
    AddPropertyIs(b, PreSize(c), PreSize(c) + OpenSize(|n.name|), n.body, name, val);
  }

  lemma {:induction false} SetPropAdds(b: seq<byte>, c: Ctx, n: Items, name: seq<byte>, val: seq<byte>)
    requires n.Node? && Holds(b, Plug(c, n)) && FindProp(n.body, Strings(b), name).None?
    ensures PreSize(c) < 0x8000_0000 && Editable(b) && CheckNodeOffset(b, PreSize(c)) == PreSize(c) + OpenSize(|n.name|)
    ensures SetProp(b, PreSize(c), name, val) == AddProperty(b, PreSize(c), name, val)
    ensures Lies(Struct(b), PreSize(c) + OpenSize(|n.name|), n.body) &&
            PreSize(c) + OpenSize(|n.name|) + Size(n.body) <= SizeStruct(b)
  {
    NodeFacts(b, c, n);
    GetPropertyIs(b, PreSize(c), n.name, n.body, name);
    OnStep(b, PreSize(c), Open(n.name));
    LiesFits(Struct(b), PreSize(c) + OpenSize(|n.name|), n.body);
  }

  // ---- the tree after a property edit ----

  lemma {:induction false} NoPropsNone(t: Items, strs: seq<byte>)
    requires NoProps(t)
    ensures Props(t, strs) == []
    decreases t
  {
    if t != Nil {
      NoPropsNone(t.next, strs);
    }
  }

  /** The walk over the leading properties sees every property of the node. */
  lemma {:induction false} FindPropHas(t: Items, strs: seq<byte>, name: seq<byte>)
    requires Named(t, strs) && Ordered(t)
    ensures FindProp(t, strs, name).Some? <==> HasProp(Props(t, strs), name)
    decreases t
  {
    match t
    case Nil =>
    case Leaf(tok, next) =>
      FindPropHas(next, strs, name);
      if tok.Prop? {
        var ps, qs := Props(t, strs), Props(next, strs);
        assert ps[0] == Property(StrAt(strs, tok.nameoff).value, tok.val) && ps[1..] == qs;
        if HasProp(ps, name) && ps[0].name != name {
          var i :| 0 <= i < |ps| && ps[i].name == name;
          assert qs[i - 1] == ps[i];
        }
        if HasProp(qs, name) {
          var i :| 0 <= i < |qs| && qs[i].name == name;
          assert ps[i + 1] == qs[i];
        }
      }
    case Node(_, _, next) => NoPropsNone(next, strs);
  }

  /** Changing the value of the found property, or dropping it, in the item list. */
  lemma {:induction false} PropsEdited(t: Items, strs: seq<byte>, name: seq<byte>, val: seq<byte>)
    requires Named(t, strs) && Ordered(t) && FindProp(t, strs, name).Some?
    ensures var d, x := PropCtx(t, strs, name), PropTail(t, strs, name);
            x.Leaf? && x.tok.Prop? &&
            var u, v := Plug(d, Leaf(Prop(x.tok.nameoff, val), x.next)), Plug(d, x.next);
            Props(u, strs) == SetFirst(Props(t, strs), name, val) && Forest(u, strs) == Forest(t, strs) &&
              Named(u, strs) && Ordered(u) &&
            Props(v, strs) == DropFirst(Props(t, strs), name) && Forest(v, strs) == Forest(t, strs) &&
              Named(v, strs) && Ordered(v)
    decreases t
  {
    if t.tok.Prop? {
      assert Props(t, strs)[1..] == Props(t.next, strs);
    }
    if !(t.tok.Prop? && StrAt(strs, t.tok.nameoff) == Some(name)) {
      PropsEdited(t.next, strs, name, val);
    }
  }

  /** b' holds, as t', the trees of b, except that `ts` stands at path p; the reservation
      block, the capacity and the layout of the buffer are as before, and so are the offsets
      of the node at p, if it is still there, and of the nodes it lies in. */
  ghost predicate BecomesItems(b: seq<byte>, b': seq<byte>, t: Items, p: seq<nat>, ts: seq<Tree>, t': Items) {
    |p| > 0 && Holds(b, t) && Kept(b, b') && Holds(b', t') && Trees(b', t') == Replace(Trees(b, t), p, ts) &&
    (|ts| == 1 ==> SameOffsets(t, t', p))
  }

  ghost predicate Becomes(b: seq<byte>, b': seq<byte>, t: Items, p: seq<nat>, ts: seq<Tree>) {
    exists t' :: BecomesItems(b, b', t, p, ts, t')
  }

  /** Bytes that fdt_setprop needs beyond those in use. */
  ghost function SetPropGrowth(b: seq<byte>, n: Items, name: seq<byte>, val: seq<byte>): int
    requires Sane(b) && n.Node?
  {
    if FindProp(n.body, Strings(b), name).Some? then
      PropSplit(n.body, Strings(b), name);
      Align4(|val|) - Align4(|PropTail(n.body, Strings(b), name).tok.val|)
    else |NewString(Strings(b), name)| + PropSize(|val|)
  }
}
