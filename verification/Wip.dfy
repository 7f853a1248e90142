/** fdt_wip.c: overwriting properties and nodes with FDT_NOP words, in place, and its
    agreement with deletion. */
module Wip {
  import opened Bytes
  import opened Syntax
  import opened DeviceTree
  import opened Fdt
  import opened Walk
  import opened Blob
  import opened Lookup
  import opened Splice
  import opened Edit
  import opened Refine
  import opened EditTheorems

  /** k FDT_NOP words. */
  ghost function Nops(k: nat): (s: seq<byte>)
    ensures |s| == 4 * k
  {
    if k == 0 then [] else Be32(FDT_NOP) + Nops(k - 1)
  }

  /** Number of words that fdt_nop_region_ stores for a C int len: it stores whole words, so
      len is rounded up, and none for a len that is not positive. */
  function NopCount(len: int): nat { if len <= 0 then 0 else (len + 3) / 4 }

  /** fdt_nop_region_. */
  ghost function NopRegion(b: seq<byte>, start: int, len: int): (r: seq<byte>)
    requires 0 <= start && start + 4 * NopCount(len) <= |b|
    ensures |r| == |b|
  {
    Put(b, start, Nops(NopCount(len)))
  }

  /** fdt_nop_property.  The stored length becomes an int, as does its sum with the size of the
      property header. */
  ghost function NopProperty(b: seq<byte>, nodeoff: int, name: seq<byte>): (r: Res)
    requires Buf(b) && nodeoff < 0x8000_0000
    ensures |r.blob| == |b|
  {
    var p := GetProperty(b, nodeoff, name);
    if Version(b) < 16 then Res(BADVERSION, b)
    else if p < 0 then Res(p, b)
    else if !PropFits(b, p) then Res(STRAYS, b)
    else
      var n := NopLength(Ld32(b, OffStruct(b) + p + 4));
      if OffStruct(b) + p + 4 * NopCount(n) > |b| then Res(STRAYS, b)
      else Res(0, NopRegion(b, OffStruct(b) + p, n))
  }

  /** The length that fdt_nop_property passes on for a stored length. */
  function NopLength(stored: int): int { I32(I32(stored) + 12) }

  /** fdt_nop_node. */
  ghost function NopNode(b: seq<byte>, nodeoff: int): (r: Res)
    requires Buf(b) && nodeoff < 0x8000_0000
    ensures |r.blob| == |b|
  {
    var end := NodeEndOffset(b, nodeoff);
    if end < 0 then Res(end, b)
    else if nodeoff < 0 || OffStruct(b) + nodeoff + 4 * NopCount(end - nodeoff) > |b| then Res(STRAYS, b)
    else Res(0, NopRegion(b, OffStruct(b) + nodeoff, end - nodeoff))
  }

  // ---- NOP words as items ----

  function NopRun(k: nat, next: Items): Items {
    if k == 0 then next else Leaf(Nop, NopRun(k - 1, next))
  }

  lemma {:induction false} NopRunSize(k: nat, next: Items)
    ensures Size(NopRun(k, next)) == 4 * k + Size(next)
    decreases k
  {
    if k > 0 {
      SizeDef(NopRun(k, next));
      NopRunSize(k - 1, next);
    }
  }

  lemma {:induction false} NopRunDenotes(k: nat, next: Items, strs: seq<byte>)
    ensures Props(NopRun(k, next), strs) == Props(next, strs) && Forest(NopRun(k, next), strs) == Forest(next, strs)
    ensures NoProps(NopRun(k, next)) == NoProps(next) && Proper(NopRun(k, next), strs) == Proper(next, strs)
    decreases k
  {
    if k > 0 {
      NopRunDenotes(k - 1, next, strs);
      ProperLeaf(Nop, NopRun(k - 1, next), strs);
    }
  }

  lemma {:induction false} NopSpelled(s: seq<byte>, o: int, more: seq<byte>)
    requires 0 <= o && o + 4 + |more| <= |s| && s[o..o + 4 + |more|] == Be32(FDT_NOP) + more
    ensures TokAt(s, o) == Nop && s[o + 4..o + 4 + |more|] == more
  {
    var x := Be32(FDT_NOP) + more;
    assert x[0..4] == Be32(FDT_NOP) && x[4..4 + |more|] == more;
    SliceSlice(s, o, o + 4 + |more|, 0, 4);
    SliceSlice(s, o, o + 4 + |more|, 4, 4 + |more|);
    LdBe32(s, o, FDT_NOP);
    TokIs(s, o, Nop);
  }

  lemma {:induction false} NopRunLies(s: seq<byte>, o: int, k: nat, next: Items)
    requires 0 <= o && o + 4 * k <= |s| && s[o..o + 4 * k] == Nops(k) && Lies(s, o + 4 * k, next)
    ensures Lies(s, o, NopRun(k, next))
    decreases k
  {
    if k > 0 {
      NopSpelled(s, o, Nops(k - 1));
      NopRunLies(s, o + 4, k - 1, next);
      LiesLeaf(s, o, Nop, NopRun(k - 1, next));
    }
  }

  // ---- in place: nothing outside the region changes ----

  /** b' differs from b at most in the n bytes of the structure block from h on. */
  ghost predicate OnlyRegion(b: seq<byte>, b': seq<byte>, h: int, n: int) {
    Kept(b, b') && HeaderOf(b') == HeaderOf(b) && Strings(b') == Strings(b) && 0 <= h && 0 <= n &&
      h + n <= SizeStruct(b) && OffStruct(b) + SizeStruct(b) <= |b| &&
    b'[..OffStruct(b) + h] == b[..OffStruct(b) + h] && b'[OffStruct(b) + h + n..] == b[OffStruct(b) + h + n..]
  }

  /** The bytes of the items x before its tail x' become FDT_NOP words. */
  lemma {:induction false} NopReplaced(b: seq<byte>, h: int, x: Items, x': Items, k: nat)
    requires Sane(b) && 0 <= h && h + Size(x) <= SizeStruct(b) && Size(x) == 4 * k + Size(x') &&
             Lies(Struct(b), h + 4 * k, x')
    ensures OffStruct(b) + h + 4 * k <= |b|
    ensures var b' := Put(b, OffStruct(b) + h, Nops(k));
            OnlyRegion(b, b', h, 4 * k) && Replaced(b, b', h, x, NopRun(k, x'))
  {
    var b' := Put(b, OffStruct(b) + h, Nops(k));
    PutStruct(b, h, Nops(k));
    PutSlice(b, OffStruct(b) + h, Nops(k), 0, OffStruct(b) + h);
    PutSlice(b, OffStruct(b) + h, Nops(k), OffStruct(b) + h + 4 * k, |b|);
    NopRunSize(k, x');
    NopBlock(Struct(b), h, k, x', |Struct(b)|);
    assert Same(Struct(b), h + Size(x), Struct(b'), h + Size(x), SizeStruct(b) - h - Size(x)) by {
      SamePart(Struct(b), h + 4 * k, Struct(b'), h + 4 * k, SizeStruct(b) - h - 4 * k, Size(x'),
        SizeStruct(b) - h - Size(x));
    }
  }

  lemma {:induction false} NopBlock(s: seq<byte>, h: int, k: nat, next: Items, n: int)
    requires 0 <= h && h + 4 * k + Size(next) <= n == |s| && Lies(s, h + 4 * k, next)
    ensures var s' := Put(s, h, Nops(k));
            Same(s, 0, s', 0, h) && Same(s, h + 4 * k, s', h + 4 * k, n - h - 4 * k) && Lies(s', h, NopRun(k, next))
  {
    var s' := Put(s, h, Nops(k));
    PutSlice(s, h, Nops(k), 0, h);
    PutSlice(s, h, Nops(k), h + 4 * k, n);
    SameDef(s, 0, s', 0, h);
    SameDef(s, h + 4 * k, s', h + 4 * k, n - h - 4 * k);
    TailMoved(s, h + 4 * k, s', h + 4 * k, n - h - 4 * k, next);
    PutInside(s, h, Nops(k));
    NopRunLies(s', h, k, next);
  }

  lemma {:induction false} WordsOf(n: nat, m: int)
    requires m == Align4(n) || (m == n && Aligned(n))
    ensures m == 4 * ((n + 3) / 4)
  {
    AlignDef(n);
    AlignedMod(n);
  }

  /** fdt_nop_property takes exactly that property out of the tree, as fdt_delprop does,
      and changes no byte outside it: every offset stays valid. */
  lemma {:induction false} NopPropertyRefines(b: seq<byte>, t: Items, p: seq<nat>, name: seq<byte>)
    requires Addresses(b, t, p) && |name| < 0x7fff_fff0
    ensures NodeOffset(t, p) < 0x8000_0000 && ItemsAt(t, p).Node?
    ensures var r := NopProperty(b, NodeOffset(t, p), name);
            var tree := Get(Trees(b, t), p).value;
            if HasProp(tree.props, name) then
              r.code == 0 && Becomes(b, r.blob, t, p, [WithoutProp(tree, name)]) &&
              var n := ItemsAt(t, p);
              PropTail(n.body, Strings(b), name).Leaf? &&
              OnlyRegion(b, r.blob, PropOffset(b, CtxAt(t, p), n, name),
                TokSize(PropTail(n.body, Strings(b), name).tok))
            else r == Res(NOTFOUND, b)
  {
    Located(b, t, p);
    var c, n := CtxAt(t, p), ItemsAt(t, p);
    NodeFacts(b, c, n);
    HoldsProper(b, c, n);
    FindPropHas(n.body, Strings(b), name);
    GetPropertyIs(b, PreSize(c), n.name, n.body, name);
    if FindProp(n.body, Strings(b), name).Some? {
      NopPropertyTree(b, c, n, name, PropTail(n.body, Strings(b), name), PropOffset(b, c, n, name));
    }
  }

  lemma {:induction false} NopPropertyIs(b: seq<byte>, c: Ctx, n: Items, name: seq<byte>, x: Items, h: int, k: nat)
    requires n.Node? && Holds(b, Plug(c, n)) && FindProp(n.body, Strings(b), name).Some?
    requires x == PropTail(n.body, Strings(b), name) && h == PropOffset(b, c, n, name)
    requires x.Leaf? ==> 4 * k == TokSize(x.tok)
    ensures x.Leaf? && PreSize(c) < 0x8000_0000
    ensures var r := NopProperty(b, PreSize(c), name);
            r.code == 0 && OnlyRegion(b, r.blob, h, 4 * k) && Replaced(b, r.blob, h, x, NopRun(k, x.next))
  {
    SizeDef(x);
    PropertyFound(b, c, n, name, x, h);
    LiesLeaf(Struct(b), h, x.tok, x.next);
    NopReplaced(b, h, x, x.next, k);
    NopPropertyEval(b, PreSize(c), name, h, |x.tok.val|, k);
  }

  lemma {:induction false} NopPropertyEval(b: seq<byte>, o: int, name: seq<byte>, h: int, len: nat, k: nat)
    requires Buf(b) && Version(b) >= 16 && o < 0x8000_0000 && 0 <= h && GetProperty(b, o, name) == h && PropFits(b, h)
    requires Ld32(b, OffStruct(b) + h + 4) == len && 4 * k == PropSize(len) && OffStruct(b) + h + 4 * k <= |b|
    ensures NopProperty(b, o, name) == Res(0, Put(b, OffStruct(b) + h, Nops(k)))
  {
    NopCountIs(len, k);
  }

  lemma {:induction false} NopCountIs(len: nat, k: nat)
    requires len < 0x7fff_fff4 && 4 * k == PropSize(len)
    ensures NopCount(NopLength(len)) == k
  {
    AlignedConst();
    AlignedAdd(12, len);
    WordsOf(12 + len, PropSize(len));
    NopLengthIs(len);
  }

  lemma {:induction false} NopPropertyTree(b: seq<byte>, c: Ctx, n: Items, name: seq<byte>, x: Items, h: int)
    requires n.Node? && Holds(b, Plug(c, n)) && FindProp(n.body, Strings(b), name).Some?
    requires x == PropTail(n.body, Strings(b), name) && h == PropOffset(b, c, n, name)
    ensures x.Leaf? && PreSize(c) < 0x8000_0000
    ensures var r := NopProperty(b, PreSize(c), name);
            r.code == 0 && Becomes(b, r.blob, Plug(c, n), PathOf(c),
              [WithoutProp(TreeOf(n.name, n.body, Strings(b)), name)]) &&
            OnlyRegion(b, r.blob, h, TokSize(x.tok))
  {
    var strs := Strings(b);
    var d := PropCtx(n.body, strs, name);
    PropSplit(n.body, strs, name);
    TokSizeAligned(x.tok);
    AlignedMod(TokSize(x.tok));
    var k := TokSize(x.tok) / 4;
    NopPropertyIs(b, c, n, name, x, h, k);
    var b' := NopProperty(b, PreSize(c), name).blob;
    HoldsProper(b, c, n);
    NopPropsEdited(n.body, strs, name, k);
    BodyHolds(b, b', c, n, d, h, x, NopRun(k, x.next));
    var n' := n.(body := Plug(d, NopRun(k, x.next)));
    NodeForest(c, n, n', strs);
    assert BecomesItems(b, b', Plug(c, n), PathOf(c), [TreeOf(n'.name, n'.body, strs)], Plug(c, n'));
  }

  lemma {:induction false} NopPropsEdited(t: Items, strs: seq<byte>, name: seq<byte>, k: nat)
    requires Named(t, strs) && Ordered(t) && FindProp(t, strs, name).Some?
    ensures var x := PropTail(t, strs, name);
            x.Leaf? &&
            var v := Plug(PropCtx(t, strs, name), NopRun(k, x.next));
            Props(v, strs) == DropFirst(Props(t, strs), name) && Forest(v, strs) == Forest(t, strs) && Proper(v, strs)
  {
    PropsEdited(t, strs, name, []);
    PropSplit(t, strs, name);
    var d, x := PropCtx(t, strs, name), PropTail(t, strs, name);
    NopRunDenotes(k, x.next, strs);
    ProperDef(Plug(d, x.next), strs);
    ProperPlug(d, x.next, NopRun(k, x.next), strs);
    PlugProps(d, x.next, NopRun(k, x.next), strs);
    PropForest(t, strs, name, x.next, NopRun(k, x.next));
  }

  lemma {:induction false} PropForest(t: Items, strs: seq<byte>, name: seq<byte>, x: Items, x': Items)
    requires Forest(x', strs) == Forest(x, strs)
    ensures Forest(Plug(PropCtx(t, strs, name), x'), strs) == Forest(Plug(PropCtx(t, strs, name), x), strs)
    decreases t
  {
    if t.Leaf? {
      PropForest(t.next, strs, name, x, x');
    }
  }

  /** fdt_nop_node takes exactly that node out of the tree, as fdt_del_node does, and
      changes no byte outside it. */
  lemma {:induction false} NopNodeRefines(b: seq<byte>, t: Items, p: seq<nat>)
    requires Addresses(b, t, p)
    ensures NodeOffset(t, p) < 0x8000_0000 && ItemsAt(t, p).Node?
    ensures var r := NopNode(b, NodeOffset(t, p));
            var n := ItemsAt(t, p);
            r.code == 0 && Becomes(b, r.blob, t, p, []) &&
              OnlyRegion(b, r.blob, NodeOffset(t, p), NodeSize(n.name, n.body))
  {
    Located(b, t, p);
    var c, n := CtxAt(t, p), ItemsAt(t, p);
    var h, m := PreSize(c), NodeSize(n.name, n.body);
    NodeFacts(b, c, n);
    NodeSizeAligned(n.name, n.body);
    AlignedMod(m);
    WordsOf(m, m);
    NopNodeIs(b, c, n, h, m / 4);
    NopRunDenotes(m / 4, n.next, Strings(b));
    ProperNode(n.name, n.body, n.next, Strings(b));
    NodeTree(b, NopNode(b, h).blob, c, n, NopRun(m / 4, n.next), []);
  }

  lemma {:induction false} NopNodeIs(b: seq<byte>, c: Ctx, n: Items, h: int, k: nat)
    requires n.Node? && Holds(b, Plug(c, n)) && h == PreSize(c) && 4 * k == NodeSize(n.name, n.body)
    ensures h < 0x8000_0000
    ensures var r := NopNode(b, h);
            r.code == 0 && OnlyRegion(b, r.blob, h, 4 * k) && Replaced(b, r.blob, h, n, NopRun(k, n.next))
  {
    SizeDef(n);
    NodeFacts(b, c, n);
    LiesNode(Struct(b), h, n.name, n.body, n.next);
    LiesFits(Struct(b), h, n);
    NodeEndIs(b, h, n.name, n.body);
    NopReplaced(b, h, n, n.next, k);
    NopNodeEval(b, h, k);
  }

  lemma {:induction false} NopNodeEval(b: seq<byte>, h: int, k: nat)
    requires Buf(b) && 0 <= h < 0x8000_0000 && NodeEndOffset(b, h) == h + 4 * k && OffStruct(b) + h + 4 * k <= |b|
    ensures NopNode(b, h) == Res(0, Put(b, OffStruct(b) + h, Nops(k)))
  {
    assert (4 * k + 3) / 4 == k;
  }

  /** Both blobs hold device trees, the same ones. */
  ghost predicate SameTrees(b: seq<byte>, b': seq<byte>) {
    exists t, t' :: Holds(b, t) && Holds(b', t') && Trees(b, t) == Trees(b', t')
  }

  /** NOP-ing and deleting leave the same trees and fail on the same inputs. */
  lemma {:induction false} NopAgreesWithDelete(b: seq<byte>, t: Items, p: seq<nat>, name: seq<byte>)
    requires Addresses(b, t, p) && |name| < 0x7fff_fff0
    ensures Editable(b) && NodeOffset(t, p) < 0x8000_0000
    ensures var o := NodeOffset(t, p);
            NopProperty(b, o, name).code == DelProp(b, o, name).code && NopNode(b, o).code == DelNode(b, o).code &&
            SameTrees(NopProperty(b, o, name).blob, DelProp(b, o, name).blob) &&
              SameTrees(NopNode(b, o).blob, DelNode(b, o).blob)
  {
    NopPropertyRefines(b, t, p, name);
    DelPropRefines(b, t, p, name);
    NopNodeRefines(b, t, p);
    DelNodeRefines(b, t, p);
    var o := NodeOffset(t, p);
    Alike(b, NopNode(b, o).blob, DelNode(b, o).blob, t, p, []);
    if HasProp(Get(Trees(b, t), p).value.props, name) {
      Alike(b, NopProperty(b, o, name).blob, DelProp(b, o, name).blob, t, p,
        [WithoutProp(Get(Trees(b, t), p).value, name)]);
    }
  }

  lemma {:induction false} Alike(b: seq<byte>, b1: seq<byte>, b2: seq<byte>, t: Items, p: seq<nat>, ts: seq<Tree>)
    requires Becomes(b, b1, t, p, ts) && Becomes(b, b2, t, p, ts)
    ensures SameTrees(b1, b2)
  {
    var t1 :| BecomesItems(b, b1, t, p, ts, t1);
    var t2 :| BecomesItems(b, b2, t, p, ts, t2);
    assert Holds(b1, t1) && Holds(b2, t2);
  }

  // ---- where fdt_nop_property writes ----

  /** A property that fdt_get_property finds was accepted by fdt_next_tag. */
  lemma {:induction false} FoundProp(b: seq<byte>, off: int, name: seq<byte>)
    requires Buf(b) && off < 0x8000_0000 && PropertyLoop(b, off, name) >= 0
    ensures var p := PropertyLoop(b, off, name); p < 0x8000_0000 && PropFits(b, p) && CheckPropOffset(b, p) >= 0
    decreases 0x8000_0000 - off
  {
    NextTagBound(b, off);
    if !StringEq(b, Ld32(b, OffStruct(b) + off + 8), name) {
      NextPropBound(b, CheckPropOffset(b, off));
      FoundProp(b, NextPropertyOffset(b, off), name);
    }
  }

  lemma {:induction false} GetPropertyFound(b: seq<byte>, nodeoff: int, name: seq<byte>)
    requires Buf(b) && nodeoff < 0x8000_0000 && GetProperty(b, nodeoff, name) >= 0
    ensures var p := GetProperty(b, nodeoff, name); p < 0x8000_0000 && PropFits(b, p) && CheckPropOffset(b, p) >= 0
  {
    GetPropertyDef(b, nodeoff, name);
    NextTagBound(b, nodeoff);
    NextPropBound(b, NextTag(b, nodeoff).1);
    FoundProp(b, FirstPropertyOffset(b, nodeoff), name);
  }

  /** What fdt_next_tag has tested of an accepted property: unless the 32-bit sum wrapped, the
      value, but not its alignment bytes, lies in the blob. */
  lemma {:induction false} AcceptedProp(b: seq<byte>, p: int)
    requires Buf(b) && Version(b) >= 16 && 0 <= p < 0x8000_0000 && PropFits(b, p) && CheckPropOffset(b, p) >= 0
    ensures var len := Ld32(b, OffStruct(b) + p + 4); len < 0xffff_fff4 ==> OffStruct(b) + p + 12 + len <= TotalSize(b)
  {
    var len := Ld32(b, OffStruct(b) + p + 4);
    NextTagDef(b, p);
    OffsetPtrMeans(b, p, 4);
    var off := PropEnd(Version(b), p, len);
    U32Small(p + 12 + len);
    U32Small(off - p);
    U32Small(12 + len);
    OffsetPtrMeans(b, p, U32(off - p));
  }

  lemma {:induction false} NopLengthIs(stored: int)
    requires 0 <= stored < 0x1_0000_0000
    ensures stored < 0x7fff_fff4 ==> NopLength(stored) == stored + 12
    ensures stored >= 0xffff_fff4 ==> NopLength(stored) == stored + 12 - 0x1_0000_0000
  {
    U32Small(stored);
    U32Small(I32(stored) + 12);
  }

  /** fdt_nop_property keeps every word it writes inside the buffer iff the stored length wraps,
      when it writes at most the twelve bytes of the property header, or the buffer has the
      alignment bytes of the value, which no test of libfdt asks for. */
  lemma {:induction false} NopPropertyStays(b: seq<byte>, nodeoff: int, name: seq<byte>)
    requires Buf(b) && Version(b) >= 16 && nodeoff < 0x8000_0000 && GetProperty(b, nodeoff, name) >= 0
    ensures var p := GetProperty(b, nodeoff, name);
            var r := NopProperty(b, nodeoff, name);
            PropFits(b, p) &&
            var len := Ld32(b, OffStruct(b) + p + 4);
            (r.code == 0 || r == Res(STRAYS, b)) &&
            (r.code == 0 <==> len >= 0xffff_fff4 || OffStruct(b) + p + 12 + TagAlign(len) <= |b|)
  {
    var p := GetProperty(b, nodeoff, name);
    GetPropertyFound(b, nodeoff, name);
    AcceptedProp(b, p);
    NopLengthIs(Ld32(b, OffStruct(b) + p + 4));
  }

  /** A last property with a value of one byte and no alignment bytes behind it is found, and
      then overwritten by four words, three bytes more than the buffer has. */
  lemma {:induction false} NopPropertyStrays(b: seq<byte>, nodeoff: int, name: seq<byte>)
    requires Buf(b) && Version(b) >= 16 && nodeoff < 0x8000_0000 && GetProperty(b, nodeoff, name) >= 0
    requires var p := GetProperty(b, nodeoff, name); OffStruct(b) + p + 13 == |b| && Ld32(b, OffStruct(b) + p + 4) == 1
    ensures NopProperty(b, nodeoff, name) == Res(STRAYS, b)
  {
    NopPropertyStays(b, nodeoff, name);
  }

  // ---- fdt_setprop_inplace_namelen_partial ----

  /** fdt_setprop_inplace_namelen_partial: |val| bytes from index idx of the value.  The size
      test is a sum of 32 bits; the copy goes to the full index. */
  ghost function SetPropPartial(b: seq<byte>, nodeoff: int, name: seq<byte>, idx: nat, val: seq<byte>): (r: Res)
    requires Buf(b) && Version(b) >= 16 && nodeoff < 0x8000_0000 && idx < 0x1_0000_0000 && |val| < 0x7fff_fff0
    ensures |r.blob| == |b|
  {
    var p := GetProperty(b, nodeoff, name);
    if p < 0 then Res(p, b)
    else if !PropFits(b, p) then Res(STRAYS, b)
    else if Ld32(b, OffStruct(b) + p + 4) < U32(idx + |val|) then Res(NOSPACE, b)
    else if OffStruct(b) + p + 12 + idx + |val| > |b| then Res(STRAYS, b)
    else Res(0, Put(b, OffStruct(b) + p + 12 + idx, val))
  }

  /** What the function is for: patch the value of exactly that property in place, or report
      that the patch does not fit in the value. */
  ghost predicate PatchesOrRefuses(b: seq<byte>, t: Items, p: seq<nat>, name: seq<byte>, idx: nat, val: seq<byte>,
    r: Res)
    requires Addresses(b, t, p) && Value(Get(Trees(b, t), p).value.props, name).Some?
  {
    var tree := Get(Trees(b, t), p).value;
    var v := Value(tree.props, name).value;
    if |v| < idx + |val| then r == Res(NOSPACE, b)
    else r.code == 0 && Becomes(b, r.blob, t, p, [WithProp(tree, name, Put(v, idx, val))]) &&
         HeaderOf(r.blob) == HeaderOf(b) && Strings(r.blob) == Strings(b)
  }

  /** Without such a property it reports NOTFOUND.  With one, it does what it is for iff the sum
      of index and length does not wrap, or exceeds the length of the value although it wraps;
      in all other cases the copy goes outside the buffer. */
  lemma {:induction false} SetPropPartialRefines(b: seq<byte>, t: Items, p: seq<nat>, name: seq<byte>, idx: nat,
    val: seq<byte>)
    requires Addresses(b, t, p) && |name| < 0x7fff_fff0 && idx < 0x1_0000_0000 && |val| < 0x7fff_fff0
    ensures NodeOffset(t, p) < 0x8000_0000 && Version(b) >= 16
    ensures var r := SetPropPartial(b, NodeOffset(t, p), name, idx, val);
            var v := Value(Get(Trees(b, t), p).value.props, name);
            if v.None? then r == Res(NOTFOUND, b)
            else
              (PatchesOrRefuses(b, t, p, name, idx, val, r) <==>
                 idx + |val| < 0x1_0000_0000 ||
                 U32(idx + |val|) > |v.value|) &&
              (!PatchesOrRefuses(b, t, p, name, idx, val, r) ==> r == Res(STRAYS, b))
  {
    Located(b, t, p);
    var c, n := CtxAt(t, p), ItemsAt(t, p);
    NodeFacts(b, c, n);
    HoldsProper(b, c, n);
    FindPropHas(n.body, Strings(b), name);
    ValueFound(n.body, Strings(b), name);
    GetPropertyIs(b, PreSize(c), n.name, n.body, name);
    if FindProp(n.body, Strings(b), name).Some? {
      var x, h := PropTail(n.body, Strings(b), name), PropOffset(b, c, n, name);
      PropertyFound(b, c, n, name, x, h);
      SetPropPartialEval(b, PreSize(c), name, idx, val, h, |x.tok.val|);
      if |x.tok.val| >= idx + |val| {
        PatchTree(b, c, n, name, x, h, idx, val);
      }
    }
  }

  lemma {:induction false} SetPropPartialEval(b: seq<byte>, o: int, name: seq<byte>, idx: nat, val: seq<byte>,
    h: int, len: nat)
    requires Buf(b) && Version(b) >= 16 && o < 0x8000_0000 && idx < 0x1_0000_0000 && |val| < 0x7fff_fff0
    requires 0 <= h && GetProperty(b, o, name) == h && PropFits(b, h) &&
             Ld32(b, OffStruct(b) + h + 4) == len < 0x8000_0000
    ensures var r := SetPropPartial(b, o, name, idx, val);
            if idx + |val| <= len then
              OffStruct(b) + h + 12 + idx + |val| <= |b| ==> r == Res(0, Put(b, OffStruct(b) + h + 12 + idx, val))
            else if idx + |val| < 0x1_0000_0000 || U32(idx + |val|) > len then r == Res(NOSPACE, b)
            else r == Res(STRAYS, b)
  {
    U32Small(idx + |val|);
  }

  /** One byte at index 0xffffffff: the sum is 0, so no value is too short for the test, and the
      byte goes outside the buffer. */
  lemma {:induction false} SetPropPartialStrays(b: seq<byte>, t: Items, p: seq<nat>, name: seq<byte>, c: byte)
    requires Addresses(b, t, p) && HasProp(Get(Trees(b, t), p).value.props, name)
    ensures NodeOffset(t, p) < 0x8000_0000 && Version(b) >= 16
    ensures SetPropPartial(b, NodeOffset(t, p), name, 0xffff_ffff, [c]) == Res(STRAYS, b)
  {
    var d, n := CtxAt(t, p), ItemsAt(t, p);
    Located(b, t, p);
    NodeFacts(b, d, n);
    HoldsProper(b, d, n);
    FindPropHas(n.body, Strings(b), name);
    PropertyFound(b, d, n, name, PropTail(n.body, Strings(b), name), PropOffset(b, d, n, name));
    SetPropPartialEval(b, PreSize(d), name, 0xffff_ffff, [c], PropOffset(b, d, n, name),
      |PropTail(n.body, Strings(b), name).tok.val|);
    U32Small(0x1_0000_0000);
  }

  lemma {:induction false} ValueFound(t: Items, strs: seq<byte>, name: seq<byte>)
    requires Named(t, strs) && Ordered(t)
    ensures Value(Props(t, strs), name).Some? <==> FindProp(t, strs, name).Some?
    ensures FindProp(t, strs, name).Some? ==>
              PropTail(t, strs, name).Leaf? && PropTail(t, strs, name).tok.Prop? &&
              Value(Props(t, strs), name) == Some(PropTail(t, strs, name).tok.val)
    decreases t
  {
    match t
    case Nil =>
    case Leaf(tok, next) =>
      ValueFound(next, strs, name);
      if tok.Prop? {
        assert Props(t, strs)[1..] == Props(next, strs);
      }
    case Node(_, _, next) => NoPropsNone(next, strs);
  }

  lemma {:induction false} PatchTree(b: seq<byte>, c: Ctx, n: Items, name: seq<byte>, x: Items, h: int, idx: nat,
    val: seq<byte>)
    requires n.Node? && Holds(b, Plug(c, n)) && FindProp(n.body, Strings(b), name).Some?
    requires x == PropTail(n.body, Strings(b), name) && h == PropOffset(b, c, n, name)
    requires x.Leaf? && x.tok.Prop? ==> idx + |val| <= |x.tok.val|
    ensures x.Leaf? && x.tok.Prop? && OffStruct(b) + h + 12 + idx + |val| <= |b|
    ensures var b' := Put(b, OffStruct(b) + h + 12 + idx, val);
            HeaderOf(b') == HeaderOf(b) && Becomes(b, b', Plug(c, n), PathOf(c),
              [WithProp(TreeOf(n.name, n.body, Strings(b)), name, Put(x.tok.val, idx, val))]) &&
                Strings(b') == Strings(b)
  {
    var strs, d := Strings(b), PropCtx(n.body, Strings(b), name);
    PropSplit(n.body, strs, name);
    PropertyFound(b, c, n, name, x, h);
    SizeDef(x);
    PutStruct(b, h + 12 + idx, val);
    var b' := Put(b, OffStruct(b) + h + 12 + idx, val);
    var v := Put(x.tok.val, idx, val);
    Patched(Struct(b), h, x, idx, val, SizeStruct(b));
    var n' := n.(body := Plug(d, Leaf(Prop(x.tok.nameoff, v), x.next)));
    HoldsProper(b, c, n);
    PropsEdited(n.body, strs, name, v);
    FindPropHas(n.body, strs, name);
    ProperDef(n'.body, strs);
    BodyHolds(b, b', c, n, d, h, x, Leaf(Prop(x.tok.nameoff, v), x.next));
    NodeForest(c, n, n', strs);
    assert BecomesItems(b, b', Plug(c, n), PathOf(c), [TreeOf(n'.name, n'.body, strs)], Plug(c, n'));
  }

  lemma {:induction false} Patched(s: seq<byte>, h: int, x: Items, idx: nat, val: seq<byte>, n: int)
    requires x.Leaf? && x.tok.Prop? && idx + |val| <= |x.tok.val| && 0 <= h && Lies(s, h, x) && Spells(s, h, x.tok)
    requires h + Size(x) <= n == |s| && h + TokSize(x.tok) <= n
    ensures var s', x' := Put(s, h + 12 + idx, val), Leaf(Prop(x.tok.nameoff, Put(x.tok.val, idx, val)), x.next);
            Size(x') == Size(x) && Same(s, 0, s', 0, h) && Lies(s', h, x') &&
              Same(s, h + Size(x), s', h + Size(x), n - h - Size(x))
  {
    var s', k' := Put(s, h + 12 + idx, val), Prop(x.tok.nameoff, Put(x.tok.val, idx, val));
    SizeDef(x);
    SizeDef(Leaf(k', x.next));
    PatchedTok(s, h, x.tok, idx, val);
    PutSlice(s, h + 12 + idx, val, 0, h);
    SameDef(s, 0, s', 0, h);
    var m := h + TokSize(x.tok);
    PutSlice(s, h + 12 + idx, val, m, n);
    SameDef(s, m, s', m, n - m);
    LiesLeaf(s, h, x.tok, x.next);
    TailMoved(s, m, s', m, n - m, x.next);
    LiesLeaf(s', h, k', x.next);
    SamePart(s, m, s', m, n - m, Size(x.next), n - m - Size(x.next));
  }

  lemma {:induction false} PatchedTok(s: seq<byte>, h: int, k: Tok, idx: nat, val: seq<byte>)
    requires k.Prop? && idx + |val| <= |k.val| && 0 <= h && Spells(s, h, k)
    ensures TokAt(Put(s, h + 12 + idx, val), h) == Prop(k.nameoff, Put(k.val, idx, val))
  {
    var s', k' := Put(s, h + 12 + idx, val), Prop(k.nameoff, Put(k.val, idx, val));
    LdPutOther(s, h + 12 + idx, val, h);
    LdPutOther(s, h + 12 + idx, val, h + 4);
    LdPutOther(s, h + 12 + idx, val, h + 8);
    PutWithin(s, h + 12 + idx, val, h + 12, h + 12 + |k.val|);
    TokIs(s', h, k');
  }
}
