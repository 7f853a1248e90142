/** flattree.c: dt_to_blob for version 17, against what libfdt reads, and unflatten_tree. */
module FlatBlob {
  import opened Bytes
  import opened Syntax
  import opened DeviceTree
  import opened Fdt
  import opened Blob
  import opened Edit
  import opened SeqFinish
  import opened FlatTree

  // ---- dt_to_blob ----

  /** The versions of version_table. */
  predicate KnownVersion(v: int) { v in {1, 2, 3, 16, 17} }

  /** hdr_size and last_comp_version of version_table. */
  function HdrSize(v: int): nat { if v <= 1 then 28 else if v == 2 then 32 else if v == 17 then 40 else 36 }

  function LastCompOf(v: int): nat { if v < 16 then 1 else 16 }

  /** Where the reservation entries start: the header, aligned to eight bytes. */
  function RsvStart(v: int): nat { if v <= 2 then 32 else 40 }

  ghost function SetIf(c: bool, h: seq<byte>, f: int, v: int): (r: seq<byte>)
    requires |h| >= 40 && IsField(f)
    ensures |r| == |h|
  {
    if c then Set(h, f, v) else h
  }

  /** make_fdt_header; the fields that a version does not have keep 0xff in every byte. */
  ghost function MakeHeader(v: int, rsvSize: nat, dtSize: nat, strSize: nat, bootCpu: int, pad: nat): (h: seq<byte>)
    ensures |h| == 40
  {
    var off := RsvStart(v) + rsvSize + 16;
    var h0: seq<byte> := seq(40, i => 255);
    var h1 := Set(Set(Set(h0, AT_MAGIC, FDT_MAGIC), AT_VERSION, v), AT_LAST_COMP, LastCompOf(v));
    var h2 := Set(Set(Set(h1, AT_OFF_RSV, RsvStart(v)), AT_OFF_STRUCT, off), AT_OFF_STRINGS, off + dtSize);
    var h3 := SetIf(v >= 2, Set(h2, AT_TOTALSIZE, off + dtSize + strSize + pad), AT_BOOT_CPU, bootCpu);
    SetIf(v >= 17, SetIf(v >= 3, h3, AT_SIZE_STRINGS, strSize), AT_SIZE_STRUCT, dtSize)
  }

  /** The blob: as much of the header as the version has, the entries rsv, the final entry, the two
      blocks, and pad more bytes. */
  ghost function Assemble(v: int, rsv: seq<byte>, out: Out, bootCpu: int, pad: nat): seq<byte> {
    MakeHeader(v, |rsv|, |out.dt|, |out.strs|, bootCpu, pad)[..HdrSize(v)] + Zeros(RsvStart(v) - HdrSize(v)) + rsv +
    Zeros(16) + out.dt + out.strs + Zeros(pad)
  }

  /** dt_to_blob for version 17: the tree t, the reservation entries rsv and pad more bytes. */
  ghost function DtToBlob(t: Tree, rsv: seq<byte>, bootCpu: int, pad: nat): seq<byte> {
    Assemble(17, rsv, Blocks(t), bootCpu, pad)
  }

  lemma {:induction false} SetIfHeader(c: bool, h: seq<byte>, f: int, v: int)
    requires |h| >= 40 && IsField(f) && 0 <= v < 0x1_0000_0000
    ensures HeaderOf(SetIf(c, h, f, v)) == if c then With(HeaderOf(h), f, v) else HeaderOf(h)
  {
    SetHeader(h, f, v);
  }

  lemma {:induction false} MakeHeaderIs(v: int, rsvSize: nat, dtSize: nat, strSize: nat, bootCpu: int, pad: nat)
    requires KnownVersion(v) && RsvStart(v) + rsvSize + 16 + dtSize + strSize + pad < 0x1_0000_0000
    requires 0 <= bootCpu < 0x1_0000_0000
    ensures var off := RsvStart(v) + rsvSize + 16;
            var h := HeaderOf(MakeHeader(v, rsvSize, dtSize, strSize, bootCpu, pad));
            h == Header(FDT_MAGIC, off + dtSize + strSize + pad, off, off + dtSize, RsvStart(v), v, LastCompOf(v),
                        h.bootCpu, h.sizeStrings, h.sizeStruct) &&
            (v >= 2 ==> h.bootCpu == bootCpu) && (v >= 3 ==> h.sizeStrings == strSize) &&
            (v >= 17 ==> h.sizeStruct == dtSize)
  {
    var off := RsvStart(v) + rsvSize + 16;
    var h0: seq<byte> := seq(40, i => 255);
    var h1 := Set(h0, AT_MAGIC, FDT_MAGIC);
    var h2 := Set(h1, AT_VERSION, v);
    var h3 := Set(h2, AT_LAST_COMP, LastCompOf(v));
    var h4 := Set(h3, AT_OFF_RSV, RsvStart(v));
    var h5 := Set(h4, AT_OFF_STRUCT, off);
    var h6 := Set(h5, AT_OFF_STRINGS, off + dtSize);
    var h7 := Set(h6, AT_TOTALSIZE, off + dtSize + strSize + pad);
    var h8 := SetIf(v >= 2, h7, AT_BOOT_CPU, bootCpu);
    var h9 := SetIf(v >= 3, h8, AT_SIZE_STRINGS, strSize);
    SetHeader(h0, AT_MAGIC, FDT_MAGIC);
    SetHeader(h1, AT_VERSION, v);
    SetHeader(h2, AT_LAST_COMP, LastCompOf(v));
    SetHeader(h3, AT_OFF_RSV, RsvStart(v));
    SetHeader(h4, AT_OFF_STRUCT, off);
    SetHeader(h5, AT_OFF_STRINGS, off + dtSize);
    SetHeader(h6, AT_TOTALSIZE, off + dtSize + strSize + pad);
    SetIfHeader(v >= 2, h7, AT_BOOT_CPU, bootCpu);
    SetIfHeader(v >= 3, h8, AT_SIZE_STRINGS, strSize);
    SetIfHeader(v >= 17, h9, AT_SIZE_STRUCT, dtSize);
  }

  lemma {:induction false} Laid(h: seq<byte>, rsv: seq<byte>, dt: seq<byte>, strs: seq<byte>, z: seq<byte>)
    ensures var b := h + rsv + dt + strs + z;
            b[0..|h|] == h && b[|h|..|h| + |rsv|] == rsv && b[|h| + |rsv|..|h| + |rsv| + |dt|] == dt &&
            b[|h| + |rsv| + |dt|..|h| + |rsv| + |dt| + |strs|] == strs
  {
  }

  /** The three blocks lie where the header says. */
  lemma {:induction false} DtToBlobSane(t: Tree, rsv: seq<byte>, bootCpu: int, pad: nat)
    requires 0 <= bootCpu < 0x1_0000_0000 && |DtToBlob(t, rsv, bootCpu, pad)| <= 0x7fff_fff0
    ensures var b := DtToBlob(t, rsv, bootCpu, pad);
            Sane(b) && TotalSize(b) == |b| && BootCpu(b) == bootCpu && Rsv(b) == rsv + Zeros(16) &&
            Struct(b) == Blocks(t).dt && Strings(b) == Blocks(t).strs
  {
    var out := Blocks(t);
    var h := MakeHeader(17, |rsv|, |out.dt|, |out.strs|, bootCpu, pad);
    var b := DtToBlob(t, rsv, bootCpu, pad);
    assert h[..40] == h && Zeros(0) == [];
    assert b == h + (rsv + Zeros(16)) + out.dt + out.strs + Zeros(pad);
    MakeHeaderIs(17, |rsv|, |out.dt|, |out.strs|, bootCpu, pad);
    Laid(h, rsv + Zeros(16), out.dt, out.strs, Zeros(pad));
    assert b[..40] == b[0..40] && h[..40] == h;
    HeaderKept(h, b);
    RsvDef(b);
    StructDef(b);
    StringsDef(b);
  }

  /** The compiler's output is a blob that libfdt reads as exactly that tree. */
  lemma {:induction false} DtToBlobHolds(t: Tree, rsv: seq<byte>, bootCpu: int, pad: nat)
    requires Nameable(t) && 0 <= bootCpu < 0x1_0000_0000 && |DtToBlob(t, rsv, bootCpu, pad)| <= 0x7fff_fff0
    ensures var b := DtToBlob(t, rsv, bootCpu, pad);
            Sane(b) && CheckHeader(b) == 0 && Rsv(b) == rsv + Zeros(16) && BootCpu(b) == bootCpu &&
            exists x :: Holds(b, x) && Single(x) && Trees(b, x) == [t]
  {
    var b := DtToBlob(t, rsv, bootCpu, pad);
    DtToBlobSane(t, rsv, bootCpu, pad);
    SaneChecks(b);
    BlocksHold(t);
    var x :| Spells1(Blocks(t), x) && x.Node? && x.next == Nil && Proper(x, Blocks(t).strs) &&
      Forest(x, Blocks(t).strs) == [t];
    HoldsDef(b, x);
    assert Holds(b, x) && Single(x) && Trees(b, x) == [t];
  }

  /** One root node, and no FDT_NOP beside it. */
  predicate Single(x: Items) { x.Node? && x.next == Nil }

  // ---- unflatten_tree ----

  /** What a reading function returns: a value and the cursor, or the end of the program by
      die() or by the failing assertion of flat_read_word, or a copy that goes outside the buffer. */
  datatype Read<T> = Got(value: T, at: nat) | Died | AssertFailed | Strayed

  /** The same end, for a caller that reads something else. */
  function Lost<T, U>(r: Read<T>): (l: Read<U>)
    requires !r.Got?
    ensures !l.Got? && (l.Died? <==> r.Died?) && (l.Strayed? <==> r.Strayed?)
  {
    match r
    case Died => Died
    case AssertFailed => AssertFailed
    case Strayed => Strayed
  }

  /** flat_read_word. */
  ghost function ReadWord(s: seq<byte>, o: nat): (r: Read<int>)
    ensures r.Got? ==> r.at == o + 4 <= |s| && r.value == Ld32(s, o)
    ensures !r.Strayed?
  {
    if o % 4 != 0 then AssertFailed else if o + 4 > |s| then Died else Got(Ld32(s, o), o + 4)
  }

  /** flat_read_string, realigned. */
  ghost function ReadString(s: seq<byte>, o: nat): (r: Read<seq<byte>>)
    ensures r.Got? ==> o < r.at <= |s|
    ensures !r.AssertFailed? && !r.Strayed?
  {
    if o > |s| then Died
    else
      var z := NulIndex(s, o);
      if z.None? || Align4(z.value + 1) > |s| then Died else Got(s[o..z.value], Align4(z.value + 1))
  }

  /** flat_read_data takes the length as an int: a negative one passes the test for the end of the
      block, and its copy goes outside. */
  ghost predicate Negative(len: int) { len >= 0x8000_0000 }

  /** flat_read_property after the tag, without FTF_VARALIGN. */
  ghost function ReadProp(s: seq<byte>, strs: seq<byte>, o: nat): (r: Read<Property>)
    ensures r.Got? ==> o < r.at <= |s|
  {
    var len := ReadWord(s, o);
    if !len.Got? then Lost(len)
    else
      var off := ReadWord(s, len.at);
      if !off.Got? then Lost(off)
      else
        var name := StrAt(strs, off.value);
        if name.None? then Died
        else if Negative(len.value) then Strayed
        else if off.at + len.value > |s| || Align4(off.at + len.value) > |s| then Died
        else Got(Property(name.value, s[off.at..off.at + len.value]), if len.value == 0 then off.at
          else Align4(off.at + len.value))
  }

  /** unflatten_tree without FTF_FULLPATH, after FDT_BEGIN_NODE. */
  ghost function Unflatten(s: seq<byte>, strs: seq<byte>, o: nat): (r: Read<Tree>)
    ensures r.Got? ==> o < r.at <= |s|
    decreases |s| - o, 1
  {
    var name := ReadString(s, o);
    if !name.Got? then Died else UnflattenLoop(s, strs, name.at, name.value, [], [])
  }

  /** Its loop, with the properties and children added so far. */
  ghost function UnflattenLoop(s: seq<byte>, strs: seq<byte>, o: nat, name: seq<byte>, ps: seq<Property>,
    ks: seq<Tree>): (r: Read<Tree>)
    ensures r.Got? ==> o < r.at <= |s|
    decreases |s| - o, 0
  {
    var tag := ReadWord(s, o);
    if !tag.Got? then Lost(tag)
    else if tag.value == FDT_PROP then
      var p := ReadProp(s, strs, tag.at);
      if !p.Got? then Lost(p) else UnflattenLoop(s, strs, p.at, name, ps + [p.value], ks)
    else if tag.value == FDT_BEGIN_NODE then
      var k := Unflatten(s, strs, tag.at);
      if !k.Got? then k else UnflattenLoop(s, strs, k.at, name, ps, ks + [k.value])
    else if tag.value == FDT_END_NODE then Got(Tree(name, ps, ks), tag.at)
    else if tag.value == FDT_NOP then UnflattenLoop(s, strs, tag.at, name, ps, ks)
    else Died
  }

  /** The alignment assertion never fails, on any input: every step of the reader ends at a
      multiple of four. */
  lemma {:induction false} NeverMisaligned(s: seq<byte>, strs: seq<byte>, o: nat)
    requires o % 4 == 0
    ensures !Unflatten(s, strs, o).AssertFailed? && (Unflatten(s, strs, o).Got? ==> Unflatten(s, strs, o).at % 4 == 0)
    decreases |s| - o, 1
  {
    var name := ReadString(s, o);
    if name.Got? {
      AlignDef(NulIndex(s, o).value + 1);
      LoopAligned(s, strs, name.at, name.value, [], []);
    }
  }

  lemma {:induction false} LoopAligned(s: seq<byte>, strs: seq<byte>, o: nat, name: seq<byte>, ps: seq<Property>,
    ks: seq<Tree>)
    requires o % 4 == 0
    ensures var r := UnflattenLoop(s, strs, o, name, ps, ks); !r.AssertFailed? && (r.Got? ==> r.at % 4 == 0)
    decreases |s| - o, 0
  {
    var tag := ReadWord(s, o);
    if tag.Got? {
      if tag.value == FDT_PROP {
        var p := ReadProp(s, strs, tag.at);
        if p.Got? {
          AlignDef(o + 12 + Ld32(s, o + 4));
          LoopAligned(s, strs, p.at, name, ps + [p.value], ks);
        }
      } else if tag.value == FDT_BEGIN_NODE {
        NeverMisaligned(s, strs, tag.at);
        var k := Unflatten(s, strs, tag.at);
        if k.Got? {
          LoopAligned(s, strs, k.at, name, ps, ks + [k.value]);
        }
      } else if tag.value == FDT_NOP {
        LoopAligned(s, strs, tag.at, name, ps, ks);
      }
    }
  }

  /** A property is read outside the buffer iff its words are there, its name is found and its
      stored length is 2^31 or more. */
  lemma {:induction false} ReadPropStrays(s: seq<byte>, strs: seq<byte>, o: nat)
    requires o % 4 == 0
    ensures ReadProp(s, strs, o).Strayed? <==>
            o + 8 <= |s| && Ld32(s, o) >= 0x8000_0000 && StrAt(strs, Ld32(s, o + 4)).Some?
  {
  }

  /** A property with such a length. */
  ghost predicate NegativeAt(s: seq<byte>, o: nat) {
    o % 4 == 0 && o + 12 <= |s| && Ld32(s, o) == FDT_PROP && Ld32(s, o + 4) >= 0x8000_0000
  }

  /** Without one nothing is read outside the buffer. */
  lemma {:induction false} UnflattenStays(s: seq<byte>, strs: seq<byte>, o: nat)
    requires o % 4 == 0 && forall q: nat :: !NegativeAt(s, q)
    ensures !Unflatten(s, strs, o).Strayed?
    decreases |s| - o, 1
  {
    var name := ReadString(s, o);
    if name.Got? {
      AlignDef(NulIndex(s, o).value + 1);
      LoopStays(s, strs, name.at, name.value, [], []);
    }
  }

  lemma {:induction false} LoopStays(s: seq<byte>, strs: seq<byte>, o: nat, name: seq<byte>, ps: seq<Property>,
    ks: seq<Tree>)
    requires o % 4 == 0 && forall q: nat :: !NegativeAt(s, q)
    ensures !UnflattenLoop(s, strs, o, name, ps, ks).Strayed?
    decreases |s| - o, 0
  {
    var tag := ReadWord(s, o);
    if tag.Got? {
      if tag.value == FDT_PROP {
        ReadPropStrays(s, strs, tag.at);
        assert !NegativeAt(s, o);
        var p := ReadProp(s, strs, tag.at);
        if p.Got? {
          AlignDef(o + 12 + Ld32(s, o + 4));
          LoopStays(s, strs, p.at, name, ps + [p.value], ks);
        }
      } else if tag.value == FDT_BEGIN_NODE {
        UnflattenStays(s, strs, tag.at);
        NeverMisaligned(s, strs, tag.at);
        var k := Unflatten(s, strs, tag.at);
        if k.Got? {
          LoopStays(s, strs, k.at, name, ps, ks + [k.value]);
        }
      } else if tag.value == FDT_NOP {
        LoopStays(s, strs, tag.at, name, ps, ks);
      }
    }
  }

  // ---- the reader against the items ----

  lemma {:induction false} ReadTag(s: seq<byte>, o: nat, k: Tok)
    requires Aligned(o) && TokAt(s, o) == k && !k.Bad?
    ensures ReadWord(s, o) == Got(TagOf(k), o + 4) && o + TokSize(k) <= |s| && Aligned(o + TokSize(k)) &&
            Spells(s, o, k)
  {
    TokIs(s, o, k);
    AlignedMod(o);
    TokSizeAligned(k);
    AlignedAdd(o, TokSize(k));
  }

  lemma {:induction false} ReadPropIs(s: seq<byte>, strs: seq<byte>, o: nat, k: Tok)
    requires Aligned(o) && TokAt(s, o) == k && k.Prop? && StrAt(strs, k.nameoff).Some? && |s| < 0x8000_0000
    ensures ReadProp(s, strs, o + 4) == Got(Property(StrAt(strs, k.nameoff).value, k.val), o + TokSize(k))
  {
    ReadTag(s, o, k);
    AlignedMod(o);
    AlignedConst();
    AlignedAdd(o, 12);
    AlignedAdd(o + 12, |k.val|);
    AlignDef(0);
  }

  lemma {:induction false} ReadNameIs(s: seq<byte>, o: nat, name: seq<byte>)
    requires Aligned(o) && TokAt(s, o) == Open(name)
    ensures ReadString(s, o + 4) == Got(name, o + OpenSize(|name|))
  {
    ReadTag(s, o, Open(name));
    NulIndexIs(s, o + 4, name);
    AlignedConst();
    AlignedAdd(o, 4);
    AlignedAdd(o + 4, |name| + 1);
  }

  /** The loop reads the items of a node, NOPs skipped, into its properties and children. */
  lemma {:induction false} LoopReads(s: seq<byte>, strs: seq<byte>, o: nat, t: Items, name: seq<byte>,
    ps: seq<Property>, ks: seq<Tree>)
    requires Aligned(o) && Lies(s, o, t) && TokAt(s, o + Size(t)) == Close && Named(t, strs) && |s| < 0x8000_0000
    ensures ReadAs(s, strs, o, name, ps, ks, t)
    decreases t, 2
  {
    SizeDef(t);
    match t
    case Nil =>
      ReadTag(s, o, Close);
      assert ps + [] == ps && ks + [] == ks;
    case Leaf(tok, next) => LeafReads(s, strs, o, tok, next, name, ps, ks);
    case Node(nodename, body, next) => ChildReads(s, strs, o, nodename, body, next, name, ps, ks);
  }

  /** The loop from o on reads the items t and the FDT_END_NODE behind them. */
  ghost predicate ReadAs(s: seq<byte>, strs: seq<byte>, o: nat, name: seq<byte>, ps: seq<Property>, ks: seq<Tree>,
    t: Items) {
    UnflattenLoop(s, strs, o, name, ps, ks) ==
      Got(Tree(name, ps + Props(t, strs), ks + Forest(t, strs)), o + Size(t) + 4)
  }

  lemma {:induction false} LeafReads(s: seq<byte>, strs: seq<byte>, o: nat, tok: Tok, next: Items, name: seq<byte>,
    ps: seq<Property>, ks: seq<Tree>)
    requires |s| < 0x8000_0000
    requires var t := Leaf(tok, next); Aligned(o) && Lies(s, o, t) && TokAt(s, o + Size(t)) == Close && Named(t, strs)
    ensures ReadAs(s, strs, o, name, ps, ks, Leaf(tok, next))
    decreases next, 3
  {
    var t := Leaf(tok, next);
    SizeDef(t);
    LiesLeaf(s, o, tok, next);
    var qs := ps + if tok.Prop? then [Property(StrAt(strs, tok.nameoff).value, tok.val)] else [];
    LeafRead(s, strs, o, tok, name, ps, ks, qs);
    LoopReads(s, strs, o + TokSize(tok), next, name, qs, ks);
    assert qs + Props(next, strs) == ps + Props(t, strs);
  }

  lemma {:induction false} ChildReads(s: seq<byte>, strs: seq<byte>, o: nat, nodename: seq<byte>, body: Items,
    next: Items, name: seq<byte>, ps: seq<Property>, ks: seq<Tree>)
    requires |s| < 0x8000_0000
    requires var t := Node(nodename, body, next);
               Aligned(o) && Lies(s, o, t) && TokAt(s, o + Size(t)) == Close &&
               Named(t, strs)
    ensures ReadAs(s, strs, o, name, ps, ks, Node(nodename, body, next))
    decreases Node(nodename, body, next), 1
  {
    var t := Node(nodename, body, next);
    SizeDef(t);
    LiesNode(s, o, nodename, body, next);
    var x := TreeOf(nodename, body, strs);
    NodeReads(s, strs, o, nodename, body);
    LoopReads(s, strs, o + NodeSize(nodename, body), next, name, ps, ks + [x]);
    NodeRead(s, strs, o, name, ps, ks, x, o + NodeSize(nodename, body));
    assert ks + [x] + Forest(next, strs) == ks + ([x] + Forest(next, strs));
  }

  lemma {:induction false} LeafRead(s: seq<byte>, strs: seq<byte>, o: nat, k: Tok, name: seq<byte>,
    ps: seq<Property>, ks: seq<Tree>, qs: seq<Property>)
    requires |s| < 0x8000_0000
    requires Aligned(o) && TokAt(s, o) == k && IsLeaf(k) && (k.Prop? ==> StrAt(strs, k.nameoff).Some?)
    requires qs == ps + if k.Prop? then [Property(StrAt(strs, k.nameoff).value, k.val)] else []
    ensures Aligned(o + TokSize(k)) &&
            UnflattenLoop(s, strs, o, name, ps, ks) == UnflattenLoop(s, strs, o + TokSize(k), name, qs, ks)
  {
    ReadTag(s, o, k);
    if k.Prop? {
      ReadPropIs(s, strs, o, k);
    } else {
      assert ps + [] == ps;
    }
  }

  lemma {:induction false} NodeRead(s: seq<byte>, strs: seq<byte>, o: nat, name: seq<byte>, ps: seq<Property>,
    ks: seq<Tree>, x: Tree, e: nat)
    requires ReadWord(s, o) == Got(FDT_BEGIN_NODE, o + 4) && Unflatten(s, strs, o + 4) == Got(x, e)
    ensures UnflattenLoop(s, strs, o, name, ps, ks) == UnflattenLoop(s, strs, e, name, ps, ks + [x])
  {
  }

  /** unflatten_tree reads exactly the bytes of the node and returns its tree. */
  lemma {:induction false} NodeReads(s: seq<byte>, strs: seq<byte>, o: nat, name: seq<byte>, body: Items)
    requires Aligned(o) && NodeLies(s, o, name, body) && Named(body, strs) && |s| < 0x8000_0000
    ensures ReadWord(s, o) == Got(FDT_BEGIN_NODE, o + 4) && Aligned(o + NodeSize(name, body))
    ensures Unflatten(s, strs, o + 4) == Got(TreeOf(name, body, strs), o + NodeSize(name, body))
    decreases body, 3
  {
    ReadTag(s, o, Open(name));
    ReadNameIs(s, o, name);
    NodeSizeAligned(name, body);
    AlignedAdd(o, NodeSize(name, body));
    LoopReads(s, strs, o + OpenSize(|name|), body, name, [], []);
    assert [] + Props(body, strs) == Props(body, strs) && [] + Forest(body, strs) == Forest(body, strs);
  }

  // ---- the top level ----

  lemma {:induction false} TopReads(s: seq<byte>, strs: seq<byte>, x: Items)
    requires Lies(s, 0, x) && TokAt(s, Size(x)) == End && Named(x, strs) && |s| < 0x8000_0000
    ensures Single(x) ==> Forest(x, strs) != []
    ensures ReadWord(s, 0).Got?
    ensures !x.Node? ==> ReadWord(s, 0).value != FDT_BEGIN_NODE
    ensures x.Node? ==>
              ReadWord(s, 0).value == FDT_BEGIN_NODE &&
                Unflatten(s, strs, 4) == Got(TreeOf(x.name, x.body, strs), NodeSize(x.name, x.body)) &&
              var end := ReadWord(s, NodeSize(x.name, x.body)); end.Got? && (end.value == FDT_END <==> x.next == Nil)
  {
    SizeDef(x);
    AlignedConst();
    match x
    case Nil => ReadTag(s, 0, End);
    case Leaf(tok, next) =>
      LiesLeaf(s, 0, tok, next);
      ReadTag(s, 0, tok);
    case Node(name, body, next) =>
      LiesNode(s, 0, name, body, next);
      NodeReads(s, strs, 0, name, body);
      AfterRoot(s, NodeSize(name, body), next);
  }

  lemma {:induction false} AfterRoot(s: seq<byte>, o: nat, next: Items)
    requires Aligned(o) && Lies(s, o, next) && TokAt(s, o + Size(next)) == End
    ensures ReadWord(s, o).Got? && (ReadWord(s, o).value == FDT_END <==> next == Nil)
  {
    SizeDef(next);
    match next
    case Nil => ReadTag(s, o, End);
    case Leaf(tok, rest) =>
      LiesLeaf(s, o, tok, rest);
      ReadTag(s, o, tok);
    case Node(name, body, rest) =>
      LiesNode(s, o, name, body, rest);
      ReadTag(s, o, Open(name));
  }
}
