/** flattree.c: dt_to_blob and dt_from_blob for all versions, with the reservation list and the
    boot CPU. */
module FlatVersions {
  import opened Bytes
  import opened Syntax
  import opened DeviceTree
  import opened Fdt
  import opened Blob
  import opened Edit
  import opened SeqWrite
  import opened Pack
  import opened FlatTree
  import opened FlatBlob
  import opened FlatOld

  // ---- reservation entries ----

  datatype Reserve = Reserve(addr: int, size: int)

  ghost function Ld64(s: seq<byte>, o: int): int
    requires 0 <= o <= |s| - 8
  {
    Ld32(s, o) * 0x1_0000_0000 + Ld32(s, o + 4)
  }

  /** data_append_re for every entry. */
  ghost function FlatReserves(rs: seq<Reserve>): (s: seq<byte>)
    ensures |s| == 16 * |rs|
  {
    if rs == [] then [] else Entry(rs[0].addr, rs[0].size) + FlatReserves(rs[1..])
  }

  /** flat_read_mem_reserve from the cursor o on; None where it dies. */
  ghost function ReadReserves(s: seq<byte>, o: nat): Option<seq<Reserve>>
    decreases |s| - o
  {
    if o + 16 > |s| then None
    else if Ld64(s, o + 8) == 0 then Some([])
    else
      var r := ReadReserves(s, o + 16);
      if r.None? then None else Some([Reserve(Ld64(s, o), Ld64(s, o + 8))] + r.value)
  }

  /** The entries in front of the first one of size 0. */
  function UpToZero(rs: seq<Reserve>): seq<Reserve> {
    if rs == [] || rs[0].size == 0 then [] else [rs[0]] + UpToZero(rs[1..])
  }

  /** All entries, iff none has size 0. */
  lemma {:induction false} UpToZeroIs(rs: seq<Reserve>)
    ensures UpToZero(rs) == rs <==> forall i | 0 <= i < |rs| :: rs[i].size != 0
    decreases |rs|
  {
    if rs != [] {
      UpToZeroIs(rs[1..]);
      assert rs == [rs[0]] + rs[1..];
      assert forall i | 0 <= i < |rs| - 1 :: rs[1..][i] == rs[i + 1];
      if UpToZero(rs) == rs {
        assert UpToZero(rs)[1..] == UpToZero(rs[1..]);
      }
    }
  }

  predicate Wide(rs: seq<Reserve>) {
    forall i | 0 <= i < |rs| :: 0 <= rs[i].addr < 0x1_0000_0000_0000_0000 && 0 <= rs[i].size < 0x1_0000_0000_0000_0000
  }

  lemma {:induction false} Ld64Is(s: seq<byte>, o: int, v: int)
    requires 0 <= o <= |s| - 8 && s[o..o + 8] == Be64(v) && 0 <= v < 0x1_0000_0000_0000_0000
    ensures Ld64(s, o) == v
  {
    SliceSlice(s, o, o + 8, 0, 4);
    SliceSlice(s, o, o + 8, 4, 8);
    LdBe32(s, o, v / 0x1_0000_0000);
    LdBe32(s, o + 4, v % 0x1_0000_0000);
  }

  lemma {:induction false} EntryRead(s: seq<byte>, o: int, r: Reserve)
    requires 0 <= o <= |s| - 16 && s[o..o + 16] == Entry(r.addr, r.size) && Wide([r])
    ensures Ld64(s, o) == r.addr && Ld64(s, o + 8) == r.size
  {
    assert [r][0] == r;
    SliceSlice(s, o, o + 16, 0, 8);
    SliceSlice(s, o, o + 16, 8, 16);
    Ld64Is(s, o, r.addr);
    Ld64Is(s, o + 8, r.size);
  }

  lemma {:induction false} ZeroWord(s: seq<byte>, o: int, p: int)
    requires 0 <= o <= |s| - 16 && s[o..o + 16] == Zeros(16) && o <= p <= o + 12
    ensures Ld32(s, p) == 0
  {
    var z := s[o..o + 16];
    assert s[p] == z[p - o] && s[p + 1] == z[p - o + 1] && s[p + 2] == z[p - o + 2] && s[p + 3] == z[p - o + 3];
    LdDef(s, p);
  }

  lemma {:induction false} ZeroEntry(s: seq<byte>, o: int)
    requires 0 <= o <= |s| - 16 && s[o..o + 16] == Zeros(16)
    ensures Ld64(s, o + 8) == 0
  {
    ZeroWord(s, o, o + 8);
    ZeroWord(s, o, o + 12);
  }

  /** The list is read back up to its first entry of size 0. */
  lemma {:induction false} ReservesRead(s: seq<byte>, o: nat, rs: seq<Reserve>)
    requires Wide(rs) && o + 16 * |rs| + 16 <= |s|
    requires s[o..o + 16 * |rs| + 16] == FlatReserves(rs) + Zeros(16)
    ensures ReadReserves(s, o) == Some(UpToZero(rs))
    decreases |rs|
  {
    var x := FlatReserves(rs) + Zeros(16);
    if rs == [] {
      ZeroEntry(s, o);
    } else {
      var r := rs[0];
      assert x == Entry(r.addr, r.size) + (FlatReserves(rs[1..]) + Zeros(16));
      SliceSlice(s, o, o + |x|, 0, 16);
      SliceSlice(s, o, o + |x|, 16, |x|);
      assert [r][0] == r && Wide([r]);
      EntryRead(s, o, r);
      assert forall i | 0 <= i < |rs| - 1 :: rs[1..][i] == rs[i + 1];
      ReservesRead(s, o + 16, rs[1..]);
    }
  }

  /** The reader finds the end of the list iff fdt_num_mem_rsv does, after as many entries. */
  lemma {:induction false} ReservesCounted(b: seq<byte>, i: nat)
    requires Buf(b) && 40 <= TotalSize(b) && OffRsv(b) <= TotalSize(b) && OffRsv(b) + 16 * i < 0x1_0000_0000
    ensures var r := ReadReserves(b[OffRsv(b)..TotalSize(b)], 16 * i);
            if NumRsvFrom(b, i) < 0 then r.None? else r.Some? && |r.value| == NumRsvFrom(b, i) - i
    decreases |b| - 16 * i
  {
    var s, o := b[OffRsv(b)..TotalSize(b)], OffRsv(b) + 16 * i;
    if o <= TotalSize(b) - 16 {
      Word(b, OffRsv(b), TotalSize(b), 16 * i + 8);
      Word(b, OffRsv(b), TotalSize(b), 16 * i + 12);
      if !Terminator(b, o) {
        ReservesCounted(b, i + 1);
        assert 16 * (i + 1) == 16 * i + 16;
      }
    }
  }

  lemma {:induction false} Word(b: seq<byte>, lo: nat, hi: nat, o: nat)
    requires lo + o + 4 <= hi <= |b|
    ensures Ld32(b[lo..hi], o) == Ld32(b, lo + o)
  {
    SliceSlice(b, lo, hi, o, o + 4);
    SameDef(b[lo..hi], o, b, lo + o, 4);
    LdSame(b[lo..hi], o, b, lo + o);
  }

  // ---- dt_from_blob ----

  datatype Loaded = Loaded(rsv: seq<Reserve>, tree: Tree, bootCpu: int) | Dies | Misaligned | Strays

  /** flat_read_stringtable's block: up to its size from version 3 on, else up to the end. */
  ghost function StringTable(b: seq<byte>): seq<byte>
    requires Buf(b) && OffStrings(b) <= TotalSize(b) && (Version(b) >= 3 ==> DataSize(b) <= TotalSize(b))
  {
    if Version(b) >= 3 then b[OffStrings(b)..DataSize(b)] else b[OffStrings(b)..TotalSize(b)]
  }

  /** The tests on the header, in 32-bit arithmetic. */
  ghost predicate HeaderOk(b: seq<byte>)
    requires |b| >= 40
  {
    var total, offStr, offDt := TotalSize(b), OffStrings(b), OffStruct(b);
    Magic(b) == FDT_MAGIC && OffRsv(b) < total && offDt < total && offStr <= total &&
    (Version(b) >= 3 ==> offStr <= U32(offStr + SizeStrings(b)) <= total) &&
    (Version(b) >= 17 ==> offDt <= U32(offDt + SizeStruct(b)) <= total)
  }

  lemma {:induction false} HeaderOkMeans(b: seq<byte>)
    requires |b| >= 40 && HeaderOk(b)
    ensures (Version(b) >= 3 ==> DataSize(b) <= TotalSize(b)) &&
            (Version(b) >= 17 ==> OffStruct(b) + SizeStruct(b) <= TotalSize(b))
  {
    U32Small(OffStrings(b) + SizeStrings(b));
    U32Small(OffStruct(b) + SizeStruct(b));
  }

  /** The structure block, read from its first word to FDT_END. */
  ghost function ReadTree(s: seq<byte>, strs: seq<byte>, version: int): Read<Tree> {
    var tag := ReadWord(s, 0);
    if !tag.Got? then Lost(tag)
    else if tag.value != FDT_BEGIN_NODE then Died
    else
      var r := if version < 16 then UnflattenOld(s, strs, tag.at, []) else Unflatten(s, strs, tag.at);
      if !r.Got? then r
      else
        var end := ReadWord(s, r.at);
        if !end.Got? then Lost(end) else if end.value != FDT_END then Died else r
  }

  /** dt_from_blob on a file that has the bytes that its header asks for. */
  ghost function DtFromBlob(b: seq<byte>): Loaded
    requires Buf(b) && 40 <= TotalSize(b)
  {
    if !HeaderOk(b) then Dies
    else
      HeaderOkMeans(b);
      var rsv := ReadReserves(b[OffRsv(b)..TotalSize(b)], 0);
      if rsv.None? then Dies
      else
        match ReadTree(b[OffStruct(b)..TotalSize(b)], StringTable(b), Version(b))
        case Got(t, _) => Loaded(rsv.value, t, BootCpu(b))
        case Died => Dies
        case AssertFailed => Misaligned
        case Strayed => Strays
  }

  /** The alignment assertion never fails, on any blob of any version. */
  lemma {:induction false} LoadNeverMisaligned(b: seq<byte>)
    requires Buf(b) && 40 <= TotalSize(b)
    ensures DtFromBlob(b) != Misaligned
  {
    if HeaderOk(b) {
      HeaderOkMeans(b);
      NeverMisaligned(b[OffStruct(b)..TotalSize(b)], StringTable(b), 4);
      OldNeverMisaligned(b[OffStruct(b)..TotalSize(b)], StringTable(b), 4, []);
    }
  }

  /** On every blob that libfdt can edit, the decompiler returns the tree that libfdt reads, the
      boot CPU and as many reservation entries as libfdt counts, iff the list of these ends inside
      the blob and the root stands alone; without an end, with an FDT_NOP or a second node at the
      top level, or without any node, it dies. */
  lemma {:induction false} DtFromBlobReads(b: seq<byte>, x: Items)
    requires Holds(b, x)
    ensures 40 <= TotalSize(b) && OffRsv(b) < 0x1_0000_0000 &&
            var r := DtFromBlob(b);
            if NumRsvFrom(b, 0) >= 0 && Single(x) then
              r.Loaded? && r.tree == Trees(b, x)[0] && r.bootCpu == BootCpu(b) && |r.rsv| == NumRsvFrom(b, 0) &&
              ReadReserves(b[OffRsv(b)..TotalSize(b)], 0) == Some(r.rsv)
            else r == Dies
  {
    HoldsDef(b, x);
    ProperDef(x, Strings(b));
    U32Small(OffStrings(b) + SizeStrings(b));
    U32Small(OffStruct(b) + SizeStruct(b));
    StringsDef(b);
    ReservesCounted(b, 0);
    TreeReads(b, x);
  }

  lemma {:induction false} TreeReads(b: seq<byte>, x: Items)
    requires Holds(b, x)
    ensures var r := ReadTree(b[OffStruct(b)..TotalSize(b)], Strings(b), 17);
            if Single(x) then r.Got? && r.value == Trees(b, x)[0] else r.Died?
  {
    HoldsDef(b, x);
    ProperDef(x, Strings(b));
    var s := b[OffStruct(b)..TotalSize(b)];
    StructDef(b);
    SliceSlice(b, OffStruct(b), TotalSize(b), 0, SizeStruct(b));
    SameDef(Struct(b), 0, s, 0, SizeStruct(b));
    SameCarries(Struct(b), s, 0, 0, SizeStruct(b));
    LiesMoved(Struct(b), s, 0, 0, SizeStruct(b), 0, x);
    CarriesTok(Struct(b), s, 0, 0, SizeStruct(b), Size(x), End);
    TopReads(s, Strings(b), x);
  }

  // ---- dt_to_blob ----

  /** flatten_reserve_list: the entries and the slots asked for. */
  function WithSlots(rs: seq<Reserve>, slots: nat): seq<Reserve> { rs + seq(slots, i => Reserve(0, 0)) }

  ghost function BlocksOf(v: int, t: Tree): Out { if v < 16 then OldBlocks(t) else Blocks(t) }

  /** dt_to_blob for any version; pad is what the size options ask for. */
  ghost function AnyBlob(v: int, t: Tree, rs: seq<Reserve>, slots: nat, bootCpu: int, pad: nat): seq<byte> {
    Assemble(v, FlatReserves(WithSlots(rs, slots)), BlocksOf(v, t), bootCpu, pad)
  }

  /** What can be written in that version: names without NUL, and for versions 1 to 3 an empty root
      name and paths from which names can be recovered. */
  predicate Writable(v: int, t: Tree) { if v < 16 then t.name == [] && OldSafe(t, [47]) else Nameable(t) }

  lemma {:induction false} SlotsEnd(rs: seq<Reserve>, slots: nat)
    requires Wide(rs)
    ensures UpToZero(WithSlots(rs, slots)) == UpToZero(rs) && Wide(WithSlots(rs, slots))
    decreases |rs|
  {
    var z := seq(slots, i => Reserve(0, 0));
    if rs == [] {
      assert WithSlots(rs, slots) == z;
    } else {
      assert forall i | 0 <= i < |rs| - 1 :: rs[1..][i] == rs[i + 1];
      SlotsEnd(rs[1..], slots);
      assert (rs + z)[1..] == rs[1..] + z;
      assert [rs[0]] + WithSlots(rs[1..], slots) == WithSlots(rs, slots);
    }
  }

  /** Where the pieces of the blob lie. */
  lemma {:induction false} Pieces(p: seq<byte>, z: seq<byte>, r: seq<byte>, d: seq<byte>, s: seq<byte>, e: seq<byte>)
    ensures var b := p + z + r + Zeros(16) + d + s + e;
            var o := |p| + |z|;
            b[..|p|] == p && b[|p|..o] == z && b[o..o + |r| + 16] == r + Zeros(16) &&
            b[o + |r| + 16..o + |r| + 16 + |d|] == d &&
            b[o + |r| + 16 + |d|..o + |r| + 16 + |d| + |s|] == s && |b| == o + |r| + 16 + |d| + |s| + |e|
  {
    var b := p + z + (r + Zeros(16)) + d + s + e;
    assert b == p + z + r + Zeros(16) + d + s + e;
  }

  /** A header field that the version has. */
  lemma {:induction false} FieldKept(b: seq<byte>, h: seq<byte>, n: nat, f: nat)
    requires n <= |b| && n <= |h| && b[..n] == h[..n] && f + 4 <= n
    ensures Ld32(b, f) == Ld32(h, f)
  {
    SliceSlice(b, 0, n, f, f + 4);
    SliceSlice(h, 0, n, f, f + 4);
    assert b[0..n] == b[..n] && h[0..n] == h[..n];
    SameDef(b, f, h, f, 4);
    LdSame(b, f, h, f);
  }

  /** The header as the reader sees it; in version 1 the boot CPU is read from the alignment bytes. */
  lemma {:induction false} AssembledHeader(v: int, rsv: seq<byte>, out: Out, bootCpu: int, pad: nat)
    requires KnownVersion(v) && 0 <= bootCpu < 0x1_0000_0000 && |Assemble(v, rsv, out, bootCpu, pad)| <= 0x7fff_fff0
    ensures var b, off := Assemble(v, rsv, out, bootCpu, pad), RsvStart(v) + |rsv| + 16;
            |b| >= 40 && Magic(b) == FDT_MAGIC && TotalSize(b) == |b| == off + |out.dt| + |out.strs| + pad &&
            OffRsv(b) == RsvStart(v) && OffStruct(b) == off && OffStrings(b) == off + |out.dt| && Version(b) == v &&
            BootCpu(b) == (if v == 1 then 0 else bootCpu) && (v >= 3 ==> SizeStrings(b) == |out.strs|) &&
            (v >= 17 ==> SizeStruct(b) == |out.dt|)
  {
    var h := MakeHeader(v, |rsv|, |out.dt|, |out.strs|, bootCpu, pad);
    var n := HdrSize(v);
    var b := Assemble(v, rsv, out, bootCpu, pad);
    Pieces(h[..n], Zeros(RsvStart(v) - n), rsv, out.dt, out.strs, Zeros(pad));
    assert b[..n] == h[..n];
    MakeHeaderIs(v, |rsv|, |out.dt|, |out.strs|, bootCpu, pad);
    FieldKept(b, h, n, 0);
    FieldKept(b, h, n, 4);
    FieldKept(b, h, n, 8);
    FieldKept(b, h, n, 12);
    FieldKept(b, h, n, 16);
    FieldKept(b, h, n, 20);
    if v == 1 {
      assert b[28..32] == Zeros(4);
      assert b[28] == b[28..32][0] && b[29] == b[28..32][1] && b[30] == b[28..32][2] && b[31] == b[28..32][3];
      LdDef(b, 28);
    } else {
      FieldKept(b, h, n, 28);
    }
    if v >= 3 {
      FieldKept(b, h, n, 32);
    }
    if v >= 17 {
      FieldKept(b, h, n, 36);
    }
  }

  /** The tree that comes back. */
  function Returned(v: int, t: Tree): Tree { if v < 16 then AddNames(t) else t }

  /** Reading the two blocks back, whatever follows them. */
  lemma {:induction false} BlocksRead(v: int, t: Tree, s: seq<byte>, tab: seq<byte>)
    requires KnownVersion(v) && Writable(v, t) && Within(s, tab, BlocksOf(v, t)) && (v >= 16 ==> tab == Blocks(t).strs)
    ensures var r := ReadTree(s, tab, v); r.Got? && r.value == Returned(v, t)
  {
    if v < 16 {
      OldRoundTrip(t, s, tab);
    } else {
      BlocksHold(t);
      var x :| Spells1(Blocks(t), x) && x.Node? && x.next == Nil && Proper(x, Blocks(t).strs) &&
        Forest(x, Blocks(t).strs) == [t];
      ProperDef(x, tab);
      var dt := Blocks(t).dt;
      assert s[0..|dt|] == s[..|dt|] && dt[0..|dt|] == dt;
      SameDef(dt, 0, s, 0, |dt|);
      SameCarries(dt, s, 0, 0, |dt|);
      LiesMoved(dt, s, 0, 0, |dt|, 0, x);
      CarriesTok(dt, s, 0, 0, |dt|, Size(x), End);
      TopReads(s, tab, x);
      assert Forest(x, tab) == [TreeOf(x.name, x.body, tab)] + Forest(Nil, tab);
      assert TreeOf(x.name, x.body, tab) == [t][0];
    }
  }

  /** The round trip of the compiler with itself, for every version: the tree, in versions 1 to 3
      with a "name" property in every node that had none, the entries up to the first one of size 0,
      and, but for version 1, the boot CPU. */
  lemma {:induction false} CompileRoundTrip(v: int, t: Tree, rs: seq<Reserve>, slots: nat, bootCpu: int, pad: nat)
    requires KnownVersion(v) && Writable(v, t) && Wide(rs) && 0 <= bootCpu < 0x1_0000_0000
    requires |AnyBlob(v, t, rs, slots, bootCpu, pad)| <= 0x7fff_fff0
    ensures var b := AnyBlob(v, t, rs, slots, bootCpu, pad);
            Buf(b) && 40 <= TotalSize(b) &&
            DtFromBlob(b) == Loaded(UpToZero(rs), Returned(v, t), if v == 1 then 0 else bootCpu)
  {
    var b, out := AnyBlob(v, t, rs, slots, bootCpu, pad), BlocksOf(v, t);
    var rsv := FlatReserves(WithSlots(rs, slots));
    AssembledHeader(v, rsv, out, bootCpu, pad);
    U32Small(OffStrings(b) + SizeStrings(b));
    U32Small(OffStruct(b) + SizeStruct(b));
    BlockPositive(v, t);
    SlotsEnd(rs, slots);
    BlobPieces(v, rsv, out, bootCpu, pad, b);
    ReservesRead(b[OffRsv(b)..TotalSize(b)], 0, WithSlots(rs, slots));
    BlocksRead(v, t, b[OffStruct(b)..TotalSize(b)], StringTable(b));
  }

  lemma {:induction false} BlockPositive(v: int, t: Tree)
    ensures |BlocksOf(v, t).dt| >= 4
  {
  }

  /** What the reader's buffers begin with. */
  lemma {:induction false} BlobPieces(v: int, rsv: seq<byte>, out: Out, bootCpu: int, pad: nat, b: seq<byte>)
    requires KnownVersion(v) && 0 <= bootCpu < 0x1_0000_0000 && |b| <= 0x7fff_fff0 && |out.dt| >= 4
    requires b == Assemble(v, rsv, out, bootCpu, pad)
    ensures |b| >= 40 && TotalSize(b) == |b| && OffRsv(b) + |rsv| + 16 == OffStruct(b) < TotalSize(b) && HeaderOk(b)
    ensures b[OffRsv(b)..TotalSize(b)][0..|rsv| + 16] == rsv + Zeros(16)
    ensures OffStrings(b) <= TotalSize(b) && (Version(b) >= 3 ==> DataSize(b) <= TotalSize(b))
    ensures Within(b[OffStruct(b)..TotalSize(b)], StringTable(b), out) && (v >= 3 ==> StringTable(b) == out.strs)
  {
    AssembledHeader(v, rsv, out, bootCpu, pad);
    U32Small(OffStrings(b) + SizeStrings(b));
    U32Small(OffStruct(b) + SizeStruct(b));
    var h := MakeHeader(v, |rsv|, |out.dt|, |out.strs|, bootCpu, pad);
    Pieces(h[..HdrSize(v)], Zeros(RsvStart(v) - HdrSize(v)), rsv, out.dt, out.strs, Zeros(pad));
    SliceSlice(b, OffRsv(b), TotalSize(b), 0, |rsv| + 16);
    SliceSlice(b, OffStruct(b), TotalSize(b), 0, |out.dt|);
    SliceSlice(b, OffStrings(b), TotalSize(b), 0, |out.strs|);
    var s, tab := b[OffStruct(b)..TotalSize(b)], b[OffStrings(b)..TotalSize(b)];
    assert s[..|out.dt|] == s[0..|out.dt|] && tab[..|out.strs|] == tab[0..|out.strs|];
    assert out.strs[..|out.strs|] == out.strs;
  }

  /** For version 17 it is the blob that libfdt reads. */
  lemma {:induction false} LatestBlob(t: Tree, rs: seq<Reserve>, slots: nat, bootCpu: int, pad: nat)
    ensures AnyBlob(17, t, rs, slots, bootCpu, pad) == DtToBlob(t, FlatReserves(WithSlots(rs, slots)), bootCpu, pad)
  {
  }
}
