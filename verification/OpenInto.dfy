/** fdt_rw.c: fdt_open_into copies a blob into a buffer, both anywhere in one memory, and puts
    its blocks in order if they are not. */
module OpenInto {
  import opened Bytes
  import opened Syntax
  import opened DeviceTree
  import opened Fdt
  import opened Walk
  import opened Blob
  import opened Splice
  import opened SeqRuns
  import opened Pack

  // ---- the size of the structure block ----

  /** The loop for version 16: walk to FDT_END; the offset behind it, or the error. */
  ghost function WalkSize(b: seq<byte>, o: int): int
    requires Buf(b) && o < 0x8000_0000
    decreases 0x8000_0000 - o
  {
    NextTagBound(b, o);
    var (tag, next) := NextTag(b, o);
    if tag == FDT_END then next else if next <= o then DIVERGES else WalkSize(b, next)
  }

  ghost function StructSize(b: seq<byte>): int
    requires Buf(b)
  {
    if Version(b) >= 17 then SizeStruct(b) else if Version(b) == 16 then WalkSize(b, 0) else BADVERSION
  }

  lemma {:induction false} WalkItems(b: seq<byte>, s: seq<byte>, o: int, t: Items)
    requires Window(b, s) && Aligned(o) && 0 <= o && Lies(s, o, t) && o + Size(t) <= |s|
    ensures o < 0x8000_0000 && o + Size(t) < 0x8000_0000 && WalkSize(b, o) == WalkSize(b, o + Size(t))
    decreases t, 0
  {
    SizeDef(t);
    match t
    case Nil =>
    case Leaf(tok, next) =>
      LiesLeaf(s, o, tok, next);
      WalkTok(b, s, o, tok);
      WalkItems(b, s, o + TokSize(tok), next);
    case Node(name, body, next) =>
      LiesNode(s, o, name, body, next);
      WalkNode(b, s, o, name, body);
      WalkItems(b, s, o + NodeSize(name, body), next);
  }

  lemma {:induction false} WalkTok(b: seq<byte>, s: seq<byte>, o: int, k: Tok)
    requires Window(b, s) && Aligned(o) && TokAt(s, o) == k && !k.Bad? && !k.End?
    ensures 0 <= o && o + TokSize(k) <= |s| < 0x8000_0000 && Aligned(o + TokSize(k)) &&
            WalkSize(b, o) == WalkSize(b, o + TokSize(k))
  {
    NextTagIs(b, s, o, k);
    TokSizeAligned(k);
    AlignedAdd(o, TokSize(k));
  }

  lemma {:induction false} WalkNode(b: seq<byte>, s: seq<byte>, o: int, name: seq<byte>, body: Items)
    requires Window(b, s) && Aligned(o) && NodeLies(s, o, name, body)
    ensures 0 <= o && o + NodeSize(name, body) <= |s| < 0x8000_0000 && Aligned(o + NodeSize(name, body))
    ensures WalkSize(b, o) == WalkSize(b, o + NodeSize(name, body))
    decreases body, 1
  {
    var m := o + OpenSize(|name|);
    WalkTok(b, s, o, Open(name));
    TokFits(s, m + Size(body));
    WalkItems(b, s, m, body);
    SizeAligned(body);
    AlignedAdd(m, Size(body));
    WalkTok(b, s, m + Size(body), Close);
  }

  /** The walk finds the size of a structure block of items and FDT_END. */
  lemma {:induction false} WalkSizeIs(b: seq<byte>, s: seq<byte>, t: Items)
    requires Window(b, s) && Lies(s, 0, t) && TokAt(s, Size(t)) == End
    ensures WalkSize(b, 0) == Size(t) + 4
  {
    AlignedConst();
    TokFits(s, Size(t));
    WalkItems(b, s, 0, t);
    SizeAligned(t);
    NextTagIs(b, s, Size(t), End);
  }

  // ---- fdt_open_into ----

  /** Store a header field of the blob at `to`. */
  ghost function SetAt(m: seq<byte>, to: nat, f: int, v: int): (r: seq<byte>)
    requires to + 40 <= |m| && IsField(f)
    ensures |r| == |m|
  {
    Put(m, to + f, Be32(v))
  }

  /** The blocks of b, of these sizes, lie inside it. */
  ghost predicate Inside3(b: seq<byte>, mem: int, st: int) {
    Buf(b) && 16 <= mem && 0 <= st && OffRsv(b) + mem <= TotalSize(b) && OffStruct(b) + st <= TotalSize(b) &&
      DataSize(b) <= TotalSize(b)
  }

  /** fdt_packblocks_ from the blob b at `at` to tmp, outside b. */
  ghost function PackTo(m: seq<byte>, b: seq<byte>, at: nat, tmp: nat, mem: nat, st: nat): (r: seq<byte>)
    requires Inside3(b, mem, st) && at + |b| <= |m| && tmp + NewSize(b, mem, st) <= |m|
    ensures |r| == |m|
  {
    var m1 := BlockTo(PackTwo(m, b, at, tmp, mem, st), tmp, 40 + mem + st, at + OffStrings(b), SizeStrings(b),
      AT_OFF_STRINGS);
    SetAt(m1, tmp, AT_SIZE_STRINGS, SizeStrings(b))
  }

  /** Its first two blocks. */
  ghost function PackTwo(m: seq<byte>, b: seq<byte>, at: nat, tmp: nat, mem: nat, st: nat): (r: seq<byte>)
    requires Inside3(b, mem, st) && at + |b| <= |m| && tmp + NewSize(b, mem, st) <= |m|
    ensures |r| == |m|
  {
    var m1 := BlockTo(m, tmp, 40, at + OffRsv(b), mem, AT_OFF_RSV);
    SetAt(BlockTo(m1, tmp, 40 + mem, at + OffStruct(b), st, AT_OFF_STRUCT), tmp, AT_SIZE_STRUCT, st)
  }

  /** Move k bytes from src to offset o of the blob at tmp, and store o in the header field f. */
  ghost function BlockTo(m: seq<byte>, tmp: nat, o: nat, src: nat, k: nat, f: int): (r: seq<byte>)
    requires tmp + 40 <= |m| && tmp + o + k <= |m| && src + k <= |m| && IsField(f)
    ensures |r| == |m|
  {
    SetAt(Move(m, tmp + o, src, k), tmp, f, o)
  }

  ghost function NewSize(b: seq<byte>, mem: int, st: int): int
    requires |b| >= 40
  {
    40 + mem + st + SizeStrings(b)
  }

  /** Where the blocks are put together: at the start of the buffer, or behind the old blob if
      that would overlap it. */
  ghost function TmpAt(at: nat, n: nat, to: nat, size: int): nat {
    if to + size > at && to < at + n then at + n else to
  }

  /** The last lines: the remaining header fields; the boot CPU is read from where the old blob
      was, whatever is there by then. */
  ghost function Finished(m: seq<byte>, at: nat, to: nat, bufsize: nat): (r: seq<byte>)
    requires at + 40 <= |m| && to + 40 <= |m|
    ensures |r| == |m|
  {
    var m1 := SetAt(SetAt(m, to, AT_MAGIC, FDT_MAGIC), to, AT_TOTALSIZE, bufsize);
    var m2 := SetAt(SetAt(m1, to, AT_VERSION, 17), to, AT_LAST_COMP, 16);
    SetAt(m2, to, AT_BOOT_CPU, Ld32(m2, at + AT_BOOT_CPU))
  }

  /** The header fields set when nothing has to be reordered. */
  ghost function Adopted(m: seq<byte>, to: nat, st: int, bufsize: nat): (r: seq<byte>)
    requires to + 40 <= |m|
    ensures |r| == |m|
  {
    SetAt(SetAt(SetAt(m, to, AT_VERSION, 17), to, AT_SIZE_STRUCT, st), to, AT_TOTALSIZE, bufsize)
  }

  /** fdt_open_into of the blob of n bytes at `at` into the buffer of bufsize bytes at `to`; STRAYS
      where the C code would work with a negative size or on blocks outside the blob. */
  ghost function OpenAt(m: seq<byte>, at: nat, n: nat, to: nat, bufsize: nat): (r: Res)
    requires at + n <= |m| && to + bufsize <= |m| && Buf(m[at..at + n]) && TotalSize(m[at..at + n]) == n
    ensures |r.blob| == |m|
  {
    var b := m[at..at + n];
    if RoProbe(b) < 0 then Res(RoProbe(b), m)
    else if OffRsv(b) >= 0x8000_0000 || NumRsvFrom(b, 0) < 0 then Res(STRAYS, m)
    else
      var mem, st := 16 * NumRsvFrom(b, 0) + 16, StructSize(b);
      if st < 0 then Res(st, m)
      else if !Misordered(b, mem, st) then
        if n > bufsize then Res(NOSPACE, m) else Res(0, Adopted(Move(m, to, at, n), to, st, bufsize))
      else
        var size, tmp := NewSize(b, mem, st), TmpAt(at, n, to, NewSize(b, mem, st));
        if bufsize < size || (tmp != to && tmp + size > to + bufsize) then Res(NOSPACE, m)
        else if !Inside3(b, mem, st) then Res(STRAYS, m)
        else Res(0, Finished(Move(PackTo(m, b, at, tmp, mem, st), to, tmp, size), at, to, bufsize))
  }

  /** c is a sane blob of version 17 with the three blocks of b, byte for byte. */
  ghost predicate Opened(b: seq<byte>, mem: nat, st: nat, c: seq<byte>) {
    Inside3(b, mem, st) && Sane(c) && TotalSize(c) == |c| && SizeStruct(c) == st && SizeStrings(c) == SizeStrings(b) &&
    OffRsv(c) + mem <= OffStruct(c) && c[OffRsv(c)..OffRsv(c) + mem] == b[OffRsv(b)..OffRsv(b) + mem] &&
    Struct(c) == b[OffStruct(b)..OffStruct(b) + st] && Strings(c) == b[OffStrings(b)..DataSize(b)]
  }

  // ---- nothing to reorder ----

  /** A header field set in memory is set in the buffer there. */
  lemma {:induction false} SetView(m: seq<byte>, to: nat, k: nat, f: int, v: int)
    requires 40 <= k && to + k <= |m| && IsField(f)
    ensures SetAt(m, to, f, v)[to..to + k] == Set(m[to..to + k], f, v)
  {
    PutView(m, to, to + k, to + f, Be32(v));
  }

  lemma {:induction false} AdoptedView(m: seq<byte>, to: nat, st: int, bufsize: nat)
    requires 40 <= bufsize < 0x1_0000_0000 && to + bufsize <= |m| && 0 <= st < 0x1_0000_0000
    ensures var c, c' := m[to..to + bufsize], Adopted(m, to, st, bufsize)[to..to + bufsize];
            HeaderOf(c') == HeaderOf(c).(version := 17, sizeStruct := st, totalSize := bufsize) &&
            forall lo, hi | 40 <= lo <= hi <= bufsize :: c'[lo..hi] == c[lo..hi]
  {
    var m1 := SetAt(m, to, AT_VERSION, 17);
    var m2 := SetAt(m1, to, AT_SIZE_STRUCT, st);
    SetView(m, to, bufsize, AT_VERSION, 17);
    SetView(m1, to, bufsize, AT_SIZE_STRUCT, st);
    SetView(m2, to, bufsize, AT_TOTALSIZE, bufsize);
    SetHeader(m[to..to + bufsize], AT_VERSION, 17);
    SetHeader(m1[to..to + bufsize], AT_SIZE_STRUCT, st);
    SetHeader(m2[to..to + bufsize], AT_TOTALSIZE, bufsize);
  }

  lemma {:induction false} AdoptedOpens(b: seq<byte>, c: seq<byte>, c': seq<byte>, mem: nat, st: nat)
    requires Inside3(b, mem, st) && Magic(b) == FDT_MAGIC && LastComp(b) <= 17 &&
             |b| == TotalSize(b) <= |c| <= 0x7fff_fff0 && |c'| == |c|
    requires !Misordered(b, mem, st) && c[0..|b|] == b &&
             HeaderOf(c') == HeaderOf(b).(version := 17, sizeStruct := st, totalSize := |c|)
    requires forall lo, hi | 40 <= lo <= hi <= |c| :: c'[lo..hi] == c[lo..hi]
    ensures Opened(b, mem, st, c')
  {
    U32Small(OffRsv(b) + mem);
    U32Small(OffStruct(b) + st);
    U32Small(DataSize(b));
    assert Sane(c');
    StructDef(c');
    StringsDef(c');
    SliceSlice(c, 0, |b|, OffRsv(b), OffRsv(b) + mem);
    SliceSlice(c, 0, |b|, OffStruct(b), OffStruct(b) + st);
    SliceSlice(c, 0, |b|, OffStrings(b), DataSize(b));
  }

  // ---- reordering ----

  /** m differs from m0 in no byte of the blob at `at`, and holds v at tmp. */
  ghost predicate Staged(m0: seq<byte>, m: seq<byte>, at: nat, n: nat, tmp: nat, v: seq<byte>) {
    |m| == |m0| && at + n <= |m| && tmp + |v| <= |m| && (tmp + |v| <= at || at + n <= tmp) &&
    m[at..at + n] == m0[at..at + n] && m[tmp..tmp + |v|] == v
  }

  lemma {:induction false} StagePut(m0: seq<byte>, m: seq<byte>, at: nat, n: nat, tmp: nat, v: seq<byte>, o: nat,
    x: seq<byte>)
    requires Staged(m0, m, at, n, tmp, v) && o + |x| <= |v|
    ensures Staged(m0, Put(m, tmp + o, x), at, n, tmp, Put(v, o, x))
  {
    PutSlice(m, tmp + o, x, at, at + n);
    PutView(m, tmp, tmp + |v|, tmp + o, x);
  }

  /** A block of the old blob arrives at its new place. */
  lemma {:induction false} StageMove(m0: seq<byte>, m: seq<byte>, at: nat, n: nat, tmp: nat, v: seq<byte>, o: nat,
    src: nat, k: nat)
    requires Staged(m0, m, at, n, tmp, v) && o + k <= |v| && src + k <= n
    ensures Staged(m0, Move(m, tmp + o, at + src, k), at, n, tmp, Put(v, o, m0[at..at + n][src..src + k]))
  {
    SliceSlice(m, at, at + n, src, src + k);
    StagePut(m0, m, at, n, tmp, v, o, m[at + src..at + src + k]);
  }

  /** The steps of fdt_packblocks_ on the new place alone. */
  ghost function PackView(v: seq<byte>, b: seq<byte>, mem: nat, st: nat): (r: seq<byte>)
    requires Inside3(b, mem, st) && |v| == NewSize(b, mem, st)
    ensures |r| == |v|
  {
    var v1 := BlockView(TwoView(v, b, mem, st), 40 + mem + st, b[OffStrings(b)..OffStrings(b) + SizeStrings(b)],
      AT_OFF_STRINGS);
    Set(v1, AT_SIZE_STRINGS, SizeStrings(b))
  }

  ghost function TwoView(v: seq<byte>, b: seq<byte>, mem: nat, st: nat): (r: seq<byte>)
    requires Inside3(b, mem, st) && |v| == NewSize(b, mem, st)
    ensures |r| == |v|
  {
    var v1 := BlockView(v, 40, b[OffRsv(b)..OffRsv(b) + mem], AT_OFF_RSV);
    Set(BlockView(v1, 40 + mem, b[OffStruct(b)..OffStruct(b) + st], AT_OFF_STRUCT), AT_SIZE_STRUCT, st)
  }

  ghost function BlockView(v: seq<byte>, o: nat, x: seq<byte>, f: int): (r: seq<byte>)
    requires |v| >= 40 && o + |x| <= |v| && IsField(f)
    ensures |r| == |v|
  {
    Set(Put(v, o, x), f, o)
  }

  lemma {:induction false} StageBlock(m0: seq<byte>, m: seq<byte>, at: nat, n: nat, tmp: nat, v: seq<byte>, o: nat,
    src: nat, k: nat, f: int)
    requires Staged(m0, m, at, n, tmp, v) && o + k <= |v| && 40 <= |v| && src + k <= n && IsField(f)
    ensures Staged(m0, BlockTo(m, tmp, o, at + src, k, f), at, n, tmp, BlockView(v, o, m0[at..at + n][src..src + k], f))
  {
    var x := m0[at..at + n][src..src + k];
    StageMove(m0, m, at, n, tmp, v, o, src, k);
    StagePut(m0, Move(m, tmp + o, at + src, k), at, n, tmp, Put(v, o, x), f, Be32(o));
  }

  /** Packing outside the old blob reads only the old blob. */
  lemma {:induction false} PackToView(m: seq<byte>, b: seq<byte>, at: nat, tmp: nat, mem: nat, st: nat)
    requires Inside3(b, mem, st) && at + |b| <= |m| && m[at..at + |b|] == b && tmp + NewSize(b, mem, st) <= |m|
    requires tmp + NewSize(b, mem, st) <= at || at + |b| <= tmp
    ensures var v := m[tmp..tmp + NewSize(b, mem, st)];
            Staged(m, PackTo(m, b, at, tmp, mem, st), at, |b|, tmp, PackView(v, b, mem, st))
  {
    var n, str := |b|, SizeStrings(b);
    var v := m[tmp..tmp + NewSize(b, mem, st)];
    PackTwoView(m, b, at, tmp, mem, st, v);
    var m2, v2 := PackTwo(m, b, at, tmp, mem, st), TwoView(v, b, mem, st);
    StageBlock(m, m2, at, n, tmp, v2, 40 + mem + st, OffStrings(b), str, AT_OFF_STRINGS);
    var m3 := BlockTo(m2, tmp, 40 + mem + st, at + OffStrings(b), str, AT_OFF_STRINGS);
    StagePut(m, m3, at, n, tmp, BlockView(v2, 40 + mem + st, b[OffStrings(b)..OffStrings(b) + str], AT_OFF_STRINGS),
             AT_SIZE_STRINGS, Be32(str));
  }

  lemma {:induction false} PackTwoView(m: seq<byte>, b: seq<byte>, at: nat, tmp: nat, mem: nat, st: nat, v: seq<byte>)
    requires Inside3(b, mem, st) && at + |b| <= |m| && m[at..at + |b|] == b && |v| == NewSize(b, mem, st)
    requires Staged(m, m, at, |b|, tmp, v)
    ensures Staged(m, PackTwo(m, b, at, tmp, mem, st), at, |b|, tmp, TwoView(v, b, mem, st))
  {
    var n := |b|;
    StageBlock(m, m, at, n, tmp, v, 40, OffRsv(b), mem, AT_OFF_RSV);
    var m1 := BlockTo(m, tmp, 40, at + OffRsv(b), mem, AT_OFF_RSV);
    var v1 := BlockView(v, 40, b[OffRsv(b)..OffRsv(b) + mem], AT_OFF_RSV);
    StageBlock(m, m1, at, n, tmp, v1, 40 + mem, OffStruct(b), st, AT_OFF_STRUCT);
    var m2 := BlockTo(m1, tmp, 40 + mem, at + OffStruct(b), st, AT_OFF_STRUCT);
    StagePut(m, m2, at, n, tmp, BlockView(v1, 40 + mem, b[OffStruct(b)..OffStruct(b) + st], AT_OFF_STRUCT),
      AT_SIZE_STRUCT, Be32(st));
  }

  /** One block and its offset field in the new place. */
  lemma {:induction false} BlockPut(v: seq<byte>, o: nat, x: seq<byte>, f: int)
    requires |v| >= 40 && 40 <= o && o + |x| <= |v| && IsField(f) && o < 0x1_0000_0000
    ensures var r := Set(Put(v, o, x), f, o);
            HeaderOf(r) == With(HeaderOf(v), f, o) && r[o..o + |x|] == x && Keeps(v, r, 40, o)
  {
    var p := Put(v, o, x);
    PutSlice(v, o, x, 0, 40);
    HeaderKept(v, p);
    PutInside(v, o, x);
    PutSlice(v, o, x, 40, o);
    SetHeader(p, f, o);
  }

  lemma {:induction false} PackViewIs(v: seq<byte>, b: seq<byte>, mem: nat, st: nat)
    requires Inside3(b, mem, st) && |v| == NewSize(b, mem, st) < 0x1_0000_0000
    ensures var r := PackView(v, b, mem, st);
            HeaderOf(r) == HeaderOf(v).(offRsv := 40, offStruct := 40 + mem, sizeStruct := st,
              offStrings := 40 + mem + st, sizeStrings := SizeStrings(b)) &&
            r[40..40 + mem] == b[OffRsv(b)..OffRsv(b) + mem] &&
              r[40 + mem..40 + mem + st] == b[OffStruct(b)..OffStruct(b) + st] &&
            r[40 + mem + st..] == b[OffStrings(b)..DataSize(b)]
  {
    var str := SizeStrings(b);
    var x, y, z := b[OffRsv(b)..OffRsv(b) + mem], b[OffStruct(b)..OffStruct(b) + st],
      b[OffStrings(b)..OffStrings(b) + str];
    BlockPut(v, 40, x, AT_OFF_RSV);
    var v1 := Set(Put(v, 40, x), AT_OFF_RSV, 40);
    BlockPut(v1, 40 + mem, y, AT_OFF_STRUCT);
    var v2 := Set(Put(v1, 40 + mem, y), AT_OFF_STRUCT, 40 + mem);
    SetHeader(v2, AT_SIZE_STRUCT, st);
    var v3 := Set(v2, AT_SIZE_STRUCT, st);
    BlockPut(v3, 40 + mem + st, z, AT_OFF_STRINGS);
    var v4 := Set(Put(v3, 40 + mem + st, z), AT_OFF_STRINGS, 40 + mem + st);
    SetHeader(v4, AT_SIZE_STRINGS, str);
    BlocksStay(v1, v2, v3, v4, Set(v4, AT_SIZE_STRINGS, str), x, y, z);
  }

  lemma {:induction false} BlocksStay(v1: seq<byte>, v2: seq<byte>, v3: seq<byte>, v4: seq<byte>, r: seq<byte>,
    x: seq<byte>, y: seq<byte>, z: seq<byte>)
    requires var a, c := 40 + |x|, 40 + |x| + |y|;
             |v1| == c + |z| && |v3| == |v1| && |r| == |v1| && v1[40..a] == x && Keeps(v1, v2, 40, a) &&
               v2[a..c] == y &&
             (forall lo, hi | 40 <= lo <= hi <= |v1| :: v3[lo..hi] == v2[lo..hi]) && Keeps(v3, v4, 40, c) &&
               v4[c..c + |z|] == z &&
             forall lo, hi | 40 <= lo <= hi <= |v1| :: r[lo..hi] == v4[lo..hi]
    ensures var a, c := 40 + |x|, 40 + |x| + |y|; r[40..a] == x && r[a..c] == y && r[c..] == z
  {
    var a, c := 40 + |x|, 40 + |x| + |y|;
    SliceSlice(v4, 40, c, 0, |x|);
    SliceSlice(v3, 40, c, 0, |x|);
    SliceSlice(v4, 40, c, |x|, |x| + |y|);
    SliceSlice(v3, 40, c, |x|, |x| + |y|);
    assert r[c..] == r[c..|r|];
  }

  lemma {:induction false} FinishedView(m: seq<byte>, at: nat, to: nat, bufsize: nat)
    requires at + 40 <= |m| && 40 <= bufsize < 0x1_0000_0000 && to + bufsize <= |m|
    ensures var c, c' := m[to..to + bufsize], Finished(m, at, to, bufsize)[to..to + bufsize];
            (exists boot :: HeaderOf(c') ==
              HeaderOf(c).(magic := FDT_MAGIC, totalSize := bufsize, version := 17, lastComp := 16, bootCpu := boot)) &&
            forall lo, hi | 40 <= lo <= hi <= bufsize :: c'[lo..hi] == c[lo..hi]
  {
    var m1 := SetAt(m, to, AT_MAGIC, FDT_MAGIC);
    var m2 := SetAt(m1, to, AT_TOTALSIZE, bufsize);
    var m3 := SetAt(m2, to, AT_VERSION, 17);
    var m4 := SetAt(m3, to, AT_LAST_COMP, 16);
    var boot := Ld32(m4, at + AT_BOOT_CPU);
    SetView(m, to, bufsize, AT_MAGIC, FDT_MAGIC);
    SetView(m1, to, bufsize, AT_TOTALSIZE, bufsize);
    SetView(m2, to, bufsize, AT_VERSION, 17);
    SetView(m3, to, bufsize, AT_LAST_COMP, 16);
    SetView(m4, to, bufsize, AT_BOOT_CPU, boot);
    SetHeader(m[to..to + bufsize], AT_MAGIC, FDT_MAGIC);
    SetHeader(m1[to..to + bufsize], AT_TOTALSIZE, bufsize);
    SetHeader(m2[to..to + bufsize], AT_VERSION, 17);
    SetHeader(m3[to..to + bufsize], AT_LAST_COMP, 16);
    SetHeader(m4[to..to + bufsize], AT_BOOT_CPU, boot);
  }

  /** The packed blob, moved to the start of the buffer and finished. */
  lemma {:induction false} PackedOpens(b: seq<byte>, v: seq<byte>, c: seq<byte>, c': seq<byte>, mem: nat, st: nat)
    requires Inside3(b, mem, st) && |v| == NewSize(b, mem, st) <= |c| <= 0x7fff_fff0 && |c'| == |c| && c[0..|v|] == v
    requires HeaderOf(v).offRsv == 40 && OffStruct(v) == 40 + mem && SizeStruct(v) == st &&
             OffStrings(v) == 40 + mem + st && SizeStrings(v) == SizeStrings(b)
    requires v[40..40 + mem] == b[OffRsv(b)..OffRsv(b) + mem] &&
             v[40 + mem..40 + mem + st] == b[OffStruct(b)..OffStruct(b) + st]
    requires v[40 + mem + st..] == b[OffStrings(b)..DataSize(b)]
    requires exists boot ::
               HeaderOf(c') ==
               HeaderOf(c).(magic := FDT_MAGIC, totalSize := |c|, version := 17, lastComp := 16, bootCpu := boot)
    requires forall lo, hi | 40 <= lo <= hi <= |c| :: c'[lo..hi] == c[lo..hi]
    ensures Opened(b, mem, st, c')
  {
    SliceSlice(c, 0, |v|, 0, 40);
    assert c[..40] == c[0..40] && v[..40] == v[0..40];
    HeaderKept(v, c);
    assert Sane(c');
    StructDef(c');
    StringsDef(c');
    SliceSlice(c, 0, |v|, 40, 40 + mem);
    SliceSlice(c, 0, |v|, 40 + mem, 40 + mem + st);
    SliceSlice(c, 0, |v|, 40 + mem + st, |v|);
    assert v[40 + mem + st..|v|] == v[40 + mem + st..];
  }

  lemma {:induction false} Reordered(m: seq<byte>, b: seq<byte>, at: nat, to: nat, bufsize: nat, tmp: nat, mem: nat,
    st: nat)
    requires Inside3(b, mem, st) && at + |b| <= |m| && m[at..at + |b|] == b && to + bufsize <= |m| &&
             bufsize <= 0x7fff_fff0
    requires NewSize(b, mem, st) <= bufsize && tmp + NewSize(b, mem, st) <= |m|
    requires tmp + NewSize(b, mem, st) <= at || at + |b| <= tmp
    ensures var m2 := Move(PackTo(m, b, at, tmp, mem, st), to, tmp, NewSize(b, mem, st));
            Opened(b, mem, st, Finished(m2, at, to, bufsize)[to..to + bufsize])
  {
    var size := NewSize(b, mem, st);
    PackToView(m, b, at, tmp, mem, st);
    PackViewIs(m[tmp..tmp + size], b, mem, st);
    var m1 := PackTo(m, b, at, tmp, mem, st);
    var v := PackView(m[tmp..tmp + size], b, mem, st);
    var m2 := Move(m1, to, tmp, size);
    MoveShifts(m1, to, tmp, size, tmp, tmp + size);
    SliceSlice(m2, to, to + bufsize, 0, size);
    FinishedView(m2, at, to, bufsize);
    PackedOpens(b, v, m2[to..to + bufsize], Finished(m2, at, to, bufsize)[to..to + bufsize], mem, st);
  }

  // ---- the result ----

  /** fdt_open_into either reports that the buffer is too small for the blob, or for putting its
      blocks in order without overwriting it, or leaves in the buffer a sane version 17 blob with
      the same three blocks byte for byte, whatever their order was and however old and new
      buffer overlap. */
  lemma {:induction false} OpenKeeps(m: seq<byte>, at: nat, n: nat, to: nat, bufsize: nat, b: seq<byte>, mem: nat,
    st: nat)
    requires at + n <= |m| && to + bufsize <= |m| && bufsize <= 0x7fff_fff0 && b == m[at..at + n] && Buf(b) &&
             TotalSize(b) == n
    requires Magic(b) == FDT_MAGIC && 16 <= Version(b) && LastComp(b) <= 17 && OffRsv(b) < 0x8000_0000
    requires NumRsvFrom(b, 0) >= 0 && mem == 16 * NumRsvFrom(b, 0) + 16 && st == StructSize(b) && Inside3(b, mem, st)
    ensures var r := OpenAt(m, at, n, to, bufsize);
            var size, tmp := NewSize(b, mem, st), TmpAt(at, n, to, NewSize(b, mem, st));
            var fits := if Misordered(b, mem, st) then size <= bufsize && (tmp == to || tmp + size <= to + bufsize)
              else n <= bufsize;
            if fits then r.code == 0 && Opened(b, mem, st, r.blob[to..to + bufsize]) else r == Res(NOSPACE, m)
  {
    if Misordered(b, mem, st) {
      var size, tmp := NewSize(b, mem, st), TmpAt(at, n, to, NewSize(b, mem, st));
      if size <= bufsize && (tmp == to || tmp + size <= to + bufsize) {
        Reordered(m, b, at, to, bufsize, tmp, mem, st);
      }
    } else if n <= bufsize {
      CopiedOpens(m, at, n, to, bufsize, b, mem, st);
    }
  }

  /** The buffer then holds the items of the structure block that was copied, with the same
      strings, so every result on edits applies to it. */
  lemma {:induction false} OpenHolds(b: seq<byte>, mem: nat, st: nat, c: seq<byte>, t: Items)
    requires Opened(b, mem, st, c) && st == Size(t) + 4
    requires var s, strs := b[OffStruct(b)..OffStruct(b) + st], b[OffStrings(b)..DataSize(b)];
             Lies(s, 0, t) && TokAt(s, Size(t)) == End && Proper(t, strs)
    ensures Holds(c, t) && Trees(c, t) == Forest(t, b[OffStrings(b)..DataSize(b)])
  {
    HoldsDef(c, t);
  }

  lemma {:induction false} CopiedOpens(m: seq<byte>, at: nat, n: nat, to: nat, bufsize: nat, b: seq<byte>, mem: nat,
    st: nat)
    requires at + n <= |m| && to + bufsize <= |m| && n <= bufsize <= 0x7fff_fff0 && b == m[at..at + n] && Buf(b) &&
             TotalSize(b) == n
    requires Magic(b) == FDT_MAGIC && LastComp(b) <= 17 && Inside3(b, mem, st) && !Misordered(b, mem, st)
    ensures Opened(b, mem, st, Adopted(Move(m, to, at, n), to, st, bufsize)[to..to + bufsize])
  {
    var m1 := Move(m, to, at, n);
    var c := m1[to..to + bufsize];
    MoveShifts(m, to, at, n, at, at + n);
    SliceSlice(m1, to, to + bufsize, 0, n);
    AdoptedView(m1, to, st, bufsize);
    SliceSlice(c, 0, n, 0, 40);
    assert c[..40] == c[0..40] && b[..40] == b[0..40];
    HeaderKept(b, c);
    AdoptedOpens(b, c, Adopted(m1, to, st, bufsize)[to..to + bufsize], mem, st);
  }
}
