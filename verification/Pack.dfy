/** fdt_rw.c: fdt_pack moves the three blocks together inside one buffer. */
module Pack {
  import opened Bytes
  import opened Syntax
  import opened Fdt
  import opened Walk
  import opened Blob
  import opened Splice

  // ---- fdt_num_mem_rsv ----

  /** The entry at o has size 0. */
  ghost predicate Terminator(b: seq<byte>, o: int)
    requires 0 <= o && o + 16 <= |b|
  {
    Ld32(b, o + 8) == 0 && Ld32(b, o + 12) == 0
  }

  /** The loop of fdt_num_mem_rsv from entry i on, in 32-bit arithmetic. */
  ghost function NumRsvFrom(b: seq<byte>, i: nat): (r: int)
    requires Buf(b) && 40 <= TotalSize(b) && OffRsv(b) + 16 * i < 0x1_0000_0000
    ensures r >= 0 ==> i <= r && OffRsv(b) + 16 * r + 16 <= TotalSize(b)
    decreases |b| - 16 * i
  {
    if OffRsv(b) + 16 * i > TotalSize(b) - 16 then TRUNCATED
    else if Terminator(b, OffRsv(b) + 16 * i) then i
    else NumRsvFrom(b, i + 1)
  }

  /** The reservation block ends, with a terminator, before the structure block. */
  ghost predicate Terminated(b: seq<byte>)
    requires Sane(b)
  {
    exists i: nat :: EndsAt(b, i)
  }

  ghost predicate EndsAt(b: seq<byte>, i: nat)
    requires Sane(b)
  {
    OffRsv(b) + 16 * i + 16 <= OffStruct(b) && Terminator(b, OffRsv(b) + 16 * i)
  }

  lemma {:induction false} NumRsvFirst(b: seq<byte>, i: nat, k: nat)
    requires Sane(b) && EndsAt(b, k) && i <= k
    ensures i <= NumRsvFrom(b, i) <= k
    decreases k - i
  {
    if !Terminator(b, OffRsv(b) + 16 * i) {
      NumRsvFirst(b, i + 1, k);
    }
  }

  /** The loop finds an entry before the structure block iff there is one. */
  lemma {:induction false} NumRsvInside(b: seq<byte>)
    requires Sane(b)
    ensures Terminated(b) <==> 0 <= NumRsvFrom(b, 0) && OffRsv(b) + 16 * NumRsvFrom(b, 0) + 16 <= OffStruct(b)
  {
    if k: nat :| EndsAt(b, k) {
      NumRsvFirst(b, 0, k);
    }
    if 0 <= NumRsvFrom(b, 0) && OffRsv(b) + 16 * NumRsvFrom(b, 0) + 16 <= OffStruct(b) {
      NumRsvIs(b, 0);
      assert EndsAt(b, NumRsvFrom(b, 0));
    }
  }

  lemma {:induction false} NumRsvIs(b: seq<byte>, i: nat)
    requires Buf(b) && 40 <= TotalSize(b) && OffRsv(b) + 16 * i < 0x1_0000_0000 && NumRsvFrom(b, i) >= 0
    ensures OffRsv(b) + 16 * NumRsvFrom(b, i) + 16 <= |b| && Terminator(b, OffRsv(b) + 16 * NumRsvFrom(b, i))
    decreases |b| - 16 * i
  {
    if OffRsv(b) + 16 * i <= TotalSize(b) - 16 && !Terminator(b, OffRsv(b) + 16 * i) {
      NumRsvIs(b, i + 1);
    }
  }

  // ---- fdt_packblocks_ within one buffer ----

  ghost function PackRsv(b: seq<byte>, mem: nat): (r: seq<byte>)
    requires |b| >= 40 && OffRsv(b) + mem <= |b| && 40 + mem <= |b|
    ensures |r| == |b|
  {
    Set(Move(b, 40, OffRsv(b), mem), AT_OFF_RSV, 40)
  }

  ghost function PackStruct(b: seq<byte>, to: nat, n: nat): (r: seq<byte>)
    requires |b| >= 40 && OffStruct(b) + n <= |b| && to + n <= |b|
    ensures |r| == |b|
  {
    Set(Set(Move(b, to, OffStruct(b), n), AT_OFF_STRUCT, to), AT_SIZE_STRUCT, n)
  }

  ghost function PackStrings(b: seq<byte>, to: nat, n: nat): (r: seq<byte>)
    requires |b| >= 40 && OffStrings(b) + n <= |b| && to + n <= |b|
    ensures |r| == |b|
  {
    var b1 := Set(Move(b, to, OffStrings(b), n), AT_OFF_STRINGS, to);
    Set(b1, AT_SIZE_STRINGS, SizeStrings(b1))
  }

  /** Bytes [lo, hi) are as in b. */
  ghost predicate Keeps(b: seq<byte>, b': seq<byte>, lo: int, hi: int) {
    |b'| == |b| && 0 <= lo <= hi <= |b| && b'[lo..hi] == b[lo..hi]
  }

  lemma {:induction false} MovedField(b: seq<byte>, to: nat, src: nat, n: nat, f: int, v: int)
    requires |b| >= 40 && 40 <= to && to + n <= |b| && src + n <= |b| && IsField(f) && 0 <= v < 0x1_0000_0000
    ensures var r := Set(Move(b, to, src, n), f, v);
            HeaderOf(r) == With(HeaderOf(b), f, v) && r[to..to + n] == b[src..src + n] &&
            forall lo, hi | 40 <= lo <= hi <= |b| && (hi <= to || to + n <= lo) :: Keeps(b, r, lo, hi)
  {
    var m := Move(b, to, src, n);
    var r := Set(m, f, v);
    MoveKeeps(b, to, src, n, 0, 40);
    HeaderKept(b, m);
    SetHeader(m, f, v);
    MoveShifts(b, to, src, n, src, src + n);
    forall lo, hi | 40 <= lo <= hi <= |b| && (hi <= to || to + n <= lo) ensures Keeps(b, r, lo, hi) {
      MoveKeeps(b, to, src, n, lo, hi);
    }
  }

  lemma {:induction false} PackRsvIs(b: seq<byte>, mem: nat)
    requires Sane(b) && OffRsv(b) + mem <= OffStruct(b)
    ensures var r := PackRsv(b, mem);
            HeaderOf(r) == HeaderOf(b).(offRsv := 40) && r[40..40 + mem] == b[OffRsv(b)..OffRsv(b) + mem] &&
            Keeps(b, r, OffStruct(b), OffStruct(b) + SizeStruct(b)) && Keeps(b, r, OffStrings(b), DataSize(b))
  {
    MovedField(b, 40, OffRsv(b), mem, AT_OFF_RSV, 40);
  }

  lemma {:induction false} PackStructIs(b: seq<byte>, to: nat, n: nat, o: nat, so: nat, k: nat)
    requires |b| >= 40 && |b| <= 0x7fff_fff0 && OffStruct(b) == o && OffStrings(b) == so && 40 <= to <= o &&
             o + n <= so && so + k <= |b|
    ensures var r := PackStruct(b, to, n);
            HeaderOf(r) == HeaderOf(b).(offStruct := to, sizeStruct := n) && r[to..to + n] == b[o..o + n] &&
            Keeps(b, r, 40, to) && Keeps(b, r, so, so + k)
  {
    MovedField(b, to, o, n, AT_OFF_STRUCT, to);
    var b1 := Set(Move(b, to, o, n), AT_OFF_STRUCT, to);
    assert Keeps(b, b1, 40, to) && Keeps(b, b1, so, so + k);
    SetHeader(b1, AT_SIZE_STRUCT, n);
  }

  lemma {:induction false} PackStringsIs(b: seq<byte>, to: nat, n: nat, o: nat)
    requires |b| >= 40 && |b| <= 0x7fff_fff0 && OffStrings(b) == o && 40 <= to <= o && o + n <= |b|
    ensures var r := PackStrings(b, to, n);
            HeaderOf(r) == HeaderOf(b).(offStrings := to) && r[to..to + n] == b[o..o + n] && Keeps(b, r, 40, to)
  {
    MovedField(b, to, o, n, AT_OFF_STRINGS, to);
    var b1 := Set(Move(b, to, o, n), AT_OFF_STRINGS, to);
    assert Keeps(b, b1, 40, to);
    SetHeader(b1, AT_SIZE_STRINGS, SizeStrings(b1));
  }

  /** fdt_packblocks_ in place, then the new totalsize. */
  ghost function PackAll(b: seq<byte>, mem: nat): (r: seq<byte>)
    requires Sane(b) && OffRsv(b) + mem <= OffStruct(b)
    ensures |r| == |b|
  {
    PackBounds(b, mem);
    var st, str := SizeStruct(b), SizeStrings(b);
    TotalSet(PackStrings(PackStruct(PackRsv(b, mem), 40 + mem, st), 40 + mem + st, str))
  }

  /** totalsize becomes the end of the strings block. */
  ghost function TotalSet(b: seq<byte>): (r: seq<byte>)
    requires |b| >= 40
    ensures |r| == |b|
  {
    Set(b, AT_TOTALSIZE, OffStrings(b) + SizeStrings(b))
  }

  lemma {:induction false} PackBounds(b: seq<byte>, mem: nat)
    requires Sane(b) && OffRsv(b) + mem <= OffStruct(b)
    ensures var b1 := PackRsv(b, mem);
            OffStruct(b1) + SizeStruct(b) <= |b| && 40 + mem + SizeStruct(b) + SizeStrings(b) <= |b| &&
            OffStrings(PackStruct(b1, 40 + mem, SizeStruct(b))) + SizeStrings(b) <= |b|
  {
    PackRsvIs(b, mem);
    PackStructIs(PackRsv(b, mem), 40 + mem, SizeStruct(b), OffStruct(b), OffStrings(b), SizeStrings(b));
  }

  /** fdt_pack.  A reservation block without terminator before the structure block makes
      fdt_packblocks_ overwrite the structure block or move a negative number of bytes; the
      model stops there with STRAYS. */
  ghost function Packed(b: seq<byte>): (r: Res)
    requires Buf(b) && Version(b) <= 17 && (RwProbe(b) == 0 ==> Sane(b))
    ensures |r.blob| == |b|
  {
    if RwProbe(b) != 0 then Res(RwProbe(b), b)
    else
      NumRsvInside(b);
      if !Terminated(b) then Res(STRAYS, b) else Res(0, PackAll(b, 16 * NumRsvFrom(b, 0) + 16))
  }

  lemma {:induction false} PackAllIs(b: seq<byte>, mem: nat)
    requires Sane(b) && 16 <= mem && OffRsv(b) + mem <= OffStruct(b)
    ensures var r := PackAll(b, mem);
            Sane(r) && TotalSize(r) == DataSize(r) == 40 + mem + SizeStruct(b) + SizeStrings(b) &&
              BootCpu(r) == BootCpu(b) &&
            LastComp(r) == LastComp(b) && OffRsv(r) == 40 && OffStruct(r) == 40 + mem &&
              OffStrings(r) == 40 + mem + SizeStruct(b) &&
            Rsv(r) == b[OffRsv(b)..OffRsv(b) + mem] && Struct(r) == Struct(b) && Strings(r) == Strings(b)
  {
    var st, str := SizeStruct(b), SizeStrings(b);
    PackRsvIs(b, mem);
    var b1 := PackRsv(b, mem);
    PackStructIs(b1, 40 + mem, st, OffStruct(b), OffStrings(b), str);
    var b2 := PackStruct(b1, 40 + mem, st);
    PackStringsIs(b2, 40 + mem + st, str, OffStrings(b));
    var b3 := PackStrings(b2, 40 + mem + st, str);
    SetHeader(b3, AT_TOTALSIZE, OffStrings(b3) + SizeStrings(b3));
    PackedBlocks(b, b1, b2, b3, PackAll(b, mem), mem);
  }

  lemma {:induction false} PackedBlocks(b: seq<byte>, b1: seq<byte>, b2: seq<byte>, b3: seq<byte>, r: seq<byte>,
    mem: nat)
    requires Sane(b) && 16 <= mem && OffRsv(b) + mem <= OffStruct(b) && |b1| == |b| && |b2| == |b| && |b3| == |b| &&
             |r| == |b|
    requires var st, str := SizeStruct(b), SizeStrings(b);
             b1[40..40 + mem] == b[OffRsv(b)..OffRsv(b) + mem] && Keeps(b, b1, OffStruct(b), OffStruct(b) + st) &&
             Keeps(b, b1, OffStrings(b), DataSize(b)) &&
               b2[40 + mem..40 + mem + st] == b1[OffStruct(b)..OffStruct(b) + st] &&
             Keeps(b1, b2, 40, 40 + mem) && Keeps(b1, b2, OffStrings(b), OffStrings(b) + str) &&
             b3[40 + mem + st..40 + mem + st + str] == b2[OffStrings(b)..OffStrings(b) + str] &&
               Keeps(b2, b3, 40, 40 + mem + st) &&
             HeaderOf(r) == HeaderOf(b).(offRsv := 40, offStruct := 40 + mem, sizeStruct := st,
               offStrings := 40 + mem + st,
                                         totalSize := 40 + mem + st + str)
    requires forall lo, hi | 40 <= lo <= hi <= |b| :: r[lo..hi] == b3[lo..hi]
    ensures Sane(r) && Rsv(r) == b[OffRsv(b)..OffRsv(b) + mem] && Struct(r) == Struct(b) && Strings(r) == Strings(b)
  {
    var st := SizeStruct(b);
    assert Sane(r);
    SliceSlice(b3, 40, 40 + mem + st, 0, mem);
    SliceSlice(b2, 40, 40 + mem + st, 0, mem);
    SliceSlice(b3, 40, 40 + mem + st, mem, mem + st);
    SliceSlice(b2, 40, 40 + mem + st, mem, mem + st);
    RsvDef(r);
    StructDef(r);
    StructDef(b);
    StringsDef(r);
    StringsDef(b);
  }

  /** fdt_pack keeps reservation entries, structure and strings byte for byte and the trees
      with them, and totalsize becomes the exact sum of the packed blocks. */
  lemma {:induction false} PackKeeps(b: seq<byte>, t: Items)
    requires Holds(b, t) && Terminated(b)
    ensures var r := Packed(b);
            var mem := 16 * NumRsvFrom(b, 0) + 16;
            r.code == 0 && Sane(r.blob) &&
              TotalSize(r.blob) == DataSize(r.blob) == 40 + mem + SizeStruct(b) + SizeStrings(b) &&
            0 < mem <= |Rsv(b)| && Rsv(r.blob) == Rsv(b)[..mem] && Struct(r.blob) == Struct(b) &&
              Strings(r.blob) == Strings(b) &&
            Holds(r.blob, t) && Trees(r.blob, t) == Trees(b, t) && BootCpu(r.blob) == BootCpu(b)
  {
    var mem := 16 * NumRsvFrom(b, 0) + 16;
    NumRsvInside(b);
    RwProbeSane(b);
    PackAllIs(b, mem);
    RsvDef(b);
    SliceSlice(b, OffRsv(b), OffStruct(b), 0, mem);
    HoldsDef(b, t);
    HoldsDef(Packed(b).blob, t);
  }

  // ---- packing twice ----

  lemma {:induction false} BeLd(s: seq<byte>, o: int)
    requires 0 <= o <= |s| - 4
    ensures Be32(Ld32(s, o)) == s[o..o + 4]
  {
    LdDef(s, o);
    var a: int, b: int, c: int, d: int := s[o], s[o + 1], s[o + 2], s[o + 3];
    var x := a * 256 + b;
    var y := x * 256 + c;
    var v := y * 256 + d;
    BeDef(v);
    assert v / 256 == y && v % 256 == d && y / 256 == x && y % 256 == c && x / 256 == a && x % 256 == b;
  }

  lemma {:induction false} PutSelf(s: seq<byte>, o: int, x: seq<byte>)
    requires 0 <= o && o + |x| <= |s| && s[o..o + |x|] == x
    ensures Put(s, o, x) == s
  {
    PutDef(s, o, x);
  }

  /** Storing what is there changes nothing. */
  lemma {:induction false} SetSelf(b: seq<byte>, f: int)
    requires |b| >= 40 && IsField(f)
    ensures Set(b, f, Ld32(b, f)) == b
  {
    BeLd(b, f);
    PutSelf(b, f, Be32(Ld32(b, f)));
  }

  lemma {:induction false} MoveSelf(s: seq<byte>, o: nat, n: nat)
    requires o + n <= |s|
    ensures Move(s, o, o, n) == s
  {
    PutSelf(s, o, s[o..o + n]);
  }

  /** A packed blob is not changed by packing. */
  lemma {:induction false} PackAllSelf(b: seq<byte>, mem: nat)
    requires Sane(b) && 16 <= mem && OffRsv(b) == 40 && OffStruct(b) == 40 + mem &&
             OffStrings(b) == 40 + mem + SizeStruct(b) && TotalSize(b) == DataSize(b)
    ensures PackAll(b, mem) == b
  {
    MoveSelf(b, 40, mem);
    SetSelf(b, AT_OFF_RSV);
    MoveSelf(b, 40 + mem, SizeStruct(b));
    SetSelf(b, AT_OFF_STRUCT);
    SetSelf(b, AT_SIZE_STRUCT);
    MoveSelf(b, 40 + mem + SizeStruct(b), SizeStrings(b));
    SetSelf(b, AT_OFF_STRINGS);
    SetSelf(b, AT_SIZE_STRINGS);
    SetSelf(b, AT_TOTALSIZE);
  }

  /** The first terminator of the packed blob is the one of the original. */
  lemma {:induction false} SameEntries(b: seq<byte>, r: seq<byte>, i: nat, n: nat)
    requires Sane(b) && Sane(r) && i <= n && OffRsv(b) + 16 * n + 16 <= OffStruct(b) &&
             OffRsv(r) + 16 * n + 16 <= OffStruct(r) && NumRsvFrom(b, i) == n
    requires r[OffRsv(r)..OffRsv(r) + 16 * n + 16] == b[OffRsv(b)..OffRsv(b) + 16 * n + 16]
    ensures NumRsvFrom(r, i) == n
    decreases n - i
  {
    EntryMoved(b, r, i, n);
    if !Terminator(b, OffRsv(b) + 16 * i) {
      SameEntries(b, r, i + 1, n);
    }
  }

  lemma {:induction false} EntryMoved(b: seq<byte>, r: seq<byte>, i: nat, n: nat)
    requires Sane(b) && Sane(r) && i <= n && OffRsv(b) + 16 * n + 16 <= OffStruct(b) &&
             OffRsv(r) + 16 * n + 16 <= OffStruct(r)
    requires r[OffRsv(r)..OffRsv(r) + 16 * n + 16] == b[OffRsv(b)..OffRsv(b) + 16 * n + 16]
    ensures Terminator(r, OffRsv(r) + 16 * i) == Terminator(b, OffRsv(b) + 16 * i)
  {
    var p, q, k := OffRsv(b), OffRsv(r), 16 * n + 16;
    SameDef(b, p, r, q, k);
    SamePart(b, p, r, q, k, 16 * i + 8, 4);
    SamePart(b, p, r, q, k, 16 * i + 12, 4);
    LdSame(b, p + (16 * i + 8), r, q + (16 * i + 8));
    LdSame(b, p + (16 * i + 12), r, q + (16 * i + 12));
  }

  /** fdt_pack is idempotent. */
  lemma {:induction false} PackIdempotent(b: seq<byte>)
    requires Sane(b) && Terminated(b)
    ensures RwProbe(b) == 0 && var r := Packed(b).blob; Sane(r) && Packed(r) == Res(0, r)
  {
    var n := NumRsvFrom(b, 0);
    var mem := 16 * n + 16;
    NumRsvInside(b);
    RwProbeSane(b);
    PackAllIs(b, mem);
    var r := PackAll(b, mem);
    RsvDef(r);
    SameEntries(b, r, 0, n);
    RwProbeSane(r);
    NumRsvInside(r);
    PackAllSelf(r, mem);
  }
}
