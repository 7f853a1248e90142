/** fdt_rw.c: the splices that open or close a gap in a block by moving everything
    behind it, and what they leave of the three blocks. */
module Splice {
  import opened Bytes
  import opened Fdt
  import opened Blob

  /** Return code (0, an error, or an offset) and the bytes of the buffer afterwards. */
  datatype Res = Res(code: int, blob: seq<byte>)

  /** fdt_splice_.  The lengths are C ints and newlen is not negative, so the unsigned
      sums of the C code do not wrap on a sane blob. */
  ghost function SpliceAt(b: seq<byte>, p: int, oldlen: int, newlen: int): (r: Res)
    requires Sane(b) && 0 <= p && 0 <= newlen
    ensures |r.blob| == |b|
    ensures r.code == 0 ==> 0 <= oldlen && p + oldlen <= DataSize(b) && p + newlen <= |b|
    ensures r.code != 0 ==> r.blob == b
  {
    if oldlen < 0 || p + oldlen > DataSize(b) then Res(BADOFFSET, b)
    else if DataSize(b) - oldlen + newlen > TotalSize(b) then Res(NOSPACE, b)
    else Res(0, Move(b, p + newlen, p + oldlen, DataSize(b) - (p + oldlen)))
  }

  ghost function SpliceStructBody(b: seq<byte>, off: int, oldlen: int, newlen: int): (r: Res)
    requires Sane(b) && 0 <= off && 0 <= newlen
    ensures |r.blob| == |b| && (r.code != 0 ==> r.blob == b)
    ensures r.code == 0 ==>
              0 <= oldlen && OffStruct(b) + off + oldlen <= DataSize(b) &&
              OffStruct(b) + off + newlen <= |b|
  {
    var r := SpliceAt(b, OffStruct(b) + off, oldlen, newlen);
    if r.code != 0 then r else Res(0, Shifted(r.blob, newlen - oldlen))
  }

  /** The header updates of fdt_splice_struct_ for a structure block that grew by d bytes. */
  ghost function Shifted(b: seq<byte>, d: int): (r: seq<byte>)
    requires |b| >= 40
    ensures |r| == |b|
  {
    var b1 := Set(b, AT_SIZE_STRUCT, SizeStruct(b) + d);
    Set(b1, AT_OFF_STRINGS, OffStrings(b1) + d)
  }

  ghost predicate IsSpliceStruct(b: seq<byte>, off: int, oldlen: int, newlen: int, r: Res)
    requires Sane(b) && 0 <= off && 0 <= newlen
  {
    |r.blob| == |b| && (r.code != 0 ==> r.blob == b) &&
    (r.code == 0 ==> 0 <= oldlen && OffStruct(b) + off + oldlen <= DataSize(b) && OffStruct(b) + off + newlen <= |b|) &&
    forall z :: Unseal(z) ==> r == SpliceStructBody(b, off, oldlen, newlen)
  }

  /** fdt_splice_struct_ at an offset of the structure block; sealed. */
  ghost function SpliceStruct(b: seq<byte>, off: int, oldlen: int, newlen: int): (r: Res)
    requires Sane(b) && 0 <= off && 0 <= newlen
    ensures |r.blob| == |b| && (r.code != 0 ==> r.blob == b)
    ensures r.code == 0 ==>
              0 <= oldlen && OffStruct(b) + off + oldlen <= DataSize(b) &&
              OffStruct(b) + off + newlen <= |b|
  {
    assert IsSpliceStruct(b, off, oldlen, newlen, SpliceStructBody(b, off, oldlen, newlen));
    var r :| IsSpliceStruct(b, off, oldlen, newlen, r);
    r
  }

  lemma {:induction false} SpliceStructDef(b: seq<byte>, off: int, oldlen: int, newlen: int)
    requires Sane(b) && 0 <= off && 0 <= newlen
    ensures SpliceStruct(b, off, oldlen, newlen) == SpliceStructBody(b, off, oldlen, newlen)
  {
    assert Unseal(0);
  }

  /** fdt_splice_string_. */
  ghost function SpliceString(b: seq<byte>, newlen: int): (r: Res)
    requires Sane(b) && 0 <= newlen
    ensures |r.blob| == |b| && (r.code == 0 ==> DataSize(b) + newlen <= |b|)
    ensures r.code != 0 ==> r.blob == b
  {
    var r := SpliceAt(b, DataSize(b), 0, newlen);
    if r.code != 0 then r else Res(0, Set(r.blob, AT_SIZE_STRINGS, SizeStrings(r.blob) + newlen))
  }

  /** What every edit leaves alone: the buffer, its capacity, the reservation block, and the gap between
      structure and strings block. */
  ghost predicate Kept(b: seq<byte>, b': seq<byte>) {
    Sane(b) && Sane(b') && |b'| == |b| && Rsv(b') == Rsv(b) &&
    TotalSize(b') == TotalSize(b) && OffRsv(b') == OffRsv(b) && OffStruct(b') == OffStruct(b) &&
    LastComp(b') == LastComp(b) && BootCpu(b') == BootCpu(b) &&
    OffStrings(b') - SizeStruct(b') == OffStrings(b) - SizeStruct(b)
  }

  /** In the structure block, oldlen bytes at off have become newlen bytes. */
  ghost predicate StructSpliced(b: seq<byte>, b': seq<byte>, off: int, oldlen: int, newlen: int) {
    Kept(b, b') && Strings(b') == Strings(b) && SizeStruct(b') == SizeStruct(b) - oldlen + newlen &&
    0 <= off && 0 <= oldlen && 0 <= newlen && off + oldlen <= SizeStruct(b) &&
    Same(Struct(b), 0, Struct(b'), 0, off) &&
    Same(Struct(b), off + oldlen, Struct(b'), off + newlen, SizeStruct(b) - off - oldlen)
  }

  lemma {:induction false} SpliceMoves(b: seq<byte>, m: seq<byte>, off: int, oldlen: int, newlen: int)
    requires Sane(b) && 0 <= off && 0 <= oldlen && 0 <= newlen && off + oldlen <= SizeStruct(b)
    requires DataSize(b) - oldlen + newlen <= TotalSize(b)
    requires var p := OffStruct(b) + off; m == Move(b, p + newlen, p + oldlen, DataSize(b) - (p + oldlen))
    ensures HeaderOf(m) == HeaderOf(b) && Moved(b, m, off, oldlen, newlen)
  {
    var p := OffStruct(b) + off;
    var n := DataSize(b) - (p + oldlen);
    MoveKeeps(b, p + newlen, p + oldlen, n, 0, 40);
    HeaderKept(b, m);
    MoveKeeps(b, p + newlen, p + oldlen, n, OffRsv(b), OffStruct(b));
    MoveKeeps(b, p + newlen, p + oldlen, n, OffStruct(b), p);
    MoveShifts(b, p + newlen, p + oldlen, n, p + oldlen, OffStruct(b) + SizeStruct(b));
    MoveShifts(b, p + newlen, p + oldlen, n, OffStrings(b), DataSize(b));
  }

  /** The blocks of b, spliced, lie in m where the new header will say. */
  ghost predicate Moved(b: seq<byte>, m: seq<byte>, off: int, oldlen: int, newlen: int)
    requires Sane(b) && 0 <= off && 0 <= oldlen && 0 <= newlen && off + oldlen <= SizeStruct(b)
    requires DataSize(b) - oldlen + newlen <= TotalSize(b)
  {
    var p, d := OffStruct(b) + off, newlen - oldlen;
    |m| == |b| && m[OffRsv(b)..OffStruct(b)] == b[OffRsv(b)..OffStruct(b)] &&
      m[OffStruct(b)..p] == b[OffStruct(b)..p] &&
    m[p + newlen..OffStruct(b) + SizeStruct(b) + d] == b[p + oldlen..OffStruct(b) + SizeStruct(b)] &&
    m[OffStrings(b) + d..DataSize(b) + d] == b[OffStrings(b)..DataSize(b)]
  }

  /** A structure splice succeeds iff there is room; it then replaces exactly the given
      range and keeps the strings; otherwise it changes nothing. */
  lemma {:induction false} SpliceStructIs(b: seq<byte>, off: int, oldlen: int, newlen: int)
    requires Sane(b) && 0 <= off && 0 <= oldlen && 0 <= newlen && off + oldlen <= SizeStruct(b)
    ensures var r := SpliceStruct(b, off, oldlen, newlen);
            if DataSize(b) - oldlen + newlen <= TotalSize(b) then r.code == 0 &&
              StructSpliced(b, r.blob, off, oldlen, newlen)
            else r == Res(NOSPACE, b)
  {
    SpliceStructDef(b, off, oldlen, newlen);
    if DataSize(b) - oldlen + newlen <= TotalSize(b) {
      var p := OffStruct(b) + off;
      var m := Move(b, p + newlen, p + oldlen, DataSize(b) - (p + oldlen));
      SpliceMoves(b, m, off, oldlen, newlen);
      SpliceSets(b, m, off, oldlen, newlen);
    }
  }

  lemma {:induction false} SpliceSets(b: seq<byte>, m: seq<byte>, off: int, oldlen: int, newlen: int)
    requires Sane(b) && 0 <= off && 0 <= oldlen && 0 <= newlen && off + oldlen <= SizeStruct(b)
    requires DataSize(b) - oldlen + newlen <= TotalSize(b) && Moved(b, m, off, oldlen, newlen) &&
             HeaderOf(m) == HeaderOf(b)
    ensures StructSpliced(b, Shifted(m, newlen - oldlen), off, oldlen, newlen)
  {
    var d := newlen - oldlen;
    SetHeader(m, AT_SIZE_STRUCT, SizeStruct(m) + d);
    var b1 := Set(m, AT_SIZE_STRUCT, SizeStruct(m) + d);
    SetHeader(b1, AT_OFF_STRINGS, OffStrings(b1) + d);
    var b2 := Set(b1, AT_OFF_STRINGS, OffStrings(b1) + d);
    assert HeaderOf(b2) == HeaderOf(b).(sizeStruct := SizeStruct(b) + d, offStrings := OffStrings(b) + d);
    BlocksSpliced(b, m, b2, off, oldlen, newlen);
  }

  lemma {:induction false} BlocksSpliced(b: seq<byte>, m: seq<byte>, b2: seq<byte>, off: int, oldlen: int, newlen: int)
    requires Sane(b) && 0 <= off && 0 <= oldlen && 0 <= newlen && off + oldlen <= SizeStruct(b)
    requires DataSize(b) - oldlen + newlen <= TotalSize(b) && |b2| == |b| && Moved(b, m, off, oldlen, newlen)
    requires var d := newlen - oldlen;
             HeaderOf(b2) == HeaderOf(b).(sizeStruct := SizeStruct(b) + d, offStrings := OffStrings(b) + d)
    requires forall lo, hi | 40 <= lo <= hi <= |b| :: b2[lo..hi] == m[lo..hi]
    ensures StructSpliced(b, b2, off, oldlen, newlen)
  {
    assert Sane(b2);
    assert Rsv(b2) == Rsv(b) by { RsvDef(b); RsvDef(b2); }
    assert Strings(b2) == Strings(b) by { StringsDef(b); StringsDef(b2); }
    StructPart(b, 0, b2, 0, off);
    StructPart(b, off + oldlen, b2, off + newlen, SizeStruct(b) - off - oldlen);
  }

  /** Equal ranges of two structure blocks, seen from the buffers. */
  lemma {:induction false} StructPart(b: seq<byte>, o: int, b': seq<byte>, o': int, n: int)
    requires Framed(b) && Framed(b') && 0 <= n && 0 <= o && o + n <= SizeStruct(b) && 0 <= o' &&
             o' + n <= SizeStruct(b')
    requires b[OffStruct(b) + o..OffStruct(b) + o + n] == b'[OffStruct(b') + o'..OffStruct(b') + o' + n]
    ensures Same(Struct(b), o, Struct(b'), o', n)
  {
    StructDef(b);
    StructDef(b');
    SliceSlice(b, OffStruct(b), OffStruct(b) + SizeStruct(b), o, o + n);
    SliceSlice(b', OffStruct(b'), OffStruct(b') + SizeStruct(b'), o', o' + n);
    SameDef(Struct(b), o, Struct(b'), o', n);
  }

  /** Writing inside the structure block changes nothing else. */
  lemma {:induction false} PutStruct(b: seq<byte>, off: int, x: seq<byte>)
    requires Sane(b) && 0 <= off && off + |x| <= SizeStruct(b)
    ensures var b' := Put(b, OffStruct(b) + off, x);
            Kept(b, b') && Strings(b') == Strings(b) && HeaderOf(b') == HeaderOf(b) &&
              Struct(b') == Put(Struct(b), off, x)
  {
    var b' := Put(b, OffStruct(b) + off, x);
    PutSlice(b, OffStruct(b) + off, x, 0, 40);
    HeaderKept(b, b');
    PutSlice(b, OffStruct(b) + off, x, OffRsv(b), OffStruct(b));
    PutSlice(b, OffStruct(b) + off, x, OffStrings(b), DataSize(b));
    PutWithin(b, OffStruct(b) + off, x, OffStruct(b), OffStruct(b) + SizeStruct(b));
    RsvDef(b);
    RsvDef(b');
    StringsDef(b);
    StringsDef(b');
    StructDef(b);
    StructDef(b');
  }

  /** Appending to the strings block: succeeds iff there is room, and the new bytes are then written. */
  lemma {:induction false} SpliceStringIs(b: seq<byte>, x: seq<byte>)
    requires Sane(b)
    ensures var r := SpliceString(b, |x|);
            if DataSize(b) + |x| > TotalSize(b) then r == Res(NOSPACE, b)
            else r.code == 0 && var b' := Put(r.blob, DataSize(b), x);
              Kept(b, b') && OffStrings(b') == OffStrings(b) && Struct(b') == Struct(b) && Strings(b') == Strings(b) + x
  {
    if DataSize(b) + |x| <= TotalSize(b) {
      var e := DataSize(b);
      var m := Move(b, e + |x|, e, 0);
      MoveNone(b, e + |x|, e);
      SetHeader(b, AT_SIZE_STRINGS, SizeStrings(b) + |x|);
      StringAppended(b, Set(b, AT_SIZE_STRINGS, SizeStrings(b) + |x|), x);
    }
  }

  lemma {:induction false} StringAppended(b: seq<byte>, m: seq<byte>, x: seq<byte>)
    requires Sane(b) && DataSize(b) + |x| <= TotalSize(b) && |m| == |b|
    requires HeaderOf(m) == HeaderOf(b).(sizeStrings := SizeStrings(b) + |x|)
    requires forall lo, hi | 40 <= lo <= hi <= |b| :: m[lo..hi] == b[lo..hi]
    ensures var b' := Put(m, DataSize(b), x);
            Kept(b, b') && OffStrings(b') == OffStrings(b) && Struct(b') == Struct(b) && Strings(b') == Strings(b) + x
  {
    var e := DataSize(b);
    var b' := Put(m, e, x);
    PutSlice(m, e, x, 0, 40);
    HeaderKept(m, b');
    PutSlice(m, e, x, OffRsv(b), OffStruct(b));
    PutSlice(m, e, x, OffStruct(b), OffStruct(b) + SizeStruct(b));
    PutSlice(m, e, x, OffStrings(b), e);
    PutInside(m, e, x);
    assert b'[OffStrings(b)..e + |x|] == b'[OffStrings(b)..e] + b'[e..e + |x|];
    RsvDef(b);
    RsvDef(b');
    StringsDef(b);
    StringsDef(b');
    StructDef(b);
    StructDef(b');
  }
}
