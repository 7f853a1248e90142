/** fdt.c: the header, bounds-checked access to the structure block and the tag
    reader.  C arithmetic on int and uint32_t is written out with U32 and I32. */
module Fdt {
  import opened Bytes
  import opened Syntax

  const NOTFOUND: int := -1
  const EXISTS: int := -2
  const NOSPACE: int := -3
  const BADOFFSET: int := -4
  const BADSTATE: int := -7
  const TRUNCATED: int := -8
  const BADMAGIC: int := -9
  const BADVERSION: int := -10
  const BADSTRUCTURE: int := -11
  const BADLAYOUT: int := -12
  const INTERNAL: int := -13
  const BADFLAGS: int := -18

  const FDT_MAGIC: int := 0xd00d_feed
  const FDT_SW_MAGIC: int := 0x2ff2_0112

  function U32(x: int): (r: int)
    ensures 0 <= r < 0x1_0000_0000
  {
    x % 0x1_0000_0000
  }

  function I32(x: int): (r: int)
    ensures -0x8000_0000 <= r < 0x8000_0000
  {
    (x + 0x8000_0000) % 0x1_0000_0000 - 0x8000_0000
  }

  lemma {:induction false} U32Small(x: int)
    ensures 0 <= x < 0x1_0000_0000 ==> U32(x) == x
    ensures 0x1_0000_0000 <= x < 0x2_0000_0000 ==> U32(x) == x - 0x1_0000_0000
    ensures -0x1_0000_0000 <= x < 0 ==> U32(x) == x + 0x1_0000_0000
    ensures -0x8000_0000 <= x < 0x8000_0000 ==> I32(x) == x
    ensures 0x8000_0000 <= x < 0x1_8000_0000 ==> I32(x) == x - 0x1_0000_0000
  {
  }

  // ---- the header (struct fdt_header) ----

  /** A buffer: the caller promises that totalsize bytes are there. */
  ghost predicate Buf(b: seq<byte>) { 40 <= |b| <= 0x7fff_fff0 && TotalSize(b) <= |b| }

  ghost function Magic(b: seq<byte>): int requires |b| >= 40 { Ld32(b, 0) }
  ghost function TotalSize(b: seq<byte>): int requires |b| >= 40 { Ld32(b, 4) }
  ghost function OffStruct(b: seq<byte>): int requires |b| >= 40 { Ld32(b, 8) }
  ghost function OffStrings(b: seq<byte>): int requires |b| >= 40 { Ld32(b, 12) }
  ghost function OffRsv(b: seq<byte>): int requires |b| >= 40 { Ld32(b, 16) }
  ghost function Version(b: seq<byte>): int requires |b| >= 40 { Ld32(b, 20) }
  ghost function LastComp(b: seq<byte>): int requires |b| >= 40 { Ld32(b, 24) }
  ghost function BootCpu(b: seq<byte>): int requires |b| >= 40 { Ld32(b, 28) }
  ghost function SizeStrings(b: seq<byte>): int requires |b| >= 40 { Ld32(b, 32) }
  ghost function SizeStruct(b: seq<byte>): int requires |b| >= 40 { Ld32(b, 36) }

  datatype Header = Header(magic: int, totalSize: int, offStruct: int, offStrings: int, offRsv: int, version: int,
                           lastComp: int, bootCpu: int, sizeStrings: int, sizeStruct: int)

  ghost function HeaderOf(b: seq<byte>): Header
    requires |b| >= 40
  {
    Header(Magic(b), TotalSize(b), OffStruct(b), OffStrings(b), OffRsv(b), Version(b), LastComp(b), BootCpu(b),
           SizeStrings(b), SizeStruct(b))
  }

  const AT_MAGIC: int := 0
  const AT_TOTALSIZE: int := 4
  const AT_OFF_STRUCT: int := 8
  const AT_OFF_STRINGS: int := 12
  const AT_OFF_RSV: int := 16
  const AT_VERSION: int := 20
  const AT_LAST_COMP: int := 24
  const AT_BOOT_CPU: int := 28
  const AT_SIZE_STRINGS: int := 32
  const AT_SIZE_STRUCT: int := 36

  predicate IsField(f: int) { f in {0, 4, 8, 12, 16, 20, 24, 28, 32, 36} }

  function With(h: Header, f: int, v: int): Header
    requires IsField(f)
  {
    if f == 0 then h.(magic := v) else if f == 4 then h.(totalSize := v) else if f == 8 then h.(offStruct := v)
    else if f == 12 then h.(offStrings := v) else if f == 16 then h.(offRsv := v) else if f == 20 then h.(version := v)
    else if f == 24 then h.(lastComp := v) else if f == 28 then h.(bootCpu := v)
    else if f == 32 then h.(sizeStrings := v) else h.(sizeStruct := v)
  }

  /** fdt_set_...: store one header field. */
  ghost function Set(b: seq<byte>, f: int, v: int): (r: seq<byte>)
    requires |b| >= 40 && IsField(f)
    ensures |r| == |b|
  {
    Put(b, f, Be32(v))
  }

  lemma {:induction false} LdSet(b: seq<byte>, f: int, v: int, g: int)
    requires |b| >= 40 && IsField(f) && IsField(g) && 0 <= v < 0x1_0000_0000
    ensures Ld32(Set(b, f, v), g) == if f == g then v else Ld32(b, g)
  {
    if f == g {
      LdPutSame(b, f, v);
    } else {
      LdPutOther(b, f, Be32(v), g);
    }
  }

  /** Storing a field changes that field and no byte after the header. */
  lemma {:induction false} SetHeader(b: seq<byte>, f: int, v: int)
    requires |b| >= 40 && IsField(f) && 0 <= v < 0x1_0000_0000
    ensures HeaderOf(Set(b, f, v)) == With(HeaderOf(b), f, v)
    ensures forall lo, hi | 40 <= lo <= hi <= |b| :: Set(b, f, v)[lo..hi] == b[lo..hi]
  {
    LdSet(b, f, v, 0); LdSet(b, f, v, 4); LdSet(b, f, v, 8); LdSet(b, f, v, 12); LdSet(b, f, v, 16);
    LdSet(b, f, v, 20); LdSet(b, f, v, 24); LdSet(b, f, v, 28); LdSet(b, f, v, 32); LdSet(b, f, v, 36);
    forall lo, hi | 40 <= lo <= hi <= |b| ensures Set(b, f, v)[lo..hi] == b[lo..hi] {
      PutSlice(b, f, Be32(v), lo, hi);
    }
  }

  lemma {:induction false} LdKept(b: seq<byte>, b': seq<byte>, g: int)
    requires |b| >= 40 && |b'| >= 40 && b[..40] == b'[..40] && IsField(g)
    ensures Ld32(b', g) == Ld32(b, g)
  {
    SliceSlice(b, 0, 40, g, g + 4);
    SliceSlice(b', 0, 40, g, g + 4);
    assert b[0..40] == b'[0..40];
    SameDef(b, g, b', g, 4);
    LdSame(b, g, b', g);
  }

  /** The header is the first forty bytes. */
  lemma {:induction false} HeaderKept(b: seq<byte>, b': seq<byte>)
    requires |b| >= 40 && |b'| >= 40 && b[..40] == b'[..40]
    ensures HeaderOf(b') == HeaderOf(b)
  {
    LdKept(b, b', 0); LdKept(b, b', 4); LdKept(b, b', 8); LdKept(b, b', 12); LdKept(b, b', 16);
    LdKept(b, b', 20); LdKept(b, b', 24); LdKept(b, b', 28); LdKept(b, b', 32); LdKept(b, b', 36);
  }

  // ---- fdt_offset_ptr ----

  /** Whether fdt_offset_ptr returns a pointer rather than NULL. */
  ghost predicate OffsetPtr(b: seq<byte>, offset: int, len: int)
    requires |b| >= 40
  {
    var abs := U32(offset + OffStruct(b));
    offset >= 0 &&
    !(abs < offset || U32(abs + len) < abs || U32(abs + len) > TotalSize(b)) &&
    (Version(b) >= 17 ==> !(U32(offset + len) < offset || U32(offset + len) > SizeStruct(b)))
  }

  /** The overflow tests of fdt_offset_ptr are exact: it accepts a range iff the range
      lies in the blob and, from version 17 on, in the structure block. */
  lemma {:induction false} OffsetPtrMeans(b: seq<byte>, offset: int, len: int)
    requires |b| >= 40 && offset < 0x8000_0000 && 0 <= len < 0x1_0000_0000
    ensures OffsetPtr(b, offset, len) <==>
            0 <= offset && OffStruct(b) + offset + len <= TotalSize(b) &&
              (Version(b) >= 17 ==> offset + len <= SizeStruct(b))
  {
    U32Small(offset + OffStruct(b));
    U32Small(U32(offset + OffStruct(b)) + len);
    U32Small(offset + len);
  }

  // ---- fdt_next_tag ----

  /** The name-skipping loop: offset just after the NUL. */
  ghost function ScanName(b: seq<byte>, off: int): Option<int>
    requires Buf(b) && 0 <= off < 0x8000_0000
    decreases |b| - off
  {
    OffsetPtrMeans(b, off, 1);
    if !OffsetPtr(b, off, 1) then None
    else if b[OffStruct(b) + off] == 0 then Some(off + 1)
    else ScanName(b, off + 1)
  }

  ghost function TagEnd(b: seq<byte>, start: int, tag: int, off: int): (int, int)
    requires Buf(b)
  {
    if !OffsetPtr(b, start, U32(off - start)) then (FDT_END, BADSTRUCTURE) else (tag, Align4(off))
  }

  /** Offset after a property whose stored length is len, in 32-bit arithmetic. */
  function PropEnd(version: int, start: int, len: int): int {
    var off := I32(start + 12 + len);
    if version < 16 && len >= 8 && U32(off - len) % 8 != 0 then I32(off + 4) else off
  }

  ghost function NextTagBody(b: seq<byte>, start: int): (int, int)
    requires Buf(b) && start < 0x8000_0000
  {
    OffsetPtrMeans(b, start, 4);
    if !OffsetPtr(b, start, 4) then (FDT_END, TRUNCATED)
    else
      var tag := Ld32(b, OffStruct(b) + start);
      if tag == FDT_BEGIN_NODE then
        var e := ScanName(b, start + 4);
        if e.None? then (FDT_END, BADSTRUCTURE) else TagEnd(b, start, tag, e.value)
      else if tag == FDT_PROP then
        OffsetPtrMeans(b, start + 4, 4);
        if !OffsetPtr(b, start + 4, 4) then (FDT_END, BADSTRUCTURE)
        else TagEnd(b, start, tag, PropEnd(Version(b), start, Ld32(b, OffStruct(b) + start + 4)))
      else if tag == FDT_END || tag == FDT_END_NODE || tag == FDT_NOP then TagEnd(b, start, tag, start + 4)
      else (FDT_END, BADSTRUCTURE)
  }

  ghost predicate IsNextTag(b: seq<byte>, start: int, r: (int, int))
    requires Buf(b) && start < 0x8000_0000
  {
    forall z :: Unseal(z) ==> r == NextTagBody(b, start)
  }

  /** fdt_next_tag: the tag and *nextoffset; sealed. */
  ghost function NextTag(b: seq<byte>, start: int): (int, int)
    requires Buf(b) && start < 0x8000_0000
  {
    assert IsNextTag(b, start, NextTagBody(b, start));
    var r :| IsNextTag(b, start, r);
    r
  }

  lemma {:induction false} NextTagDef(b: seq<byte>, start: int)
    requires Buf(b) && start < 0x8000_0000
    ensures NextTag(b, start) == NextTagBody(b, start)
  {
    assert Unseal(0);
  }

  // ---- the tag reader against the tokens of the structure block ----

  /** A finished version 17 blob whose structure block lies inside it. */
  ghost predicate Framed(b: seq<byte>) {
    Buf(b) && Version(b) >= 17 && OffStruct(b) + SizeStruct(b) <= TotalSize(b)
  }

  ghost predicate IsStruct(b: seq<byte>, r: seq<byte>)
    requires Framed(b)
  {
    |r| == SizeStruct(b) && forall z :: Unseal(z) ==> r == b[OffStruct(b)..OffStruct(b) + SizeStruct(b)]
  }

  /** The structure block; sealed. */
  ghost function Struct(b: seq<byte>): (r: seq<byte>)
    requires Framed(b)
    ensures |r| == SizeStruct(b)
  {
    assert IsStruct(b, b[OffStruct(b)..OffStruct(b) + SizeStruct(b)]);
    var r :| IsStruct(b, r);
    r
  }

  lemma {:induction false} StructDef(b: seq<byte>)
    requires Framed(b)
    ensures Struct(b) == b[OffStruct(b)..OffStruct(b) + SizeStruct(b)]
  {
    assert Unseal(0);
  }

  function TagOf(k: Tok): int {
    match k
    case Open(_) => FDT_BEGIN_NODE
    case Close => FDT_END_NODE
    case Prop(_, _) => FDT_PROP
    case Nop => FDT_NOP
    case _ => FDT_END
  }

  /** s is what fdt_next_tag may read of the structure block, or a beginning of it: without a
      stored size, in version 16, that is everything up to the end of the blob. */
  ghost predicate Window(b: seq<byte>, s: seq<byte>) {
    Buf(b) && Version(b) >= 16 && OffStruct(b) + |s| <= TotalSize(b) && (Version(b) >= 17 ==> |s| <= SizeStruct(b)) &&
    Same(b, OffStruct(b), s, 0, |s|)
  }

  lemma {:induction false} StructWindow(b: seq<byte>)
    requires Framed(b)
    ensures Window(b, Struct(b))
  {
    StructDef(b);
    SameDef(b, OffStruct(b), Struct(b), 0, SizeStruct(b));
    assert Struct(b)[0..|Struct(b)|] == Struct(b);
  }

  lemma {:induction false} LdWindow(b: seq<byte>, s: seq<byte>, o: int)
    requires Window(b, s) && 0 <= o <= |s| - 4
    ensures Ld32(b, OffStruct(b) + o) == Ld32(s, o)
  {
    SamePart(b, OffStruct(b), s, 0, |s|, o, 4);
    LdSame(b, OffStruct(b) + o, s, o);
  }

  lemma {:induction false} LdStruct(b: seq<byte>, o: int)
    requires Framed(b) && 0 <= o <= SizeStruct(b) - 4
    ensures Ld32(b, OffStruct(b) + o) == Ld32(Struct(b), o)
  {
    StructWindow(b);
    LdWindow(b, Struct(b), o);
  }

  lemma {:induction false} ScanIs(b: seq<byte>, s: seq<byte>, o: int, x: seq<byte>, off: int)
    requires Window(b, s) && NameAt(s, o, x) && o <= off <= o + |x|
    ensures off < 0x8000_0000 && ScanName(b, off) == Some(o + |x| + 1)
    decreases o + |x| - off
  {
    OffsetPtrMeans(b, off, 1);
    SamePart(b, OffStruct(b), s, 0, |s|, off, 1);
    SameDef(b, OffStruct(b) + off, s, off, 1);
    assert b[OffStruct(b) + off] == b[OffStruct(b) + off..OffStruct(b) + off + 1][0] == s[off..off + 1][0];
    if off < o + |x| {
      assert s[off] == x[off - o];
      ScanIs(b, s, o, x, off + 1);
    }
  }

  /** On every token of the structure block the tag reader returns its tag and steps
      over it, alignment bytes included. */
  lemma {:induction false} NextTagIs(b: seq<byte>, s: seq<byte>, o: int, k: Tok)
    requires Window(b, s) && Aligned(o) && TokAt(s, o) == k && !k.Bad?
    ensures 0 <= o && o + TokSize(k) <= |s| < 0x8000_0000 && NextTag(b, o) == (TagOf(k), o + TokSize(k))
  {
    TokIs(s, o, k);
    LdWindow(b, s, o);
    NextTagDef(b, o);
    OffsetPtrMeans(b, o, 4);
    match k
    case Prop(nameoff, val) => NextTagProp(b, s, o, nameoff, val);
    case Open(name) => NextTagOpen(b, s, o, name);
    case End | Close | Nop => TagEndIs(b, s, o, TagOf(k), 4);
  }

  lemma {:induction false} NextTagTok(b: seq<byte>, o: int)
    requires Framed(b) && Aligned(o) && !TokAt(Struct(b), o).Bad?
    ensures 0 <= o < 0x8000_0000 && NextTag(b, o) == (TagOf(TokAt(Struct(b), o)), o + TokSize(TokAt(Struct(b), o)))
  {
    StructWindow(b);
    NextTagIs(b, Struct(b), o, TokAt(Struct(b), o));
  }

  lemma {:induction false} TagEndIs(b: seq<byte>, s: seq<byte>, o: int, tag: int, n: nat)
    requires Window(b, s) && Aligned(o) && 0 <= o && o + n <= |s|
    ensures TagEnd(b, o, tag, o + n) == (tag, o + Align4(n))
    ensures n == 4 ==> Align4(n) == 4
  {
    U32Small(n);
    OffsetPtrMeans(b, o, n);
    AlignedAdd(o, n);
    AlignDef(4);
  }

  lemma {:induction false} NextTagProp(b: seq<byte>, s: seq<byte>, o: int, nameoff: int, val: seq<byte>)
    requires Window(b, s) && Aligned(o) && Spells(s, o, Prop(nameoff, val))
    ensures OffsetPtr(b, o, 4) && NextTagBody(b, o) == (FDT_PROP, o + PropSize(|val|))
  {
    LdWindow(b, s, o);
    LdWindow(b, s, o + 4);
    OffsetPtrMeans(b, o, 4);
    OffsetPtrMeans(b, o + 4, 4);
    U32Small(o + 12 + |val|);
    TagEndIs(b, s, o, FDT_PROP, 12 + |val|);
    AlignedConst();
    AlignedAdd(12, |val|);
  }

  lemma {:induction false} NextTagOpen(b: seq<byte>, s: seq<byte>, o: int, name: seq<byte>)
    requires Window(b, s) && Aligned(o) && Spells(s, o, Open(name))
    ensures OffsetPtr(b, o, 4) && NextTagBody(b, o) == (FDT_BEGIN_NODE, o + OpenSize(|name|))
  {
    LdWindow(b, s, o);
    OffsetPtrMeans(b, o, 4);
    ScanIs(b, s, o + 4, name, o + 4);
    TagEndIs(b, s, o, FDT_BEGIN_NODE, 4 + |name| + 1);
    AlignedConst();
    AlignedAdd(4, |name| + 1);
  }

  /** At o stands a property whose stored length is 0xfffffff4. */
  ghost predicate Stuck(b: seq<byte>, o: int)
    requires Buf(b)
  {
    0 <= o && OffStruct(b) + o + 8 <= TotalSize(b) && (Version(b) >= 17 ==> o + 8 <= SizeStruct(b)) &&
    Ld32(b, OffStruct(b) + o) == FDT_PROP && Ld32(b, OffStruct(b) + o + 4) == 0xffff_fff4
  }

  /** fdt_next_tag fails or advances to an aligned offset, except that it skips a property whose
      stored length is 0xfffffff4 by zero bytes: 12 + 0xfffffff4 wraps to 0. */
  lemma {:induction false} NextTagAdvances(b: seq<byte>, o: int)
    requires Buf(b) && 0 <= o < 0x8000_0000 && Aligned(o) && Version(b) >= 16
    ensures NextTag(b, o).1 == o <==> Stuck(b, o)
    ensures Stuck(b, o) ==> NextTag(b, o) == (FDT_PROP, o)
    ensures NextTag(b, o).1 < 0 || (NextTag(b, o).1 >= o && Aligned(NextTag(b, o).1))
    ensures NextTag(b, o).1 < 0 ==> NextTag(b, o).0 == FDT_END && NextTag(b, o).1 in {TRUNCATED, BADSTRUCTURE}
  {
    NextTagDef(b, o);
    OffsetPtrMeans(b, o, 4);
    if OffsetPtr(b, o, 4) {
      OffsetPtrMeans(b, o + 4, 4);
      var tag := Ld32(b, OffStruct(b) + o);
      if tag == FDT_PROP {
        if OffsetPtr(b, o + 4, 4) {
          PropAdvances(b, o, Ld32(b, OffStruct(b) + o + 4));
        }
      } else if tag == FDT_BEGIN_NODE {
        ScanForward(b, o + 4);
        if ScanName(b, o + 4).Some? {
          AlignDef(ScanName(b, o + 4).value);
        }
      } else {
        AlignDef(o + 4);
      }
    }
  }

  lemma {:induction false} PropAdvances(b: seq<byte>, o: int, len: int)
    requires Buf(b) && 0 <= o && o + 8 <= |b| && Aligned(o) && Version(b) >= 16 && 0 <= len < 0x1_0000_0000
    requires OffsetPtr(b, o, 4)
    ensures var (t, n) := TagEnd(b, o, FDT_PROP, PropEnd(Version(b), o, len));
            if n < 0 then t == FDT_END && n == BADSTRUCTURE && len != 0xffff_fff4
            else t == FDT_PROP && n >= o && Aligned(n) && (n == o <==> len == 0xffff_fff4)
  {
    var k := if len < 0xffff_fff4 then 12 + len else len - 0xffff_fff4;
    PropEndIs(Version(b), o, len, k);
    OffsetPtrMeans(b, o, 4);
    OffsetPtrMeans(b, o, k);
    AlignFrom(o, k);
    assert TagEnd(b, o, FDT_PROP, PropEnd(Version(b), o, len)) ==
           if OffsetPtr(b, o, k) then (FDT_PROP, Align4(o + k)) else (FDT_END, BADSTRUCTURE);
  }

  lemma {:induction false} AlignFrom(o: int, k: int)
    requires Aligned(o) && 0 <= k
    ensures Aligned(Align4(o + k)) && o <= Align4(o + k) && (Align4(o + k) == o <==> k == 0)
  {
    AlignDef(o + k);
    AlignedAdd(o, k);
    AlignDef(k);
  }

  /** From version 16 on a property takes 12 + len bytes modulo 2^32. */
  lemma {:induction false} PropEndIs(version: int, o: int, len: int, k: int)
    requires 16 <= version && 0 <= o < 0x7fff_fff0 && 0 <= len < 0x1_0000_0000
    requires k == if len < 0xffff_fff4 then 12 + len else len - 0xffff_fff4
    ensures U32(PropEnd(version, o, len) - o) == k
    ensures o + k < 0x8000_0000 ==> PropEnd(version, o, len) == o + k
  {
    var x := o + 12 + len;
    var q := if x < 0x8000_0000 then 0 else if x < 0x1_8000_0000 then 1 else 2;
    assert (x + 0x8000_0000) / 0x1_0000_0000 == q;
    U32Small(k);
    U32Small(x - q * 0x1_0000_0000 - o);
  }

  lemma {:induction false} ScanForward(b: seq<byte>, off: int)
    requires Buf(b) && 0 <= off < 0x8000_0000
    ensures ScanName(b, off).Some? ==> off < ScanName(b, off).value <= 0x8000_0000
    decreases |b| - off
  {
    OffsetPtrMeans(b, off, 1);
    if OffsetPtr(b, off, 1) && b[OffStruct(b) + off] != 0 {
      ScanForward(b, off + 1);
    }
  }

  /** Whatever fdt_next_tag stores in *nextoffset is an error code or a 31-bit offset. */
  lemma {:induction false} NextTagBound(b: seq<byte>, o: int)
    requires Buf(b) && o < 0x8000_0000
    ensures NextTag(b, o).1 < 0x8000_0000 && (NextTag(b, o).1 < o ==> NextTag(b, o).1 < 0 && NextTag(b, o).0 == FDT_END)
  {
    NextTagDef(b, o);
    OffsetPtrMeans(b, o, 4);
    if OffsetPtr(b, o, 4) {
      var tag := Ld32(b, OffStruct(b) + o);
      if tag == FDT_BEGIN_NODE {
        ScanForward(b, o + 4);
        if ScanName(b, o + 4).Some? {
          TagEndBound(b, o, tag, ScanName(b, o + 4).value);
        }
      } else if tag == FDT_PROP {
        OffsetPtrMeans(b, o + 4, 4);
        if OffsetPtr(b, o + 4, 4) {
          TagEndBound(b, o, tag, PropEnd(Version(b), o, Ld32(b, OffStruct(b) + o + 4)));
        }
      } else {
        TagEndBound(b, o, tag, o + 4);
      }
    }
  }

  lemma {:induction false} TagEndBound(b: seq<byte>, o: int, tag: int, off: int)
    requires Buf(b) && 0 <= o <= |b| && -0x8000_0000 <= off <= 0x8000_0000
    ensures var (t, n) := TagEnd(b, o, tag, off); n < 0x8000_0000 && (n < o ==> n < 0 && t == FDT_END)
  {
    U32Small(off - o);
    OffsetPtrMeans(b, o, U32(off - o));
    AlignDef(off);
  }
}
