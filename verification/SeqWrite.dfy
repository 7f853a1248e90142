/** fdt_sw.c: building a blob sequentially.  The state of the writer is kept in header
    fields: magic, the strings offset (0 while entries are reserved, totalsize while the
    structure is written) and the two sizes; strings grow down from the end. */
module SeqWrite {
  import opened Bytes
  import opened Syntax
  import opened Fdt
  import opened Splice
  import opened Edit

  /** A buffer under construction: structure growing up and strings growing down do not meet. */
  ghost predicate Unfinished(b: seq<byte>) {
    Buf(b) && |b| == TotalSize(b) && Magic(b) == FDT_SW_MAGIC && Version(b) == 17 && LastComp(b) <= 1 &&
      OffRsv(b) == 48 &&
    48 <= OffStruct(b) && OffStruct(b) + SizeStruct(b) + SizeStrings(b) <= TotalSize(b)
  }

  /** What the functions below may be called on: if the buffer claims to be under
      construction, it is. */
  ghost predicate SwBuf(b: seq<byte>) { Buf(b) && (Magic(b) == FDT_SW_MAGIC ==> Unfinished(b)) }

  // ---- the blocks of an unfinished blob ----

  ghost predicate IsTable(b: seq<byte>, r: seq<byte>)
    requires Unfinished(b)
  {
    |r| == SizeStrings(b) && forall z :: Unseal(z) ==> r == b[TotalSize(b) - SizeStrings(b)..TotalSize(b)]
  }

  /** The strings written so far, at the end of the buffer; sealed. */
  ghost function Table(b: seq<byte>): (r: seq<byte>)
    requires Unfinished(b)
    ensures |r| == SizeStrings(b)
  {
    assert IsTable(b, b[TotalSize(b) - SizeStrings(b)..TotalSize(b)]);
    var r :| IsTable(b, r);
    r
  }

  lemma {:induction false} TableDef(b: seq<byte>)
    requires Unfinished(b)
    ensures Table(b) == b[TotalSize(b) - SizeStrings(b)..TotalSize(b)]
  {
    assert Unseal(0);
  }

  ghost predicate IsReserved(b: seq<byte>, r: seq<byte>)
    requires Unfinished(b)
  {
    |r| == OffStruct(b) - 48 && forall z :: Unseal(z) ==> r == b[48..OffStruct(b)]
  }

  /** The memory reservation entries written so far; sealed. */
  ghost function Reserved(b: seq<byte>): (r: seq<byte>)
    requires Unfinished(b)
    ensures |r| == OffStruct(b) - 48
  {
    assert IsReserved(b, b[48..OffStruct(b)]);
    var r :| IsReserved(b, r);
    r
  }

  lemma {:induction false} ReservedDef(b: seq<byte>)
    requires Unfinished(b)
    ensures Reserved(b) == b[48..OffStruct(b)]
  {
    assert Unseal(0);
  }

  // ---- probes ----

  ghost function SwProbe(b: seq<byte>): int
    requires |b| >= 40
  {
    if Magic(b) == FDT_MAGIC then BADSTATE else if Magic(b) != FDT_SW_MAGIC then BADMAGIC else 0
  }

  ghost function SwProbeMemrsv(b: seq<byte>): int
    requires |b| >= 40
  {
    if SwProbe(b) != 0 then SwProbe(b) else if OffStrings(b) != 0 then BADSTATE else 0
  }

  ghost function SwProbeStruct(b: seq<byte>): int
    requires |b| >= 40
  {
    if SwProbe(b) != 0 then SwProbe(b) else if OffStrings(b) != TotalSize(b) then BADSTATE else 0
  }

  // ---- the calls ----

  /** fdt_create_with_flags on a buffer of bufsize bytes. */
  ghost function Create(buf: seq<byte>, flags: int): (r: Res)
    requires |buf| <= 0x7fff_fff0 && 0 <= flags < 0x1_0000_0000
    ensures |r.blob| == |buf|
  {
    if |buf| < 48 then Res(NOSPACE, buf)
    else if flags > 1 then Res(BADFLAGS, buf)
    else
      var b0: seq<byte> := Zeros(|buf|);
      var b1 := Set(Set(Set(b0, AT_MAGIC, FDT_SW_MAGIC), AT_VERSION, 17), AT_LAST_COMP, flags);
      var b2 := Set(Set(b1, AT_TOTALSIZE, |buf|), AT_OFF_RSV, 48);
      Res(0, Set(Set(b2, AT_OFF_STRUCT, 48), AT_OFF_STRINGS, 0))
  }

  /** A 64-bit big-endian number. */
  ghost function Be64(v: int): (s: seq<byte>)
    ensures |s| == 8
  {
    Be32(v / 0x1_0000_0000) + Be32(v % 0x1_0000_0000)
  }

  /** The bytes of a struct fdt_reserve_entry. */
  ghost function Entry(addr: int, size: int): (s: seq<byte>)
    ensures |s| == 16
  {
    Be64(addr) + Be64(size)
  }

  /** fdt_add_reservemap_entry. */
  ghost function AddReserve(b: seq<byte>, addr: int, size: int): (r: Res)
    requires SwBuf(b)
    ensures |r.blob| == |b|
  {
    if SwProbeMemrsv(b) != 0 then Res(SwProbeMemrsv(b), b)
    else if OffStruct(b) + 16 > TotalSize(b) then Res(NOSPACE, b)
    else Res(0, Set(Put(b, OffStruct(b), Entry(addr, size)), AT_OFF_STRUCT, OffStruct(b) + 16))
  }

  /** fdt_finish_reservemap. */
  ghost function FinishReserve(b: seq<byte>): (r: Res)
    requires SwBuf(b)
    ensures |r.blob| == |b|
  {
    var r := AddReserve(b, 0, 0);
    if r.code != 0 then r else Res(0, Set(r.blob, AT_OFF_STRINGS, TotalSize(r.blob)))
  }

  /** fdt_grab_space_: the buffer with the structure grown by len bytes, None without room. */
  ghost function Grab(b: seq<byte>, len: nat): (r: Option<seq<byte>>)
    requires Unfinished(b)
    ensures r.Some? ==> |r.value| == |b| && OffStruct(b) + SizeStruct(b) + SizeStrings(b) + len <= |b|
    ensures r.Some? <==> OffStruct(b) + SizeStruct(b) + SizeStrings(b) + len <= TotalSize(b)
  {
    U32Small(TotalSize(b) - OffStruct(b));
    U32Small(U32(TotalSize(b) - OffStruct(b)) - SizeStrings(b));
    var offset := SizeStruct(b);
    if offset + len < offset || offset + len > U32(U32(TotalSize(b) - OffStruct(b)) - SizeStrings(b)) then None
    else Some(Set(b, AT_SIZE_STRUCT, offset + len))
  }

  /** Grab len bytes and write x at their start. */
  ghost function Emit(b: seq<byte>, len: nat, x: seq<byte>): (r: Res)
    requires Unfinished(b) && |x| <= len
    ensures |r.blob| == |b|
  {
    var g := Grab(b, len);
    if g.None? then Res(NOSPACE, b) else Res(0, Put(g.value, OffStruct(b) + SizeStruct(b), x))
  }

  /** fdt_begin_node. */
  ghost function Begin(b: seq<byte>, name: seq<byte>): (r: Res)
    requires SwBuf(b)
    ensures |r.blob| == |b|
  {
    if SwProbeStruct(b) != 0 then Res(SwProbeStruct(b), b)
    else Emit(b, OpenSize(|name|), Be32(FDT_BEGIN_NODE) + name + [0])
  }

  /** fdt_end_node. */
  ghost function EndN(b: seq<byte>): (r: Res)
    requires SwBuf(b)
    ensures |r.blob| == |b|
  {
    if SwProbeStruct(b) != 0 then Res(SwProbeStruct(b), b) else Emit(b, 4, Be32(FDT_END_NODE))
  }

  /** The condition under which the room test of fdt_add_string_ does not wrap. */
  ghost predicate NameFits(b: seq<byte>, s: seq<byte>)
    requires |b| >= 40
  {
    SizeStrings(b) + |s| + 1 <= TotalSize(b)
  }

  /** The room test of fdt_add_string_, in unsigned 32-bit arithmetic. */
  function RoomTest(total: int, strsize: int, len: int, top: int): bool { !(U32(total - U32(strsize + len)) < top) }

  /** The room test is right iff the strings alone would fit in the buffer: a longer name
      makes the subtraction wrap, and the test then accepts although there is no room. */
  lemma {:induction false} RoomTestExact(total: int, strsize: int, len: int, top: int)
    requires 0 <= strsize && 0 < len && 0 <= top && top + strsize <= total < 0x8000_0000 &&
             strsize + len < 0x1_0000_0000
    ensures (RoomTest(total, strsize, len, top) <==> top + strsize + len <= total) <==> strsize + len <= total
    ensures strsize + len > total ==> RoomTest(total, strsize, len, top)
  {
    U32Small(strsize + len);
    U32Small(total - (strsize + len));
  }

  /** fdt_add_string_: 0 without room, otherwise the negative offset of the string. */
  ghost function AddString(b: seq<byte>, s: seq<byte>): (r: Res)
    requires Unfinished(b) && NameFits(b, s)
    ensures |r.blob| == |b| && (r.code == 0 ==> r.blob == b)
    ensures r.code == 0 <==> OffStruct(b) + SizeStruct(b) + SizeStrings(b) + |s| + 1 > TotalSize(b)
  {
    var offset := SizeStrings(b) + |s| + 1;
    RoomTestExact(TotalSize(b), SizeStrings(b), |s| + 1, OffStruct(b) + SizeStruct(b));
    if !RoomTest(TotalSize(b), SizeStrings(b), |s| + 1, OffStruct(b) + SizeStruct(b)) then Res(0, b)
    else Res(-offset, Set(Put(b, TotalSize(b) - offset, s + [0]), AT_SIZE_STRINGS, offset))
  }

  /** fdt_add_string_ on any name: no room is found, or the string is written, or its place is in
      front of the buffer. */
  datatype Added = NoRoom | At(offset: int, blob: seq<byte>) | Outside(offset: int)

  ghost function AddAnyString(b: seq<byte>, s: seq<byte>): Added
    requires Unfinished(b)
  {
    var offset := SizeStrings(b) + |s| + 1;
    if !RoomTest(TotalSize(b), SizeStrings(b), |s| + 1, OffStruct(b) + SizeStruct(b)) then NoRoom
    else if offset > TotalSize(b) then Outside(-offset)
    else At(-offset, Set(Put(b, TotalSize(b) - offset, s + [0]), AT_SIZE_STRINGS, offset))
  }

  /** It goes outside iff the strings and the name alone are larger than the buffer; otherwise it
      does what AddString says. */
  lemma {:induction false} AddStringExact(b: seq<byte>, s: seq<byte>)
    requires Unfinished(b) && |s| < 0x7fff_fff0
    ensures AddAnyString(b, s).Outside? <==> !NameFits(b, s)
    ensures NameFits(b, s) ==>
              AddAnyString(b, s) ==
              (if AddString(b, s).code == 0 then NoRoom else At(AddString(b, s).code, AddString(b, s).blob))
  {
    RoomTestExact(TotalSize(b), SizeStrings(b), |s| + 1, OffStruct(b) + SizeStruct(b));
  }

  /** fdt_find_add_string_, or fdt_add_string_ when the writer was created without
      de-duplication of names; also whether a string was allocated. */
  ghost function NameOffset(b: seq<byte>, s: seq<byte>): (r: (Res, bool))
    requires Unfinished(b) && NameFits(b, s)
    ensures |r.0.blob| == |b|
  {
    var i := FindString(Table(b), s, 0);
    if LastComp(b) % 2 == 0 && i >= 0 then (Res(i - SizeStrings(b), b), false) else (AddString(b, s), true)
  }

  ghost function PropertyBody(b: seq<byte>, name: seq<byte>, val: seq<byte>): (r: Res)
    requires SwBuf(b) && (SwProbeStruct(b) == 0 ==> NameFits(b, name))
    ensures |r.blob| == |b|
  {
    if SwProbeStruct(b) != 0 then Res(SwProbeStruct(b), b)
    else
      var (f, added) := NameOffset(b, name);
      NameOffsetKeeps(b, name);
      if f.code == 0 then Res(NOSPACE, f.blob)
      else
        var r := Emit(f.blob, PropSize(|val|), Be32(FDT_PROP) + Be32(|val|) + Be32(U32(f.code)) + val);
        if r.code != 0 && added then Res(r.code, Set(r.blob, AT_SIZE_STRINGS, SizeStrings(r.blob) - (|name| + 1)))
          else r
  }

  ghost predicate IsProperty(b: seq<byte>, name: seq<byte>, val: seq<byte>, r: Res)
    requires SwBuf(b) && (SwProbeStruct(b) == 0 ==> NameFits(b, name))
  {
    |r.blob| == |b| && forall z :: Unseal(z) ==> r == PropertyBody(b, name, val)
  }

  /** fdt_property; sealed. */
  ghost function WriteProp(b: seq<byte>, name: seq<byte>, val: seq<byte>): (r: Res)
    requires SwBuf(b) && (SwProbeStruct(b) == 0 ==> NameFits(b, name))
    ensures |r.blob| == |b|
  {
    assert IsProperty(b, name, val, PropertyBody(b, name, val));
    var r :| IsProperty(b, name, val, r);
    r
  }

  lemma {:induction false} PropertyDef(b: seq<byte>, name: seq<byte>, val: seq<byte>)
    requires SwBuf(b) && (SwProbeStruct(b) == 0 ==> NameFits(b, name))
    ensures WriteProp(b, name, val) == PropertyBody(b, name, val)
  {
    assert Unseal(0);
  }

  // ---- what the calls leave of an unfinished blob ----

  /** Bytes still free between structure and strings. */
  ghost function Free(b: seq<byte>): int
    requires |b| >= 40
  {
    TotalSize(b) - OffStruct(b) - SizeStruct(b) - SizeStrings(b)
  }

  /** Same header, same blocks. */
  ghost predicate Alike(b: seq<byte>, b': seq<byte>) {
    Unfinished(b) && Unfinished(b') && HeaderOf(b') == HeaderOf(b) && Struct(b') == Struct(b) &&
      Table(b') == Table(b) &&
    Reserved(b') == Reserved(b)
  }

  /** The structure block has grown by len bytes that begin with x; nothing else has changed. */
  ghost predicate Emitted(b: seq<byte>, b': seq<byte>, len: int, x: seq<byte>) {
    Unfinished(b) && Unfinished(b') && HeaderOf(b') == HeaderOf(b).(sizeStruct := SizeStruct(b) + len) &&
    Table(b') == Table(b) && Reserved(b') == Reserved(b) && 0 <= |x| <= len &&
    Same(Struct(b), 0, Struct(b'), 0, SizeStruct(b)) && Struct(b')[SizeStruct(b)..SizeStruct(b) + |x|] == x
  }

  lemma {:induction false} EmitIs(b: seq<byte>, len: nat, x: seq<byte>)
    requires Unfinished(b) && |x| <= len
    ensures var r := Emit(b, len, x);
            if len <= Free(b) then r.code == 0 && Emitted(b, r.blob, len, x) else r == Res(NOSPACE, b)
  {
    if len <= Free(b) {
      SetHeader(b, AT_SIZE_STRUCT, SizeStruct(b) + len);
      EmitWrites(b, Set(b, AT_SIZE_STRUCT, SizeStruct(b) + len), len, x);
    }
  }

  lemma {:induction false} EmitWrites(b: seq<byte>, b1: seq<byte>, len: nat, x: seq<byte>)
    requires Unfinished(b) && |x| <= len <= Free(b) && |b1| == |b| &&
             HeaderOf(b1) == HeaderOf(b).(sizeStruct := SizeStruct(b) + len)
    requires forall lo, hi | 40 <= lo <= hi <= |b| :: b1[lo..hi] == b[lo..hi]
    ensures Emitted(b, Put(b1, OffStruct(b) + SizeStruct(b), x), len, x)
  {
    var o := OffStruct(b) + SizeStruct(b);
    var b2 := Put(b1, o, x);
    PutSlice(b1, o, x, 0, 40);
    HeaderKept(b1, b2);
    assert Unfinished(b2);
    PutSlice(b1, o, x, TotalSize(b) - SizeStrings(b), TotalSize(b));
    assert Table(b2) == Table(b) by { TableDef(b); TableDef(b2); }
    PutSlice(b1, o, x, 48, OffStruct(b));
    assert Reserved(b2) == Reserved(b) by { ReservedDef(b); ReservedDef(b2); }
    PutSlice(b1, o, x, OffStruct(b), o);
    PutInside(b1, o, x);
    EmitStruct(b, b2, len, x);
  }

  lemma {:induction false} EmitStruct(b: seq<byte>, b2: seq<byte>, len: nat, x: seq<byte>)
    requires Unfinished(b) && Unfinished(b2) && |b2| == |b| &&
             HeaderOf(b2) == HeaderOf(b).(sizeStruct := SizeStruct(b) + len) && |x| <= len
    requires var o := OffStruct(b) + SizeStruct(b); b2[OffStruct(b)..o] == b[OffStruct(b)..o] && b2[o..o + |x|] == x
    ensures Same(Struct(b), 0, Struct(b2), 0, SizeStruct(b)) && Struct(b2)[SizeStruct(b)..SizeStruct(b) + |x|] == x
  {
    StructDef(b);
    StructDef(b2);
    SliceSlice(b2, OffStruct(b), OffStruct(b) + SizeStruct(b) + len, SizeStruct(b), SizeStruct(b) + |x|);
    SliceSlice(b2, OffStruct(b), OffStruct(b) + SizeStruct(b) + len, 0, SizeStruct(b));
    SameDef(Struct(b), 0, Struct(b2), 0, SizeStruct(b));
  }

  /** A string has been added in front of the others. */
  ghost predicate StringAdded(b: seq<byte>, b': seq<byte>, more: seq<byte>) {
    Unfinished(b) && Unfinished(b') && HeaderOf(b') == HeaderOf(b).(sizeStrings := SizeStrings(b) + |more|) &&
    Table(b') == more + Table(b) && Reserved(b') == Reserved(b) && Struct(b') == Struct(b)
  }

  lemma {:induction false} StringWritten(b: seq<byte>, more: seq<byte>)
    requires Unfinished(b) && |more| <= Free(b)
    ensures var o := SizeStrings(b) + |more|;
            StringAdded(b, Set(Put(b, TotalSize(b) - o, more), AT_SIZE_STRINGS, o), more)
  {
    var o := SizeStrings(b) + |more|;
    var p := TotalSize(b) - o;
    var b1 := Put(b, p, more);
    PutSlice(b, p, more, 0, 40);
    HeaderKept(b, b1);
    SetHeader(b1, AT_SIZE_STRINGS, o);
    var b2 := Set(b1, AT_SIZE_STRINGS, o);
    assert Unfinished(b2);
    PutSlice(b, p, more, 48, OffStruct(b));
    PutSlice(b, p, more, OffStruct(b), OffStruct(b) + SizeStruct(b));
    assert Reserved(b2) == Reserved(b) by { ReservedDef(b); ReservedDef(b2); }
    assert Struct(b2) == Struct(b) by { StructDef(b); StructDef(b2); }
    PutInside(b, p, more);
    PutSlice(b, p, more, p + |more|, TotalSize(b));
    TablePrepended(b, b2, more, p);
  }

  lemma {:induction false} TablePrepended(b: seq<byte>, b2: seq<byte>, more: seq<byte>, p: int)
    requires Unfinished(b) && Unfinished(b2) && |b2| == |b| &&
             HeaderOf(b2) == HeaderOf(b).(sizeStrings := SizeStrings(b) + |more|)
    requires p == TotalSize(b) - SizeStrings(b) - |more| && 40 <= p && b2[p..p + |more|] == more
    requires b2[p + |more|..TotalSize(b)] == b[p + |more|..TotalSize(b)]
    ensures Table(b2) == more + Table(b)
  {
    TableDef(b);
    TableDef(b2);
    assert b2[p..TotalSize(b)] == b2[p..p + |more|] + b2[p + |more|..TotalSize(b)];
  }

  /** The string allocated last is dropped: header and blocks are as before it. */
  lemma {:induction false} StringDropped(b: seq<byte>, b1: seq<byte>, more: seq<byte>)
    requires StringAdded(b, b1, more)
    ensures Alike(b, Set(b1, AT_SIZE_STRINGS, SizeStrings(b1) - |more|))
  {
    SetHeader(b1, AT_SIZE_STRINGS, SizeStrings(b));
    var b2 := Set(b1, AT_SIZE_STRINGS, SizeStrings(b));
    assert HeaderOf(b2) == HeaderOf(b);
    assert Unfinished(b2);
    assert Reserved(b2) == Reserved(b1) by { ReservedDef(b1); ReservedDef(b2); }
    assert Struct(b2) == Struct(b1) by { StructDef(b1); StructDef(b2); }
    TableDef(b1);
    TableDef(b2);
    SliceSlice(b1, TotalSize(b) - SizeStrings(b1), TotalSize(b), |more|, SizeStrings(b1));
    assert (more + Table(b))[|more|..SizeStrings(b1)] == Table(b);
  }

  lemma {:induction false} NameOffsetKeeps(b: seq<byte>, s: seq<byte>)
    requires Unfinished(b) && NameFits(b, s)
    ensures var (f, added) := NameOffset(b, s);
            if f.code == 0 then f.blob == b && added
            else if added then StringAdded(b, f.blob, s + [0]) && f.code == -(SizeStrings(b) + |s| + 1)
            else f.blob == b && f.code < 0
    ensures Unfinished(NameOffset(b, s).0.blob)
  {
    var (f, added) := NameOffset(b, s);
    if added && f.code != 0 {
      StringWritten(b, s + [0]);
    }
  }
}
