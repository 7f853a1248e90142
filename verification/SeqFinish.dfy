/** fdt_sw.c: fdt_finish closes the structure block, moves the strings down behind it and
    turns the negative name offsets into offsets of the strings block. */
module SeqFinish {
  import opened Bytes
  import opened Syntax
  import opened DeviceTree
  import opened Fdt
  import opened Walk
  import opened Blob
  import opened Splice
  import opened Stream
  import opened SeqWrite

  /** The structure block of b is what the calls es wrote, as the tokens ks. */
  ghost predicate Written(b: seq<byte>, ks: seq<Tok>, es: seq<Event>) {
    Unfinished(b) && OffStrings(b) == TotalSize(b) && Spelt(Struct(b), ks) &&
    Transcribes(ks, es, Table(b), 0x1_0000_0000 - SizeStrings(b))
  }

  // ---- the loop that corrects the name offsets ----

  ghost predicate Relocatable(b: seq<byte>) { Framed(b) && OffStruct(b) >= 48 }

  /** Same header, same bytes outside the structure block. */
  ghost predicate Around(b: seq<byte>, b': seq<byte>) {
    Relocatable(b) && Relocatable(b') && |b'| == |b| && HeaderOf(b') == HeaderOf(b) &&
    b'[..OffStruct(b)] == b[..OffStruct(b)] && b'[OffStruct(b) + SizeStruct(b)..] == b[OffStruct(b) + SizeStruct(b)..]
  }

  lemma {:induction false} PutAround(b: seq<byte>, off: int, x: seq<byte>)
    requires Relocatable(b) && 0 <= off && off + |x| <= SizeStruct(b)
    ensures var b' := Put(b, OffStruct(b) + off, x); Around(b, b') && Struct(b') == Put(Struct(b), off, x)
  {
    var b' := Put(b, OffStruct(b) + off, x);
    PutSlice(b, OffStruct(b) + off, x, 0, 40);
    HeaderKept(b, b');
    PutSlice(b, OffStruct(b) + off, x, 0, OffStruct(b));
    PutSlice(b, OffStruct(b) + off, x, OffStruct(b) + SizeStruct(b), |b|);
    assert b'[..OffStruct(b)] == b'[0..OffStruct(b)] && b[..OffStruct(b)] == b[0..OffStruct(b)];
    PutWithin(b, OffStruct(b) + off, x, OffStruct(b), OffStruct(b) + SizeStruct(b));
    StructDef(b);
    StructDef(b');
  }

  /** The loop of fdt_finish from offset off: the buffer and the last *nextoffset. */
  ghost function RelocateLoop(b: seq<byte>, off: int): (r: Res)
    requires Relocatable(b) && off < 0x8000_0000
    ensures |r.blob| == |b|
    decreases 0x8000_0000 - off
  {
    NextTagBound(b, off);
    var (tag, next) := NextTag(b, off);
    if tag == FDT_END then Res(next, b)
    else if next <= off then Res(DIVERGES, b)
    else if tag != FDT_PROP then RelocateLoop(b, next)
    else if off < 0 || off + 12 > SizeStruct(b) then Res(STRAYS, b)
    else
      PutAround(b, off + 8, Be32(U32(Ld32(b, OffStruct(b) + off + 8) + SizeStrings(b))));
      RelocateLoop(Correct(b, off), next)
  }

  /** The name offset of the property at off, corrected. */
  ghost function Correct(b: seq<byte>, off: int): (r: seq<byte>)
    requires Relocatable(b) && 0 <= off && off + 12 <= SizeStruct(b)
    ensures |r| == |b|
  {
    Put(b, OffStruct(b) + off + 8, Be32(U32(Ld32(b, OffStruct(b) + off + 8) + SizeStrings(b))))
  }

  function Fix(k: Tok, n: int): Tok { if k.Prop? then Prop(U32(k.nameoff + n), k.val) else k }

  /** The tokens with the first i name offsets corrected. */
  function FixFirst(ks: seq<Tok>, n: int, i: nat): (r: seq<Tok>)
    ensures |r| == |ks|
  {
    seq(|ks|, j requires 0 <= j < |ks| => if j < i then Fix(ks[j], n) else ks[j])
  }

  lemma {:induction false} FixStep(ks: seq<Tok>, n: int, i: nat)
    requires i < |ks|
    ensures FixFirst(ks, n, i + 1) == FixFirst(ks, n, i)[i := Fix(ks[i], n)] && FixFirst(ks, n, i)[i] == ks[i]
  {
  }

  lemma {:induction false} PropRelocated(s: seq<byte>, o: int, k: Tok, v: int)
    requires k.Prop? && TokAt(s, o) == k && 0 <= v < 0x1_0000_0000
    ensures 0 <= o && o + TokSize(k) <= |s|
    ensures var s' := Put(s, o + 8, Be32(v));
            TokAt(s', o) == Prop(v, k.val) && Same(s, 0, s', 0, o) &&
              Same(s, o + TokSize(k), s', o + TokSize(k), |s| - o - TokSize(k))
  {
    TokIs(s, o, k);
    var s' := Put(s, o + 8, Be32(v));
    LdPutOther(s, o + 8, Be32(v), o);
    LdPutOther(s, o + 8, Be32(v), o + 4);
    LdPutSame(s, o + 8, v);
    PutSlice(s, o + 8, Be32(v), o + 12, o + 12 + |k.val|);
    TokIs(s', o, Prop(v, k.val));
    PutSlice(s, o + 8, Be32(v), 0, o);
    SameDef(s, 0, s', 0, o);
    PutSlice(s, o + 8, Be32(v), o + TokSize(k), |s|);
    SameDef(s, o + TokSize(k), s', o + TokSize(k), |s| - o - TokSize(k));
  }

  /** The buffer after one turn of the loop at the token k at o. */
  ghost function Turned(b: seq<byte>, k: Tok, o: int): seq<byte>
    requires Relocatable(b)
  {
    if k.Prop? && 0 <= o && o + 12 <= SizeStruct(b) then Correct(b, o) else b
  }

  lemma {:induction false} RelocateOne(b: seq<byte>, ks: seq<Tok>, i: nat, o: int)
    requires Relocatable(b) && i < |ks| && Spelt(Struct(b), ks) && !ks[i].End? && o == Off(ks, i)
    ensures var b' := Turned(b, ks[i], o);
            Around(b, b') && Spelt(Struct(b'), ks[i := Fix(ks[i], SizeStrings(b))]) && Off(ks, i + 1) < 0x8000_0000 &&
            o < 0x8000_0000 && RelocateLoop(b, o) == RelocateLoop(b', Off(ks, i + 1))
  {
    var k := ks[i];
    SpeltAt(Struct(b), ks, i);
    OffAligned(ks, i);
    OnStep(b, o, k);
    if k.Prop? {
      TokIs(Struct(b), o, k);
      LdStruct(b, o + 8);
      var v := U32(k.nameoff + SizeStrings(b));
      PutAround(b, o + 8, Be32(v));
      PropRelocated(Struct(b), o, k, v);
      SpeltUpdate(Struct(b), Struct(Correct(b, o)), ks, i, Prop(v, k.val), o);
    } else {
      assert ks[i := k] == ks;
    }
  }

  /** The loop corrects every name offset once and ends at the end of the block. */
  lemma {:induction false} RelocateAll(b: seq<byte>, ks: seq<Tok>, n: int, i: nat)
    requires Relocatable(b) && i < |ks| && n == SizeStrings(b) && Spelt(Struct(b), FixFirst(ks, n, i))
    requires ks[|ks| - 1] == End && forall j | 0 <= j < |ks| - 1 :: !ks[j].End?
    ensures Off(FixFirst(ks, n, i), i) < 0x8000_0000
    ensures var r := RelocateLoop(b, Off(FixFirst(ks, n, i), i));
            r.code == SizeStruct(b) && Around(b, r.blob) && Spelt(Struct(r.blob), FixFirst(ks, n, |ks|))
    decreases |ks| - i
  {
    var ls := FixFirst(ks, n, i);
    FixStep(ks, n, i);
    if i == |ks| - 1 {
      SpeltAt(Struct(b), ls, i);
      OffAligned(ls, i);
      OnStep(b, Off(ls, i), End);
      assert FixFirst(ks, n, |ks|) == ls;
    } else {
      RelocateOne(b, ls, i, Off(ls, i));
      var b' := Turned(b, ls[i], Off(ls, i));
      OffCongruent(ls, FixFirst(ks, n, i + 1), i + 1);
      RelocateAll(b', ks, n, i + 1);
    }
  }

  // ---- fdt_finish ----

  /** fdt_finish after the terminator has been written. */
  ghost function Relocate(b: seq<byte>): (r: Res)
    requires Unfinished(b)
    ensures |r.blob| == |b|
  {
    MovedDown(b);
    var r := RelocateLoop(StringsDown(b), 0);
    if r.code < 0 then r else Res(0, HeaderDone(r.blob, OffStruct(b) + SizeStruct(b)))
  }

  /** The strings moved down to the end of the structure block. */
  ghost function StringsDown(b: seq<byte>): (r: seq<byte>)
    requires Unfinished(b)
    ensures |r| == |b|
  {
    var top := OffStruct(b) + SizeStruct(b);
    Set(Move(b, top, TotalSize(b) - SizeStrings(b), SizeStrings(b)), AT_OFF_STRINGS, top)
  }

  /** The header fields that fdt_finish sets last. */
  ghost function HeaderDone(b: seq<byte>, top: int): (r: seq<byte>)
    requires |b| >= 40
    ensures |r| == |b|
  {
    Set(Set(Set(b, AT_TOTALSIZE, top + SizeStrings(b)), AT_LAST_COMP, 16), AT_MAGIC, FDT_MAGIC)
  }

  ghost function FinishBody(b: seq<byte>): (r: Res)
    requires SwBuf(b)
    ensures |r.blob| == |b|
  {
    if SwProbeStruct(b) != 0 then Res(SwProbeStruct(b), b)
    else
      var r := Emit(b, 4, Be32(FDT_END));
      EmitIs(b, 4, Be32(FDT_END));
      if r.code != 0 then r else Relocate(r.blob)
  }

  ghost predicate IsFinish(b: seq<byte>, r: Res)
    requires SwBuf(b)
  {
    |r.blob| == |b| && forall z :: Unseal(z) ==> r == FinishBody(b)
  }

  /** fdt_finish; sealed. */
  ghost function Finish(b: seq<byte>): (r: Res)
    requires SwBuf(b)
    ensures |r.blob| == |b|
  {
    assert IsFinish(b, FinishBody(b));
    var r :| IsFinish(b, r);
    r
  }

  lemma {:induction false} FinishDef(b: seq<byte>)
    requires SwBuf(b)
    ensures Finish(b) == FinishBody(b)
  {
    assert Unseal(0);
  }

  /** The strings now follow the structure block. */
  ghost predicate Down(b: seq<byte>, b2: seq<byte>) {
    Unfinished(b) && Relocatable(b2) && |b2| == |b| &&
      HeaderOf(b2) == HeaderOf(b).(offStrings := OffStruct(b) + SizeStruct(b)) &&
    Struct(b2) == Struct(b) && b2[48..OffStruct(b)] == b[48..OffStruct(b)] &&
    b2[OffStruct(b) + SizeStruct(b)..OffStruct(b) + SizeStruct(b) + SizeStrings(b)] == Table(b)
  }

  lemma {:induction false} MovedDown(b: seq<byte>)
    requires Unfinished(b)
    ensures Down(b, StringsDown(b))
  {
    var top := OffStruct(b) + SizeStruct(b);
    var src, n := TotalSize(b) - SizeStrings(b), SizeStrings(b);
    var b1 := Move(b, top, src, n);
    MoveKeeps(b, top, src, n, 0, 40);
    HeaderKept(b, b1);
    SetHeader(b1, AT_OFF_STRINGS, top);
    var b2 := Set(b1, AT_OFF_STRINGS, top);
    MoveKeeps(b, top, src, n, 48, OffStruct(b));
    MoveKeeps(b, top, src, n, OffStruct(b), top);
    MoveShifts(b, top, src, n, src, src + n);
    TableDef(b);
    StructDef(b);
    StructDef(b2);
  }

  /** A finished blob: laid out without gaps, with the reservation block rsv and the strings strs. */
  ghost predicate Packed(b: seq<byte>, rsv: seq<byte>, strs: seq<byte>) {
    Sane(b) && LastComp(b) == 16 && OffRsv(b) == 48 && OffStrings(b) == OffStruct(b) + SizeStruct(b) &&
      TotalSize(b) == DataSize(b) &&
    Rsv(b) == rsv && Strings(b) == strs
  }

  lemma {:induction false} HeaderFinished(b: seq<byte>, top: int)
    requires |b| >= 40 && HeaderOf(b).offStrings == top && 0 <= top + SizeStrings(b) < 0x1_0000_0000
    ensures var b3 := HeaderDone(b, top);
            HeaderOf(b3) == HeaderOf(b).(totalSize := top + SizeStrings(b), lastComp := 16, magic := FDT_MAGIC) &&
            forall lo, hi | 40 <= lo <= hi <= |b| :: b3[lo..hi] == b[lo..hi]
  {
    var b1 := Set(b, AT_TOTALSIZE, top + SizeStrings(b));
    var b2 := Set(b1, AT_LAST_COMP, 16);
    SetHeader(b, AT_TOTALSIZE, top + SizeStrings(b));
    SetHeader(b1, AT_LAST_COMP, 16);
    SetHeader(b2, AT_MAGIC, FDT_MAGIC);
  }

  lemma {:induction false} FinishedBlocks(b: seq<byte>, b2: seq<byte>, b3: seq<byte>, b4: seq<byte>)
    requires Unfinished(b) && 64 <= OffStruct(b) && Down(b, b2) && Around(b2, b3) && |b4| == |b|
    requires HeaderOf(b4) == HeaderOf(b2).(totalSize := OffStruct(b) + SizeStruct(b) + SizeStrings(b),
             lastComp := 16, magic := FDT_MAGIC)
    requires forall lo, hi | 40 <= lo <= hi <= |b| :: b4[lo..hi] == b3[lo..hi]
    ensures Packed(b4, Reserved(b), Table(b)) && Struct(b4) == Struct(b3)
  {
    assert Sane(b4);
    StructDef(b3);
    StructDef(b4);
    RsvDef(b4);
    StringsDef(b4);
    ReservedDef(b);
    var o, e, n := OffStruct(b), OffStruct(b) + SizeStruct(b), SizeStrings(b);
    SliceSlice(b3, 0, o, 48, o);
    SliceSlice(b2, 0, o, 48, o);
    assert b3[0..o] == b2[0..o];
    SliceSlice(b3, e, |b|, 0, n);
    SliceSlice(b2, e, |b|, 0, n);
    assert b3[e..|b|] == b2[e..|b|];
  }

  /** fdt_finish on a structure block of tokens, the last of them the terminator. */
  lemma {:induction false} RelocateIs(b: seq<byte>, ks: seq<Tok>)
    requires Unfinished(b) && 64 <= OffStruct(b) && Spelt(Struct(b), ks) && |ks| > 0
    requires ks[|ks| - 1] == End && forall j | 0 <= j < |ks| - 1 :: !ks[j].End?
    ensures var r := Relocate(b);
            r.code == 0 && Packed(r.blob, Reserved(b), Table(b)) &&
              Spelt(Struct(r.blob), FixFirst(ks, SizeStrings(b), |ks|))
  {
    var top := OffStruct(b) + SizeStruct(b);
    var b2 := StringsDown(b);
    MovedDown(b);
    assert FixFirst(ks, SizeStrings(b), 0) == ks;
    OffDef(ks, 0);
    RelocateAll(b2, ks, SizeStrings(b), 0);
    var b3 := RelocateLoop(b2, 0).blob;
    HeaderFinished(b3, top);
    FinishedBlocks(b, b2, b3, Relocate(b).blob);
  }

  /** Corrected tokens write the same calls, with name offsets from the start of the strings. */
  lemma {:induction false} FixTranscribes(ks: seq<Tok>, es: seq<Event>, strs: seq<byte>)
    requires Transcribes(ks, es, strs, 0x1_0000_0000 - |strs|) && |strs| < 0x8000_0000
    ensures Transcribes(FixFirst(ks, |strs|, |ks|), es, strs, 0)
  {
    var ls := FixFirst(ks, |strs|, |ks|);
    forall i | 0 <= i < |ls| ensures Writes(ls[i], es[i], strs, 0) {
      assert Writes(ks[i], es[i], strs, 0x1_0000_0000 - |strs|);
      if ks[i].Prop? {
        StrIs(strs, ks[i].nameoff - (0x1_0000_0000 - |strs|), es[i].name);
        U32Small(ks[i].nameoff + |strs|);
      }
    }
  }

  /** What fdt_finish leaves: a packed blob whose structure block consists of the tokens of
      the calls and FDT_END. */
  ghost predicate Complete(b: seq<byte>, rsv: seq<byte>, es: seq<Event>) {
    Sane(b) && Packed(b, rsv, Strings(b)) && exists ks ::
      Spelt(Struct(b), ks + [End]) &&
      Transcribes(ks, es, Strings(b), 0)
  }

  /** fdt_finish succeeds iff there is room for the terminator, and completes the blob. */
  lemma {:induction false} FinishIs(b: seq<byte>, ks: seq<Tok>, es: seq<Event>)
    requires Written(b, ks, es) && 64 <= OffStruct(b)
    ensures var r := Finish(b);
            if 4 <= Free(b) then r.code == 0 && Complete(r.blob, Reserved(b), es) else r == Res(NOSPACE, b)
  {
    FinishDef(b);
    EmitIs(b, 4, Be32(FDT_END));
    if 4 <= Free(b) {
      var b1 := Emit(b, 4, Be32(FDT_END)).blob;
      LdBe32(Struct(b1), SizeStruct(b), FDT_END);
      TokIs(Struct(b1), SizeStruct(b), End);
      SpeltAppend(Struct(b), Struct(b1), ks, End);
      NoEnds(ks, es, Table(b), 0x1_0000_0000 - SizeStrings(b));
      RelocateIs(b1, ks + [End]);
      FixTranscribes(ks, es, Table(b));
      FixEnd(ks, SizeStrings(b));
    }
  }

  lemma {:induction false} NoEnds(ks: seq<Tok>, es: seq<Event>, strs: seq<byte>, base: int)
    requires Transcribes(ks, es, strs, base)
    ensures forall j | 0 <= j < |ks| :: !ks[j].End?
  {
    forall j | 0 <= j < |ks| ensures !ks[j].End? {
      assert Writes(ks[j], es[j], strs, base);
    }
  }

  lemma {:induction false} FixEnd(ks: seq<Tok>, n: int)
    ensures FixFirst(ks + [End], n, |ks| + 1) == FixFirst(ks, n, |ks|) + [End]
  {
  }

  // ---- the finished blob ----

  /** fdt_check_header, without the test on the address of the buffer, for version 17. */
  ghost function CheckHeader(b: seq<byte>): int
    requires |b| >= 40 && Version(b) == 17
  {
    if Magic(b) != FDT_MAGIC then BADMAGIC
    else if Version(b) < 2 || LastComp(b) > 17 || Version(b) < LastComp(b) then BADVERSION
    else if TotalSize(b) < 40 || TotalSize(b) > 0x7fff_ffff || !CheckOff(b, OffRsv(b)) ||
            !CheckBlock(b, OffStruct(b), SizeStruct(b)) || !CheckBlock(b, OffStrings(b), SizeStrings(b)) then TRUNCATED
    else 0
  }

  ghost predicate CheckOff(b: seq<byte>, off: int) requires |b| >= 40 { 40 <= off <= TotalSize(b) }

  ghost predicate CheckBlock(b: seq<byte>, base: int, size: int)
    requires |b| >= 40
  {
    CheckOff(b, base) && !(U32(base + size) < base) && CheckOff(b, U32(base + size))
  }

  /** Every sane blob passes fdt_check_header. */
  lemma {:induction false} SaneChecks(b: seq<byte>)
    requires Sane(b)
    ensures CheckHeader(b) == 0
  {
    U32Small(OffStruct(b) + SizeStruct(b));
    U32Small(OffStrings(b) + SizeStrings(b));
  }

  /** A blob whose structure block holds items and FDT_END, in any order of properties and subnodes. */
  ghost predicate HoldsLoosely(b: seq<byte>, t: Items) {
    Sane(b) && Lies(Struct(b), 0, t) && TokAt(Struct(b), Size(t)) == End && Size(t) + 4 == SizeStruct(b) &&
      Named(t, Strings(b))
  }

  /** A finished blob passes fdt_check_header and holds exactly the trees that the calls
      describe; if they wrote properties before subnodes, it is a proper blob. */
  lemma {:induction false} CompleteHolds(b: seq<byte>, rsv: seq<byte>, es: seq<Event>, d: Desc)
    requires Complete(b, rsv, es) && es == Events(d)
    ensures CheckHeader(b) == 0
    ensures exists t ::
              HoldsLoosely(b, t) && Props(t, Strings(b)) == PropsOf(d) &&
              Forest(t, Strings(b)) == ForestOf(d) &&
              (OrderedDesc(d) ==> Holds(b, t))
  {
    SaneChecks(b);
    var ks :| Spelt(Struct(b), ks + [End]) && Transcribes(ks, es, Strings(b), 0);
    assert es == [] + Events(d) + [];
    EventsPart(es, [], d, []);
    BuildDenotes(ks, es, Strings(b), 0, d);
    var t := Build(ks, 0, d);
    BuildHolds(b, ks, es, d, t);
    if OrderedDesc(d) {
      ProperDef(t, Strings(b));
      HoldsDef(b, t);
    }
  }

  lemma {:induction false} BuildHolds(b: seq<byte>, ks: seq<Tok>, es: seq<Event>, d: Desc, t: Items)
    requires Sane(b) && Spelt(Struct(b), ks + [End]) && Transcribes(ks, es, Strings(b), 0) && Part(es, 0, d) &&
             Count(d) == |ks|
    requires t == Build(ks, 0, d) && Named(t, Strings(b))
    ensures HoldsLoosely(b, t)
  {
    StandsPrefix(Struct(b), ks);
    BuildLies(Struct(b), ks, es, Strings(b), 0, d);
    OffDef(ks, 0);
  }

  lemma {:induction false} StandsPrefix(s: seq<byte>, ks: seq<Tok>)
    requires Spelt(s, ks + [End])
    ensures Stands(s, ks) && TokAt(s, Off(ks, |ks|)) == End && Off(ks, |ks|) + 4 == |s|
  {
    var ls := ks + [End];
    forall i | 0 <= i < |ls| ensures TokAt(s, Off(ls, i)) == ls[i] {
      SpeltAt(s, ls, i);
    }
    forall i | 0 <= i <= |ks| ensures Off(ls, i) == Off(ks, i) {
      OffCongruent(ls, ks, i);
    }
    SpeltAt(s, ls, |ks|);
  }
}
