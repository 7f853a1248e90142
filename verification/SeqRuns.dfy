/** fdt_sw.c: every call keeps the writer in the state its calls so far describe, whatever
    fails and wherever the buffer is moved; so a finished blob holds the described trees. */
module SeqRuns {
  import opened Bytes
  import opened Syntax
  import opened DeviceTree
  import opened Fdt
  import opened Blob
  import opened Splice
  import opened Edit
  import opened Refine
  import opened RefineNodes
  import opened Stream
  import opened SeqWrite
  import opened SeqFinish

  // ---- fdt_resize ----

  /** fdt_resize of the blob of n bytes at `at` into the buffer of bufsize bytes at `to`,
      both anywhere in one memory. */
  ghost function Resize(m: seq<byte>, at: nat, n: nat, to: nat, bufsize: int): (r: Res)
    requires at + n <= |m| && SwBuf(m[at..at + n]) && to + bufsize <= |m| && bufsize <= 0x7fff_fff0
    ensures |r.blob| == |m|
  {
    var b := m[at..at + n];
    if SwProbe(b) != 0 then Res(SwProbe(b), m)
    else if bufsize < 0 then Res(NOSPACE, m)
    else
      var head, tail := OffStruct(b) + SizeStruct(b), SizeStrings(b);
      if head + tail > TotalSize(b) then Res(INTERNAL, m)
      else if head + tail > bufsize then Res(NOSPACE, m)
      else
        Res(0, FixHeader(Transfer(m, at, to, head, tail, at + TotalSize(b) - tail, to + bufsize - tail), to, bufsize))
  }

  /** The last lines of fdt_resize: the new size, and the strings offset unless it is 0. */
  ghost function FixHeader(m: seq<byte>, to: nat, bufsize: nat): (r: seq<byte>)
    requires to + bufsize <= |m| && 48 <= bufsize
    ensures |r| == |m|
  {
    var m2 := Put(m, to + AT_TOTALSIZE, Be32(bufsize));
    if Ld32(m2, to + AT_OFF_STRINGS) != 0 then Put(m2, to + AT_OFF_STRINGS, Be32(bufsize)) else m2
  }

  /** The two moves, in the order that does not overwrite what is still to be moved. */
  ghost function Transfer(m: seq<byte>, at: nat, to: nat, head: nat, tail: nat, oldtail: nat,
    newtail: nat): (r: seq<byte>)
    requires at + head <= |m| && to + head <= |m| && oldtail + tail <= |m| && newtail + tail <= |m|
    ensures |r| == |m|
  {
    if to <= at then Move(Move(m, to, at, head), newtail, oldtail, tail)
    else Move(Move(m, newtail, oldtail, tail), to, at, head)
  }

  /** However old and new buffer overlap, head and tail arrive unchanged. */
  lemma {:induction false} TransferSafe(m: seq<byte>, at: nat, to: nat, head: nat, tail: nat, oldtail: nat,
    newtail: nat)
    requires at + head <= oldtail && oldtail + tail <= |m| && to + head <= newtail && newtail + tail <= |m|
    ensures var r := Transfer(m, at, to, head, tail, oldtail, newtail);
            r[to..to + head] == m[at..at + head] && r[newtail..newtail + tail] == m[oldtail..oldtail + tail]
  {
    if to <= at {
      var m1 := Move(m, to, at, head);
      MoveShifts(m, to, at, head, at, at + head);
      MoveKeeps(m, to, at, head, oldtail, oldtail + tail);
      MoveShifts(m1, newtail, oldtail, tail, oldtail, oldtail + tail);
      MoveKeeps(m1, newtail, oldtail, tail, to, to + head);
    } else {
      var m1 := Move(m, newtail, oldtail, tail);
      MoveShifts(m, newtail, oldtail, tail, oldtail, oldtail + tail);
      MoveKeeps(m, newtail, oldtail, tail, at, at + head);
      MoveShifts(m1, to, at, head, at, at + head);
      MoveKeeps(m1, to, at, head, newtail, newtail + tail);
    }
  }

  /** The same writer state in a buffer of another size. */
  ghost predicate Resized(b: seq<byte>, b': seq<byte>) {
    Unfinished(b) && Unfinished(b') && Struct(b') == Struct(b) && Table(b') == Table(b) &&
      Reserved(b') == Reserved(b) &&
    HeaderOf(b') == HeaderOf(b).(totalSize := |b'|, offStrings := if OffStrings(b) == 0 then 0 else |b'|)
  }

  /** Head and tail in a new buffer, with the old header. */
  lemma {:induction false} Transferred(b: seq<byte>, c: seq<byte>, head: nat, tail: nat)
    requires Unfinished(b) && head == OffStruct(b) + SizeStruct(b) && tail == SizeStrings(b) &&
             head + tail <= |c| <= 0x7fff_fff0
    requires c[..head] == b[..head] && c[|c| - tail..] == b[|b| - tail..]
    ensures var c1 := Set(c, AT_TOTALSIZE, |c|);
            HeaderOf(c1) == HeaderOf(b).(totalSize := |c|) &&
            Resized(b, if OffStrings(c1) != 0 then Set(c1, AT_OFF_STRINGS, |c|) else c1)
  {
    SliceSlice(c, 0, head, 0, 40);
    SliceSlice(b, 0, head, 0, 40);
    assert c[0..head] == b[0..head];
    HeaderKept(b, c);
    SetHeader(c, AT_TOTALSIZE, |c|);
    var c1 := Set(c, AT_TOTALSIZE, |c|);
    SetHeader(c1, AT_OFF_STRINGS, |c|);
    var c2 := if OffStrings(c1) != 0 then Set(c1, AT_OFF_STRINGS, |c|) else c1;
    SameBlocks(b, c, c2, head, tail);
  }

  lemma {:induction false} SameBlocks(b: seq<byte>, c: seq<byte>, c2: seq<byte>, head: nat, tail: nat)
    requires Unfinished(b) && head == OffStruct(b) + SizeStruct(b) && tail == SizeStrings(b) &&
             head + tail <= |c| <= 0x7fff_fff0
    requires c[0..head] == b[0..head] && c[|c| - tail..] == b[|b| - tail..] && |c2| == |c|
    requires HeaderOf(c2) == HeaderOf(b).(totalSize := |c|, offStrings := if OffStrings(b) == 0 then 0 else |c|)
    requires forall lo, hi | 40 <= lo <= hi <= |c| :: c2[lo..hi] == c[lo..hi]
    ensures Resized(b, c2)
  {
    assert Unfinished(c2);
    SliceSlice(c, 0, head, 48, OffStruct(b));
    SliceSlice(b, 0, head, 48, OffStruct(b));
    ReservedDef(b);
    ReservedDef(c2);
    SliceSlice(c, 0, head, OffStruct(b), head);
    SliceSlice(b, 0, head, OffStruct(b), head);
    StructDef(b);
    StructDef(c2);
    TableDef(b);
    TableDef(c2);
    assert c[|c| - tail..] == c[|c| - tail..|c|] && b[|b| - tail..] == b[|b| - tail..|b|];
  }

  lemma {:induction false} PutView(m: seq<byte>, lo: nat, hi: nat, o: int, x: seq<byte>)
    requires lo <= hi <= |m| && lo <= o && o + |x| <= hi
    ensures Put(m, o, x)[lo..hi] == Put(m[lo..hi], o - lo, x)
  {
    PutWithin(m, o, x, lo, hi);
  }

  lemma {:induction false} LdView(m: seq<byte>, lo: nat, hi: nat, o: int)
    requires lo <= hi <= |m| && 0 <= o && o + 4 <= hi - lo
    ensures Ld32(m, lo + o) == Ld32(m[lo..hi], o)
  {
    SliceSlice(m, lo, hi, o, o + 4);
    SameDef(m, lo + o, m[lo..hi], o, 4);
    LdSame(m, lo + o, m[lo..hi], o);
  }

  /** fdt_resize succeeds iff the content fits, and then the new buffer holds the same
      writer state: the same entries, the same structure, and the same strings at the
      same negative offsets. */
  lemma {:induction false} ResizeIs(m: seq<byte>, at: nat, n: nat, to: nat, bufsize: int)
    requires at + n <= |m| && Unfinished(m[at..at + n]) && to + bufsize <= |m| && bufsize <= 0x7fff_fff0
    ensures var b := m[at..at + n];
            var r := Resize(m, at, n, to, bufsize);
            if OffStruct(b) + SizeStruct(b) + SizeStrings(b) <= bufsize then
              r.code == 0 && Resized(b, r.blob[to..to + bufsize])
            else r == Res(NOSPACE, m)
  {
    var b := m[at..at + n];
    if OffStruct(b) + SizeStruct(b) + SizeStrings(b) <= bufsize {
      ResizeFits(m, at, n, to, bufsize, b, OffStruct(b) + SizeStruct(b), SizeStrings(b));
    }
  }

  lemma {:induction false} ResizeFits(m: seq<byte>, at: nat, n: nat, to: nat, bufsize: nat, b: seq<byte>, head: nat,
    tail: nat)
    requires at + n <= |m| && b == m[at..at + n] && Unfinished(b) && to + bufsize <= |m| && bufsize <= 0x7fff_fff0
    requires head == OffStruct(b) + SizeStruct(b) && tail == SizeStrings(b) && head + tail <= bufsize &&
             48 <= head && head + tail <= n
    ensures var m1 := Transfer(m, at, to, head, tail, at + n - tail, to + bufsize - tail);
            Resized(b, FixHeader(m1, to, bufsize)[to..to + bufsize])
  {
    var m1 := Transfer(m, at, to, head, tail, at + n - tail, to + bufsize - tail);
    TransferView(m, m1, at, n, to, bufsize, head, tail);
    Transferred(b, m1[to..to + bufsize], head, tail);
    HeaderView(m1, to, bufsize);
  }

  /** The moves, seen from the two buffers. */
  lemma {:induction false} TransferView(m: seq<byte>, m1: seq<byte>, at: nat, n: nat, to: nat, bufsize: nat,
    head: nat, tail: nat)
    requires at + n <= |m| && to + bufsize <= |m| && head + tail <= bufsize && head + tail <= n
    requires m1 == Transfer(m, at, to, head, tail, at + n - tail, to + bufsize - tail)
    ensures var b, c := m[at..at + n], m1[to..to + bufsize];
              c[..head] == b[..head] &&
              c[|c| - tail..] == b[|b| - tail..]
  {
    TransferSafe(m, at, to, head, tail, at + n - tail, to + bufsize - tail);
    SameView(m, at, n, m1, to, bufsize, head, tail);
  }

  lemma {:induction false} SameView(m: seq<byte>, at: nat, n: nat, m1: seq<byte>, to: nat, n1: nat, head: nat,
    tail: nat)
    requires at + n <= |m| && to + n1 <= |m1| && head + tail <= n && head + tail <= n1
    requires m1[to..to + head] == m[at..at + head] &&
             m1[to + n1 - tail..to + n1 - tail + tail] == m[at + n - tail..at + n - tail + tail]
    ensures var b, c := m[at..at + n], m1[to..to + n1]; c[..head] == b[..head] && c[|c| - tail..] == b[|b| - tail..]
  {
    SliceSlice(m, at, at + n, 0, head);
    SliceSlice(m, at, at + n, n - tail, n);
    SliceSlice(m1, to, to + n1, 0, head);
    SliceSlice(m1, to, to + n1, n1 - tail, n1);
  }

  /** The header fix-up of fdt_resize, seen from the new buffer. */
  lemma {:induction false} HeaderView(m1: seq<byte>, to: nat, bufsize: nat)
    requires to + bufsize <= |m1| && 48 <= bufsize
    ensures var c := m1[to..to + bufsize];
            var c1 := Set(c, AT_TOTALSIZE, bufsize);
            FixHeader(m1, to, bufsize)[to..to + bufsize] == if OffStrings(c1) != 0 then
              Set(c1, AT_OFF_STRINGS, bufsize) else c1
  {
    var m2 := Put(m1, to + AT_TOTALSIZE, Be32(bufsize));
    PutView(m1, to, to + bufsize, to + AT_TOTALSIZE, Be32(bufsize));
    LdView(m2, to, to + bufsize, AT_OFF_STRINGS);
    PutView(m2, to, to + bufsize, to + AT_OFF_STRINGS, Be32(bufsize));
  }

  // ---- the states of the writer ----

  /** rsv: the reservation entries added so far; es: the structure calls so far. */
  datatype Writer =
    | Reserving(rsv: seq<byte>)
    | Structuring(rsv: seq<byte>, es: seq<Event>)
    | Finished(rsv: seq<byte>, es: seq<Event>)

  ghost predicate InState(b: seq<byte>, w: Writer) {
    match w
    case Reserving(rsv) =>
      Unfinished(b) && OffStrings(b) == 0 && SizeStruct(b) == 0 && SizeStrings(b) == 0 && Reserved(b) == rsv
    case Structuring(rsv, es) =>
      Unfinished(b) && 64 <= OffStruct(b) && Reserved(b) == rsv && exists ks :: Written(b, ks, es)
    case Finished(rsv, es) => Complete(b, rsv, es)
  }

  /** The probes see the phase the writer is in. */
  lemma {:induction false} PhaseSeen(b: seq<byte>, w: Writer)
    requires InState(b, w)
    ensures SwBuf(b) && (SwProbeMemrsv(b) == if w.Reserving? then 0 else BADSTATE)
    ensures SwProbeStruct(b) == (if w.Structuring? then 0 else BADSTATE) && (SwProbe(b) == 0 <==> !w.Finished?)
    ensures !w.Finished? ==> OffStruct(b) + SizeStruct(b) + SizeStrings(b) <= TotalSize(b)
  {
  }

  lemma {:induction false} CreateIs(buf: seq<byte>, flags: int)
    requires |buf| <= 0x7fff_fff0 && 0 <= flags < 0x1_0000_0000
    ensures var r := Create(buf, flags);
            if |buf| < 48 then r == Res(NOSPACE, buf) else if flags > 1 then r == Res(BADFLAGS, buf)
            else r.code == 0 && InState(r.blob, Reserving([]))
  {
    if 48 <= |buf| && flags <= 1 {
      var b0: seq<byte> := Zeros(|buf|);
      var b1 := Set(b0, AT_MAGIC, FDT_SW_MAGIC);
      var b2 := Set(b1, AT_VERSION, 17);
      var b3 := Set(b2, AT_LAST_COMP, flags);
      var b4 := Set(b3, AT_TOTALSIZE, |buf|);
      var b5 := Set(b4, AT_OFF_RSV, 48);
      var b6 := Set(b5, AT_OFF_STRUCT, 48);
      SetHeader(b0, AT_MAGIC, FDT_SW_MAGIC);
      SetHeader(b1, AT_VERSION, 17);
      SetHeader(b2, AT_LAST_COMP, flags);
      SetHeader(b3, AT_TOTALSIZE, |buf|);
      SetHeader(b4, AT_OFF_RSV, 48);
      SetHeader(b5, AT_OFF_STRUCT, 48);
      SetHeader(b6, AT_OFF_STRINGS, 0);
      LdDef(b0, 32);
      LdDef(b0, 36);
    }
  }

  lemma {:induction false} AddReserveIs(b: seq<byte>, rsv: seq<byte>, addr: int, size: int)
    requires InState(b, Reserving(rsv))
    ensures var r := AddReserve(b, addr, size);
            if 16 <= Free(b) then r.code == 0 && InState(r.blob, Reserving(rsv + Entry(addr, size)))
            else r == Res(NOSPACE, b)
  {
    if 16 <= Free(b) {
      var o, x := OffStruct(b), Entry(addr, size);
      var b1 := Put(b, o, x);
      PutSlice(b, o, x, 0, 40);
      HeaderKept(b, b1);
      SetHeader(b1, AT_OFF_STRUCT, o + 16);
      var b2 := Set(b1, AT_OFF_STRUCT, o + 16);
      PutSlice(b, o, x, 48, o);
      PutInside(b, o, x);
      ReservedDef(b);
      ReservedDef(b2);
      assert b1[48..o + 16] == b1[48..o] + b1[o..o + 16];
    }
  }

  lemma {:induction false} FinishReserveIs(b: seq<byte>, rsv: seq<byte>)
    requires InState(b, Reserving(rsv))
    ensures var r := FinishReserve(b);
            if 16 <= Free(b) then r.code == 0 && InState(r.blob, Structuring(rsv + Entry(0, 0), []))
            else r == Res(NOSPACE, b)
  {
    AddReserveIs(b, rsv, 0, 0);
    if 16 <= Free(b) {
      var b1 := AddReserve(b, 0, 0).blob;
      SetHeader(b1, AT_OFF_STRINGS, TotalSize(b1));
      var b2 := Set(b1, AT_OFF_STRINGS, TotalSize(b1));
      ReservedDef(b1);
      ReservedDef(b2);
      SpeltDef(Struct(b2), []);
      OffDef([], 0);
      assert Written(b2, [], []);
    }
  }

  // ---- structure calls ----

  /** One more token, and one more call. */
  lemma {:induction false} EmittedTok(b: seq<byte>, b': seq<byte>, ks: seq<Tok>, es: seq<Event>, k: Tok, e: Event,
    x: seq<byte>)
    requires Written(b, ks, es) && Emitted(b, b', TokSize(k), x) && Readable(k) && TokAt(Struct(b'), SizeStruct(b)) == k
    requires Writes(k, e, Table(b), 0x1_0000_0000 - SizeStrings(b))
    ensures Written(b', ks + [k], es + [e])
  {
    SpeltAppend(Struct(b), Struct(b'), ks, k);
  }

  lemma {:induction false} BeginIs(b: seq<byte>, ks: seq<Tok>, es: seq<Event>, name: seq<byte>)
    requires Written(b, ks, es) && NulFree(name)
    ensures var r := Begin(b, name);
            if OpenSize(|name|) <= Free(b) then
              r.code == 0 && Written(r.blob, ks + [Open(name)], es + [BeginNode(name)]) &&
                Reserved(r.blob) == Reserved(b)
            else r == Res(NOSPACE, b)
  {
    var x := Be32(FDT_BEGIN_NODE) + name + [0];
    EmitIs(b, OpenSize(|name|), x);
    if OpenSize(|name|) <= Free(b) {
      var b' := Begin(b, name).blob;
      OpenEmitted(Struct(b'), SizeStruct(b), name, x);
      EmittedTok(b, b', ks, es, Open(name), BeginNode(name), x);
    }
  }

  lemma {:induction false} OpenEmitted(s: seq<byte>, o: nat, name: seq<byte>, x: seq<byte>)
    requires x == Be32(FDT_BEGIN_NODE) + name + [0] && o + OpenSize(|name|) <= |s| && s[o..o + |x|] == x &&
             NulFree(name)
    ensures TokAt(s, o) == Open(name)
  {
    assert x[0..4] == Be32(FDT_BEGIN_NODE) && x[4..|x|] == name + [0];
    SliceSlice(s, o, o + |x|, 0, 4);
    SliceSlice(s, o, o + |x|, 4, |x|);
    LdBe32(s, o, FDT_BEGIN_NODE);
    OpenSpelled(s, o, name);
    TokIs(s, o, Open(name));
  }

  lemma {:induction false} EndIs(b: seq<byte>, ks: seq<Tok>, es: seq<Event>)
    requires Written(b, ks, es)
    ensures var r := EndN(b);
            if 4 <= Free(b) then r.code == 0 && Written(r.blob, ks + [Close], es + [EndNode]) &&
              Reserved(r.blob) == Reserved(b)
            else r == Res(NOSPACE, b)
  {
    EmitIs(b, 4, Be32(FDT_END_NODE));
    if 4 <= Free(b) {
      var b' := EndN(b).blob;
      LdBe32(Struct(b'), SizeStruct(b), FDT_END_NODE);
      TokIs(Struct(b'), SizeStruct(b), Close);
      EmittedTok(b, b', ks, es, Close, EndNode, Be32(FDT_END_NODE));
    }
  }

  lemma {:induction false} StrPrepend(more: seq<byte>, strs: seq<byte>, off: int)
    requires StrAt(strs, off).Some?
    ensures StrAt(more + strs, off + |more|) == StrAt(strs, off)
  {
    var x := StrAt(strs, off).value;
    StrIs(strs, off, x);
    var t := more + strs;
    assert t[off + |more|..off + |more| + |x|] == strs[off..off + |x|];
    StrIs(t, off + |more|, x);
  }

  /** Strings added in front leave all negative offsets valid. */
  lemma {:induction false} WrittenGrows(b: seq<byte>, b': seq<byte>, ks: seq<Tok>, es: seq<Event>, more: seq<byte>)
    requires Written(b, ks, es) && StringAdded(b, b', more)
    ensures Written(b', ks, es)
  {
    var strs, base, base' := Table(b), 0x1_0000_0000 - SizeStrings(b), 0x1_0000_0000 - SizeStrings(b');
    forall i | 0 <= i < |ks| ensures Writes(ks[i], es[i], Table(b'), base') {
      assert Writes(ks[i], es[i], strs, base);
      if es[i].AddProp? {
        StrPrepend(more, strs, ks[i].nameoff - base);
      }
    }
  }

  /** The bytes fdt_property adds to the strings. */
  ghost function NewName(b: seq<byte>, name: seq<byte>): seq<byte>
    requires Unfinished(b)
  {
    if LastComp(b) % 2 == 0 && FindString(Table(b), name, 0) >= 0 then [] else name + [0]
  }

  /** The name offset, as stored, resolves to the name. */
  lemma {:induction false} NameResolves(b: seq<byte>, ks: seq<Tok>, es: seq<Event>, name: seq<byte>)
    requires Written(b, ks, es) && NulFree(name) && NameFits(b, name)
    ensures var (f, added) := NameOffset(b, name);
            if |NewName(b, name)| > Free(b) then f == Res(0, b) && added
            else f.code != 0 && Written(f.blob, ks, es) && Reserved(f.blob) == Reserved(b) &&
                 Free(f.blob) == Free(b) - |NewName(b, name)| &&
                 added == (NewName(b, name) != []) &&
                 StrAt(Table(f.blob), U32(f.code) - (0x1_0000_0000 - SizeStrings(f.blob))) == Some(name)
  {
    var (f, added) := NameOffset(b, name);
    NameOffsetKeeps(b, name);
    U32Small(f.code);
    if !added {
      StrIs(Table(b), FindString(Table(b), name, 0), name);
    } else if f.code != 0 {
      WrittenGrows(b, f.blob, ks, es, name + [0]);
      var t := name + [0] + Table(b);
      assert t[0..|name|] == name && t[|name|] == 0;
      StrIs(t, 0, name);
    }
  }

  lemma {:induction false} AlikeWritten(b: seq<byte>, b': seq<byte>, ks: seq<Tok>, es: seq<Event>)
    requires Written(b, ks, es) && Alike(b, b')
    ensures Written(b', ks, es)
  {
  }

  /** fdt_property: room for the property and, if it is new, for its name decides;
      without room the name is rolled back and header and blocks are as before. */
  lemma {:induction false} WritePropIs(b: seq<byte>, ks: seq<Tok>, es: seq<Event>, name: seq<byte>, val: seq<byte>)
    requires Written(b, ks, es) && NulFree(name) && NameFits(b, name) && |val| < 0x7fff_fff0
    ensures var r := WriteProp(b, name, val);
            if |NewName(b, name)| + PropSize(|val|) <= Free(b) then
              r.code == 0 && Written(r.blob, ks + [Prop(U32(NameOffset(b, name).0.code), val)],
                es + [AddProp(name, val)]) &&
              Reserved(r.blob) == Reserved(b)
            else r.code == NOSPACE && Alike(b, r.blob)
  {
    PropertyDef(b, name, val);
    NameResolves(b, ks, es, name);
    NameOffsetKeeps(b, name);
    var (f, added) := NameOffset(b, name);
    if f.code != 0 {
      var v := U32(f.code);
      var x := PropBytes(v, val);
      EmitIs(f.blob, PropSize(|val|), x);
      if PropSize(|val|) <= Free(f.blob) {
        var b' := Emit(f.blob, PropSize(|val|), x).blob;
        PropSpelled(Struct(b'), SizeStruct(f.blob), v, val);
        TokIs(Struct(b'), SizeStruct(f.blob), Prop(v, val));
        EmittedTok(f.blob, b', ks, es, Prop(v, val), AddProp(name, val), x);
      } else if added {
        StringDropped(b, f.blob, name + [0]);
      }
    }
  }

  // ---- runs ----

  datatype SwCall =
    | SwReserve(addr: int, size: int)
    | SwFinishReserve
    | SwBegin(name: seq<byte>)
    | SwEnd
    | SwProp(name: seq<byte>, val: seq<byte>)
    | SwFinish
    | SwResize(mem: seq<byte>, at: nat, to: nat, bufsize: int)

  /** What the C types and the mapped memory allow, and the condition of RoomTestExact. */
  ghost predicate SwLegal(b: seq<byte>, k: SwCall)
    requires Buf(b)
  {
    match k
    case SwBegin(name) => NulFree(name) && |name| < 0x7fff_fff0
    case SwProp(name, val) => NulFree(name) && |name| < 0x7fff_fff0 && |val| < 0x7fff_fff0 &&
      (SwProbeStruct(b) == 0 ==> NameFits(b, name))
    case SwResize(mem, at, to, bufsize) =>
      at + |b| <= |mem| && mem[at..at + |b|] == b && to + bufsize <= |mem| && bufsize <= 0x7fff_fff0
    case _ => true
  }

  ghost function SwPerform(b: seq<byte>, k: SwCall): (r: Res)
    requires SwBuf(b) && SwLegal(b, k)
  {
    match k
    case SwReserve(addr, size) => AddReserve(b, addr, size)
    case SwFinishReserve => FinishReserve(b)
    case SwBegin(name) => Begin(b, name)
    case SwEnd => EndN(b)
    case SwProp(name, val) => WriteProp(b, name, val)
    case SwFinish => Finish(b)
    case SwResize(mem, at, to, bufsize) =>
      var r := Resize(mem, at, |b|, to, bufsize);
      if r.code == 0 then Res(0, r.blob[to..to + bufsize]) else Res(r.code, b)
  }

  /** Bytes of free room that the call needs. */
  ghost function SwNeeds(b: seq<byte>, k: SwCall): int
    requires Unfinished(b)
  {
    match k
    case SwReserve(_, _) => 16
    case SwFinishReserve => 16
    case SwBegin(name) => OpenSize(|name|)
    case SwEnd => 4
    case SwProp(name, val) => |NewName(b, name)| + PropSize(|val|)
    case SwFinish => 4
    case SwResize(_, _, _, bufsize) => TotalSize(b) - bufsize
  }

  predicate SwAllowed(w: Writer, k: SwCall) {
    match k
    case SwReserve(_, _) => w.Reserving?
    case SwFinishReserve => w.Reserving?
    case SwResize(_, _, _, _) => !w.Finished?
    case _ => w.Structuring?
  }

  ghost function SwNext(w: Writer, k: SwCall): Writer
    requires SwAllowed(w, k)
  {
    match k
    case SwReserve(addr, size) => Reserving(w.rsv + Entry(addr, size))
    case SwFinishReserve => Structuring(w.rsv + Entry(0, 0), [])
    case SwBegin(name) => Structuring(w.rsv, w.es + [BeginNode(name)])
    case SwEnd => Structuring(w.rsv, w.es + [EndNode])
    case SwProp(name, val) => Structuring(w.rsv, w.es + [AddProp(name, val)])
    case SwFinish => Finished(w.rsv, w.es)
    case SwResize(_, _, _, _) => w
  }

  /** What a call returns and leaves. */
  ghost predicate SwOutcome(b: seq<byte>, w: Writer, k: SwCall, r: Res) {
    if !SwAllowed(w, k) then r == Res(BADSTATE, b)
    else if !Unfinished(b) then false
    else if SwNeeds(b, k) <= Free(b) then r.code == 0 && InState(r.blob, SwNext(w, k))
    else r.code == NOSPACE && InState(r.blob, w)
  }

  /** Every call succeeds exactly in its phase and with room, and then advances the state
      as it should; otherwise it reports BADSTATE or NOSPACE and keeps the state. */
  lemma {:induction false} SwStep(b: seq<byte>, w: Writer, k: SwCall)
    requires InState(b, w) && Buf(b) && SwLegal(b, k)
    ensures SwBuf(b) && SwOutcome(b, w, k, SwPerform(b, k))
  {
    PhaseSeen(b, w);
    if SwAllowed(w, k) {
      match k
      case SwReserve(addr, size) => AddReserveIs(b, w.rsv, addr, size);
      case SwFinishReserve => FinishReserveIs(b, w.rsv);
      case SwResize(mem, at, to, bufsize) => ResizeStep(b, w, k);
      case _ => StructStep(b, w, k);
    } else {
      WrongPhase(b, w, k);
    }
  }

  lemma {:induction false} ResizeStep(b: seq<byte>, w: Writer, k: SwCall)
    requires InState(b, w) && Buf(b) && SwLegal(b, k) && k.SwResize? && !w.Finished?
    ensures SwBuf(b) && SwOutcome(b, w, k, SwPerform(b, k))
  {
    ResizeIs(k.mem, k.at, |b|, k.to, k.bufsize);
    if SwPerform(b, k).code == 0 {
      ResizedState(b, w, SwPerform(b, k).blob);
    }
  }

  lemma {:induction false} ResizedState(b: seq<byte>, w: Writer, b': seq<byte>)
    requires InState(b, w) && !w.Finished? && Resized(b, b')
    ensures InState(b', w)
  {
    if w.Structuring? {
      var ks :| Written(b, ks, w.es);
      assert Written(b', ks, w.es);
    }
  }

  lemma {:induction false} WrongPhase(b: seq<byte>, w: Writer, k: SwCall)
    requires InState(b, w) && Buf(b) && SwLegal(b, k) && !SwAllowed(w, k)
    ensures SwBuf(b) && SwPerform(b, k) == Res(BADSTATE, b)
  {
    PhaseSeen(b, w);
    if k.SwProp? {
      PropertyDef(b, k.name, k.val);
    } else if k.SwFinish? {
      FinishDef(b);
    }
  }

  lemma {:induction false} StructStep(b: seq<byte>, w: Writer, k: SwCall)
    requires InState(b, w) && Buf(b) && SwLegal(b, k) && w.Structuring? &&
             (k.SwBegin? || k.SwEnd? || k.SwProp? || k.SwFinish?)
    ensures SwBuf(b) && SwOutcome(b, w, k, SwPerform(b, k))
  {
    PhaseSeen(b, w);
    var ks :| Written(b, ks, w.es);
    match k
    case SwBegin(name) => BeginIs(b, ks, w.es, name);
    case SwEnd => EndIs(b, ks, w.es);
    case SwFinish => FinishIs(b, ks, w.es);
    case SwProp(name, val) =>
      WritePropIs(b, ks, w.es, name, val);
      if |NewName(b, name)| + PropSize(|val|) > Free(b) {
        AlikeWritten(b, WriteProp(b, name, val).blob, ks, w.es);
      }
  }

  /** A run of the writer from the blob b in state w to b' in state w'. */
  ghost predicate SwRun(b: seq<byte>, w: Writer, calls: seq<SwCall>, b': seq<byte>, w': Writer)
    decreases |calls|
  {
    if calls == [] then b' == b && w' == w
    else
      SwBuf(b) && SwLegal(b, calls[0]) &&
      var r := SwPerform(b, calls[0]);
      if r.code == 0 then SwAllowed(w, calls[0]) && SwRun(r.blob, SwNext(w, calls[0]), calls[1..], b', w')
      else SwRun(r.blob, w, calls[1..], b', w')
  }

  /** The blob is in the state of the successful calls after every run, with any mix of
      failures and resizes. */
  lemma {:induction false} SwRunKeeps(b: seq<byte>, w: Writer, calls: seq<SwCall>, b': seq<byte>, w': Writer)
    requires InState(b, w) && SwRun(b, w, calls, b', w')
    ensures InState(b', w')
    decreases |calls|
  {
    if calls != [] {
      SwStep(b, w, calls[0]);
      var r := SwPerform(b, calls[0]);
      SwRunKeeps(r.blob, if r.code == 0 then SwNext(w, calls[0]) else w, calls[1..], b', w');
    }
  }

  /** The main result on the sequential writer.  From fdt_create to a successful fdt_finish,
      over every sequence of calls whose successful structure calls are balanced: the blob
      passes fdt_check_header, its reservation block has exactly the entries added, and it
      holds exactly the trees described, whatever sizes the buffer had in between. */
  lemma {:induction false} WriterRefines(buf: seq<byte>, flags: int, calls: seq<SwCall>, b: seq<byte>, w: Writer,
    d: Desc)
    requires 48 <= |buf| <= 0x7fff_fff0 && 0 <= flags <= 1
    requires SwRun(Create(buf, flags).blob, Reserving([]), calls, b, w) && w.Finished? && w.es == Events(d)
    ensures Sane(b) && CheckHeader(b) == 0 && Rsv(b) == w.rsv && TotalSize(b) == DataSize(b)
    ensures exists t :: HoldsLoosely(b, t) && Forest(t, Strings(b)) == ForestOf(d) && (OrderedDesc(d) ==> Holds(b, t))
  {
    CreateIs(buf, flags);
    SwRunKeeps(Create(buf, flags).blob, Reserving([]), calls, b, w);
    CompleteHolds(b, w.rsv, w.es, d);
  }

  /** A writer of 64 bytes that has finished its reservation map, and a name of 64 bytes: the
      room test accepts it, and the copy starts in front of the buffer. */
  lemma {:induction false} LongNameStrays(name: seq<byte>)
    requires |name| == 64
    ensures exists b :: InState(b, Structuring(Entry(0, 0), [])) && TotalSize(b) == 64 && AddAnyString(b, name).Outside?
  {
    var buf: seq<byte> := Zeros(64);
    CreateIs(buf, 0);
    var b := Create(buf, 0).blob;
    CreatedFree(buf);
    FinishReserveIs(b, []);
    var c := FinishReserve(b).blob;
    assert [] + Entry(0, 0) == Entry(0, 0);
    assert InState(c, Structuring(Entry(0, 0), []));
    AddStringExact(c, name);
  }

  lemma {:induction false} CreatedFree(buf: seq<byte>)
    requires 48 <= |buf| <= 0x7fff_fff0 && InState(Create(buf, 0).blob, Reserving([]))
    ensures Free(Create(buf, 0).blob) == |buf| - 48
  {
  }
}
