/** fdt_sw.c in place on the buffer, proved to leave exactly the return code and the bytes
    that the functions of SeqWrite, SeqFinish and SeqRuns describe. */
module SeqInPlace {
  import opened Bytes
  import opened Syntax
  import opened Fdt
  import opened Walk
  import opened Splice
  import opened Edit
  import opened Memory
  import opened Reader
  import opened SeqWrite
  import opened SeqFinish
  import opened SeqRuns

  /** fdt_sw_probe_. */
  method ProbeWriter(fdt: array<byte>) returns (r: int)
    requires fdt.Length >= 40
    ensures r == SwProbe(fdt[..])
  {
    var magic := ReadWord(fdt, AT_MAGIC);
    return if magic == FDT_MAGIC then BADSTATE else if magic != FDT_SW_MAGIC then BADMAGIC else 0;
  }

  /** fdt_sw_probe_memrsv_. */
  method ProbeMemrsv(fdt: array<byte>) returns (r: int)
    requires fdt.Length >= 40
    ensures r == SwProbeMemrsv(fdt[..])
  {
    r := ProbeWriter(fdt);
    if r != 0 {
      return;
    }
    var offStrings := ReadWord(fdt, AT_OFF_STRINGS);
    return if offStrings != 0 then BADSTATE else 0;
  }

  /** fdt_sw_probe_struct_. */
  method ProbeStruct(fdt: array<byte>) returns (r: int)
    requires fdt.Length >= 40
    ensures r == SwProbeStruct(fdt[..])
  {
    r := ProbeWriter(fdt);
    if r != 0 {
      return;
    }
    var offStrings := ReadWord(fdt, AT_OFF_STRINGS);
    var total := ReadWord(fdt, AT_TOTALSIZE);
    return if offStrings != total then BADSTATE else 0;
  }

  /** fdt_create_with_flags. */
  method CreateBlob(buf: array<byte>, flags: int) returns (code: int)
    requires buf.Length <= 0x7fff_fff0 && 0 <= flags < 0x1_0000_0000
    modifies buf
    ensures Res(code, buf[..]) == Create(old(buf[..]), flags)
  {
    if buf.Length < 48 {
      return NOSPACE;
    }
    if flags > 1 {
      return BADFLAGS;
    }
    forall i | 0 <= i < buf.Length {
      buf[i] := 0;
    }
    assert buf[..] == Zeros(buf.Length);
    WriteWord(buf, AT_MAGIC, FDT_SW_MAGIC);
    WriteWord(buf, AT_VERSION, 17);
    WriteWord(buf, AT_LAST_COMP, flags);
    WriteWord(buf, AT_TOTALSIZE, buf.Length);
    WriteWord(buf, AT_OFF_RSV, 48);
    WriteWord(buf, AT_OFF_STRUCT, 48);
    WriteWord(buf, AT_OFF_STRINGS, 0);
    return 0;
  }

  /** fdt_add_reservemap_entry. */
  method AddReservemapEntry(fdt: array<byte>, addr: int, size: int) returns (code: int)
    requires SwBuf(fdt[..])
    modifies fdt
    ensures Res(code, fdt[..]) == AddReserve(old(fdt[..]), addr, size)
  {
    code := ProbeMemrsv(fdt);
    if code != 0 {
      return;
    }
    var offset := ReadWord(fdt, AT_OFF_STRUCT);
    var total := ReadWord(fdt, AT_TOTALSIZE);
    if offset + 16 > total {
      return NOSPACE;
    }
    BeDef(addr / 0x1_0000_0000);
    BeDef(addr % 0x1_0000_0000);
    BeDef(size / 0x1_0000_0000);
    BeDef(size % 0x1_0000_0000);
    WriteBytes(fdt, offset, (Bytes32(addr / 0x1_0000_0000) + Bytes32(addr % 0x1_0000_0000)) +
                            (Bytes32(size / 0x1_0000_0000) + Bytes32(size % 0x1_0000_0000)));
    WriteWord(fdt, AT_OFF_STRUCT, offset + 16);
  }

  /** fdt_finish_reservemap. */
  method FinishReservemap(fdt: array<byte>) returns (code: int)
    requires SwBuf(fdt[..])
    modifies fdt
    ensures Res(code, fdt[..]) == FinishReserve(old(fdt[..]))
  {
    code := AddReservemapEntry(fdt, 0, 0);
    if code != 0 {
      return;
    }
    var total := ReadWord(fdt, AT_TOTALSIZE);
    WriteWord(fdt, AT_OFF_STRINGS, total);
  }

  /** fdt_grab_space_ and the write of x. */
  method GrabAndWrite(fdt: array<byte>, len: nat, x: seq<byte>) returns (code: int)
    requires Unfinished(fdt[..]) && |x| <= len
    modifies fdt
    ensures Res(code, fdt[..]) == Emit(old(fdt[..]), len, x)
  {
    var offset := ReadWord(fdt, AT_SIZE_STRUCT);
    var total := ReadWord(fdt, AT_TOTALSIZE);
    var offStruct := ReadWord(fdt, AT_OFF_STRUCT);
    var sizeStrings := ReadWord(fdt, AT_SIZE_STRINGS);
    var spaceleft := U32(U32(total - offStruct) - sizeStrings);
    U32Small(total - offStruct);
    U32Small(U32(total - offStruct) - sizeStrings);
    if offset + len < offset || offset + len > spaceleft {
      return NOSPACE;
    }
    WriteWord(fdt, AT_SIZE_STRUCT, offset + len);
    WriteBytes(fdt, offStruct + offset, x);
    return 0;
  }

  /** fdt_begin_node. */
  method BeginNodeCall(fdt: array<byte>, name: seq<byte>) returns (code: int)
    requires SwBuf(fdt[..])
    modifies fdt
    ensures Res(code, fdt[..]) == Begin(old(fdt[..]), name)
  {
    code := ProbeStruct(fdt);
    if code != 0 {
      return;
    }
    AlignDef(|name| + 1);
    BeDef(FDT_BEGIN_NODE);
    code := GrabAndWrite(fdt, 4 + TagAlign(|name| + 1), Bytes32(FDT_BEGIN_NODE) + name + [0]);
  }

  /** fdt_end_node. */
  method EndNodeCall(fdt: array<byte>) returns (code: int)
    requires SwBuf(fdt[..])
    modifies fdt
    ensures Res(code, fdt[..]) == EndN(old(fdt[..]))
  {
    code := ProbeStruct(fdt);
    if code != 0 {
      return;
    }
    BeDef(FDT_END_NODE);
    code := GrabAndWrite(fdt, 4, Bytes32(FDT_END_NODE));
  }

  /** fdt_add_string_. */
  method PushString(fdt: array<byte>, s: seq<byte>) returns (code: int)
    requires Unfinished(fdt[..]) && NameFits(fdt[..], s)
    modifies fdt
    ensures Res(code, fdt[..]) == AddString(old(fdt[..]), s)
  {
    var total := ReadWord(fdt, AT_TOTALSIZE);
    var strtabsize := ReadWord(fdt, AT_SIZE_STRINGS);
    var offStruct := ReadWord(fdt, AT_OFF_STRUCT);
    var sizeStruct := ReadWord(fdt, AT_SIZE_STRUCT);
    var offset := strtabsize + |s| + 1;
    if !RoomTest(total, strtabsize, |s| + 1, offStruct + sizeStruct) {
      return 0;
    }
    WriteBytes(fdt, total - offset, s + [0]);
    WriteWord(fdt, AT_SIZE_STRINGS, offset);
    return -offset;
  }

  /** fdt_find_string_ in the strings written so far. */
  method SearchTable(fdt: array<byte>, s: seq<byte>) returns (p: int)
    requires Unfinished(fdt[..])
    ensures p == FindString(Table(fdt[..]), s, 0)
  {
    TableDef(fdt[..]);
    var total := ReadWord(fdt, AT_TOTALSIZE);
    var strtabsize := ReadWord(fdt, AT_SIZE_STRINGS);
    p := SearchString(fdt, total - strtabsize, strtabsize, s);
  }

  /** fdt_find_add_string_, or fdt_add_string_ without de-duplication. */
  method FindOrPushString(fdt: array<byte>, s: seq<byte>) returns (code: int, added: bool)
    requires Unfinished(fdt[..]) && NameFits(fdt[..], s)
    modifies fdt
    ensures (Res(code, fdt[..]), added) == NameOffset(old(fdt[..]), s)
  {
    var flags := ReadWord(fdt, AT_LAST_COMP);
    if flags % 2 == 0 {
      var p := SearchTable(fdt, s);
      if p >= 0 {
        var strtabsize := ReadWord(fdt, AT_SIZE_STRINGS);
        return p - strtabsize, false;
      }
    }
    code := PushString(fdt, s);
    return code, true;
  }

  /** fdt_property. */
  method PropertyCall(fdt: array<byte>, name: seq<byte>, val: seq<byte>) returns (code: int)
    requires SwBuf(fdt[..]) && (SwProbeStruct(fdt[..]) == 0 ==> NameFits(fdt[..], name))
    modifies fdt
    ensures Res(code, fdt[..]) == WriteProp(old(fdt[..]), name, val)
  {
    PropertyDef(fdt[..], name, val);
    code := ProbeStruct(fdt);
    if code != 0 {
      return;
    }
    NameOffsetKeeps(fdt[..], name);
    var nameoff, added := FindOrPushString(fdt, name);
    if nameoff == 0 {
      return NOSPACE;
    }
    AlignDef(|val|);
    BeDef(FDT_PROP);
    BeDef(|val|);
    BeDef(U32(nameoff));
    code := GrabAndWrite(fdt, 12 + TagAlign(|val|), Bytes32(FDT_PROP) + Bytes32(|val|) + Bytes32(U32(nameoff)) + val);
    if code != 0 && added {
      AddToField(fdt, AT_SIZE_STRINGS, -(|name| + 1));
    }
  }

  /** The loop of fdt_finish that corrects the name offsets. */
  method CorrectNames(fdt: array<byte>) returns (code: int)
    requires Relocatable(fdt[..])
    modifies fdt
    ensures Res(code, fdt[..]) == RelocateLoop(old(fdt[..]), 0)
  {
    var offStruct := ReadWord(fdt, AT_OFF_STRUCT);
    var sizeStruct := ReadWord(fdt, AT_SIZE_STRUCT);
    var size := ReadWord(fdt, AT_SIZE_STRINGS);
    var offset := 0;
    while true
      invariant Relocatable(fdt[..]) && offset < 0x8000_0000
      invariant OffStruct(fdt[..]) == offStruct && SizeStruct(fdt[..]) == sizeStruct && SizeStrings(fdt[..]) == size
      invariant RelocateLoop(old(fdt[..]), 0) == RelocateLoop(fdt[..], offset)
      decreases 0x8000_0000 - offset
    {
      NextTagBound(fdt[..], offset);
      var tag, next := ReadTag(fdt, offset);
      if tag == FDT_END {
        return next;
      }
      if next <= offset {
        return DIVERGES;
      }
      if tag == FDT_PROP {
        if offset < 0 || offset + 12 > sizeStruct {
          return STRAYS;
        }
        PutAround(fdt[..], offset + 8, Be32(U32(Ld32(fdt[..], offStruct + offset + 8) + size)));
        CorrectName(fdt, offset);
      }
      offset := next;
    }
  }

  method CorrectName(fdt: array<byte>, offset: int)
    requires Relocatable(fdt[..]) && 0 <= offset && offset + 12 <= SizeStruct(fdt[..])
    modifies fdt
    ensures fdt[..] == Correct(old(fdt[..]), offset)
  {
    var offStruct := ReadWord(fdt, AT_OFF_STRUCT);
    var size := ReadWord(fdt, AT_SIZE_STRINGS);
    var nameoff := ReadWord(fdt, offStruct + offset + 8);
    WriteWord(fdt, offStruct + offset + 8, U32(nameoff + size));
  }

  method MoveStringsDown(fdt: array<byte>)
    requires Unfinished(fdt[..])
    modifies fdt
    ensures fdt[..] == StringsDown(old(fdt[..]))
  {
    var total := ReadWord(fdt, AT_TOTALSIZE);
    var size := ReadWord(fdt, AT_SIZE_STRINGS);
    var offStruct := ReadWord(fdt, AT_OFF_STRUCT);
    var sizeStruct := ReadWord(fdt, AT_SIZE_STRUCT);
    MemMove(fdt, offStruct + sizeStruct, total - size, size);
    WriteWord(fdt, AT_OFF_STRINGS, offStruct + sizeStruct);
  }

  method CompleteHeader(fdt: array<byte>, top: int)
    requires fdt.Length >= 40
    modifies fdt
    ensures fdt[..] == HeaderDone(old(fdt[..]), top)
  {
    var size := ReadWord(fdt, AT_SIZE_STRINGS);
    WriteWord(fdt, AT_TOTALSIZE, top + size);
    WriteWord(fdt, AT_LAST_COMP, 16);
    WriteWord(fdt, AT_MAGIC, FDT_MAGIC);
  }

  /** fdt_finish after the terminator has been written. */
  method RelocateStrings(fdt: array<byte>) returns (code: int)
    requires Unfinished(fdt[..])
    modifies fdt
    ensures Res(code, fdt[..]) == Relocate(old(fdt[..]))
  {
    var offStruct := ReadWord(fdt, AT_OFF_STRUCT);
    var sizeStruct := ReadWord(fdt, AT_SIZE_STRUCT);
    MovedDown(fdt[..]);
    MoveStringsDown(fdt);
    code := CorrectNames(fdt);
    if code >= 0 {
      CompleteHeader(fdt, offStruct + sizeStruct);
      code := 0;
    }
  }

  /** fdt_finish. */
  method FinishCall(fdt: array<byte>) returns (code: int)
    requires SwBuf(fdt[..])
    modifies fdt
    ensures Res(code, fdt[..]) == Finish(old(fdt[..]))
  {
    FinishDef(fdt[..]);
    code := ProbeStruct(fdt);
    if code != 0 {
      return;
    }
    EmitIs(fdt[..], 4, Be32(FDT_END));
    BeDef(FDT_END);
    code := GrabAndWrite(fdt, 4, Bytes32(FDT_END));
    if code == 0 {
      code := RelocateStrings(fdt);
    }
  }

  /** A header field of the blob of n bytes at `at`. */
  method ReadField(mem: array<byte>, at: nat, n: nat, f: int) returns (v: int)
    requires at + n <= mem.Length && n >= 40 && IsField(f)
    ensures v == Ld32(mem[..][at..at + n], f)
  {
    LdView(mem[..], at, at + n, f);
    v := ReadWord(mem, at + f);
  }

  /** fdt_resize from offset `at` to offset `to` of one memory. */
  method ResizeCall(mem: array<byte>, at: nat, n: nat, to: nat, bufsize: int) returns (code: int)
    requires at + n <= mem.Length && SwBuf(mem[..][at..at + n]) && to + bufsize <= mem.Length && bufsize <= 0x7fff_fff0
    modifies mem
    ensures Res(code, mem[..]) == Resize(old(mem[..]), at, n, to, bufsize)
  {
    var magic := ReadField(mem, at, n, AT_MAGIC);
    if magic == FDT_MAGIC {
      return BADSTATE;
    }
    if magic != FDT_SW_MAGIC {
      return BADMAGIC;
    }
    if bufsize < 0 {
      return NOSPACE;
    }
    var total := ReadField(mem, at, n, AT_TOTALSIZE);
    var offStruct := ReadField(mem, at, n, AT_OFF_STRUCT);
    var sizeStruct := ReadField(mem, at, n, AT_SIZE_STRUCT);
    var tail := ReadField(mem, at, n, AT_SIZE_STRINGS);
    var head := offStruct + sizeStruct;
    if head + tail > bufsize {
      return NOSPACE;
    }
    MoveAll(mem, at, to, head, tail, at + total - tail, bufsize);
    return 0;
  }

  method MoveAll(mem: array<byte>, at: nat, to: nat, head: nat, tail: nat, oldtail: nat, bufsize: nat)
    requires at + head <= mem.Length && oldtail + tail <= mem.Length && to + bufsize <= mem.Length && 48 <= head &&
             head + tail <= bufsize
    modifies mem
    ensures mem[..] == FixHeader(Transfer(old(mem[..]), at, to, head, tail, oldtail, to + bufsize - tail), to, bufsize)
  {
    MoveHeadAndTail(mem, at, to, head, tail, oldtail, to + bufsize - tail);
    FixBuffer(mem, to, bufsize);
  }

  /** The two moves of fdt_resize. */
  method MoveHeadAndTail(mem: array<byte>, at: nat, to: nat, head: nat, tail: nat, oldtail: nat, newtail: nat)
    requires at + head <= mem.Length && to + head <= mem.Length && oldtail + tail <= mem.Length &&
             newtail + tail <= mem.Length
    modifies mem
    ensures mem[..] == Transfer(old(mem[..]), at, to, head, tail, oldtail, newtail)
  {
    if to <= at {
      MemMove(mem, to, at, head);
      MemMove(mem, newtail, oldtail, tail);
    } else {
      MemMove(mem, newtail, oldtail, tail);
      MemMove(mem, to, at, head);
    }
  }

  method FixBuffer(mem: array<byte>, to: nat, bufsize: nat)
    requires to + bufsize <= mem.Length && 48 <= bufsize
    modifies mem
    ensures mem[..] == FixHeader(old(mem[..]), to, bufsize)
  {
    WriteWord(mem, to + AT_TOTALSIZE, bufsize);
    var offStrings := ReadWord(mem, to + AT_OFF_STRINGS);
    if offStrings != 0 {
      WriteWord(mem, to + AT_OFF_STRINGS, bufsize);
    }
  }
}
