/** The buffer itself: words, memmove and memcpy on an array, in place. */
module Memory {
  import opened Bytes
  import opened Syntax
  import opened Fdt

  /** fdt32_to_cpu of the word at o. */
  method ReadWord(fdt: array<byte>, o: int) returns (v: int)
    requires 0 <= o <= fdt.Length - 4
    ensures v == Ld32(fdt[..], o)
  {
    var a: int, b: int, c: int, d: int := fdt[o], fdt[o + 1], fdt[o + 2], fdt[o + 3];
    v := ((a * 256 + b) * 256 + c) * 256 + d;
    LdDef(fdt[..], o);
  }

  /** memcpy of x to offset o. */
  method WriteBytes(fdt: array<byte>, o: int, x: seq<byte>)
    requires 0 <= o && o + |x| <= fdt.Length
    modifies fdt
    ensures fdt[..] == Put(old(fdt[..]), o, x)
  {
    forall i | 0 <= i < |x| {
      fdt[o + i] := x[i];
    }
    ghost var b := old(fdt[..]);
    forall i | 0 <= i < |b| ensures fdt[i] == Put(b, o, x)[i] {
      PutIndex(b, o, x, i);
    }
  }

  /** memmove: the two ranges may overlap. */
  method MemMove(fdt: array<byte>, dst: int, src: int, n: int)
    requires 0 <= n && 0 <= src && src + n <= fdt.Length && 0 <= dst && dst + n <= fdt.Length
    modifies fdt
    ensures fdt[..] == Move(old(fdt[..]), dst, src, n)
  {
    ghost var b := fdt[..];
    forall i | 0 <= i < n {
      fdt[dst + i] := fdt[src + i];
    }
    forall i | 0 <= i < |b| ensures fdt[i] == Move(b, dst, src, n)[i] {
      PutIndex(b, dst, b[src..src + n], i);
    }
  }

  /** Store v, modulo 2^32, at offset o. */
  method WriteWord(fdt: array<byte>, o: int, v: int)
    requires 0 <= o <= fdt.Length - 4
    modifies fdt
    ensures fdt[..] == Put(old(fdt[..]), o, Be32(v))
  {
    BeDef(v);
    WriteBytes(fdt, o, Bytes32(v));
  }

  /** Add n to a header field. */
  method AddToField(fdt: array<byte>, f: int, n: int)
    requires fdt.Length >= 40 && IsField(f)
    modifies fdt
    ensures fdt[..] == Set(old(fdt[..]), f, Ld32(old(fdt[..]), f) + n)
  {
    var v := ReadWord(fdt, f);
    WriteWord(fdt, f, v + n);
  }

  // ---- fdt.c ----

  /** fdt_offset_ptr: whether it returns a pointer. */
  method OffsetPtrOk(fdt: array<byte>, offset: int, len: int) returns (ok: bool)
    requires fdt.Length >= 40
    ensures ok == OffsetPtr(fdt[..], offset, len)
  {
    var offStruct := ReadWord(fdt, AT_OFF_STRUCT);
    var total := ReadWord(fdt, AT_TOTALSIZE);
    var version := ReadWord(fdt, AT_VERSION);
    var sizeStruct := ReadWord(fdt, AT_SIZE_STRUCT);
    var abs := U32(offset + offStruct);
    if offset < 0 {
      return false;
    }
    if abs < offset || U32(abs + len) < abs || U32(abs + len) > total {
      return false;
    }
    if version >= 17 {
      if U32(offset + len) < offset || U32(offset + len) > sizeStruct {
        return false;
      }
    }
    return true;
  }

  /** The name-skipping loop of fdt_next_tag. */
  method SkipName(fdt: array<byte>, start: int) returns (r: Option<int>)
    requires Buf(fdt[..]) && 0 <= start < 0x8000_0000
    ensures r == ScanName(fdt[..], start)
  {
    var offStruct := ReadWord(fdt, AT_OFF_STRUCT);
    var off := start;
    while true
      invariant Buf(fdt[..]) && start <= off < 0x8000_0000
      invariant ScanName(fdt[..], start) == ScanName(fdt[..], off)
      decreases fdt.Length - off
    {
      var p := OffsetPtrOk(fdt, off, 1);
      OffsetPtrMeans(fdt[..], off, 1);
      if !p {
        return None;
      }
      if fdt[offStruct + off] == 0 {
        return Some(off + 1);
      }
      off := off + 1;
    }
  }

  method CloseTag(fdt: array<byte>, start: int, tag: int, off: int) returns (r: int, next: int)
    requires Buf(fdt[..])
    ensures (r, next) == TagEnd(fdt[..], start, tag, off)
  {
    var p := OffsetPtrOk(fdt, start, U32(off - start));
    if !p {
      return FDT_END, BADSTRUCTURE;
    }
    AlignDef(off);
    return tag, TagAlign(off);
  }

  /** fdt_next_tag. */
  method ReadTag(fdt: array<byte>, start: int) returns (tag: int, next: int)
    requires Buf(fdt[..]) && start < 0x8000_0000
    ensures (tag, next) == NextTag(fdt[..], start)
  {
    NextTagDef(fdt[..], start);
    OffsetPtrMeans(fdt[..], start, 4);
    var offStruct := ReadWord(fdt, AT_OFF_STRUCT);
    var p := OffsetPtrOk(fdt, start, 4);
    if !p {
      return FDT_END, TRUNCATED;
    }
    tag := ReadWord(fdt, offStruct + start);
    var off := start + 4;
    if tag == FDT_BEGIN_NODE {
      var e := SkipName(fdt, off);
      if e.None? {
        return FDT_END, BADSTRUCTURE;
      }
      off := e.value;
    } else if tag == FDT_PROP {
      OffsetPtrMeans(fdt[..], off, 4);
      p := OffsetPtrOk(fdt, off, 4);
      if !p {
        return FDT_END, BADSTRUCTURE;
      }
      var len := ReadWord(fdt, offStruct + off);
      var version := ReadWord(fdt, AT_VERSION);
      off := PropEnd(version, start, len);
    } else if tag != FDT_END && tag != FDT_END_NODE && tag != FDT_NOP {
      return FDT_END, BADSTRUCTURE;
    }
    tag, next := CloseTag(fdt, start, tag, off);
  }
}
