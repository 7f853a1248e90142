/** fdt_rw.c and fdt_wip.c in place on the buffer, proved to leave exactly the return
    code and the bytes that the functions of Edit and Wip describe. */
module InPlace {
  import opened Bytes
  import opened Syntax
  import opened Fdt
  import opened Walk
  import opened Blob
  import opened Splice
  import opened Edit
  import opened Wip
  import opened Memory
  import opened Reader

  /** fdt_rw_probe_. */
  method WriteProbe(fdt: array<byte>) returns (r: int)
    requires fdt.Length >= 40 && Version(fdt[..]) <= 17
    ensures r == RwProbe(fdt[..])
  {
    RwProbeDef(fdt[..]);
    r := Probe(fdt);
    if r < 0 {
      return;
    }
    var version := ReadWord(fdt, AT_VERSION);
    if version < 17 {
      return BADVERSION;
    }
    var offRsv := ReadWord(fdt, AT_OFF_RSV);
    var offStruct := ReadWord(fdt, AT_OFF_STRUCT);
    var sizeStruct := ReadWord(fdt, AT_SIZE_STRUCT);
    var offStrings := ReadWord(fdt, AT_OFF_STRINGS);
    var sizeStrings := ReadWord(fdt, AT_SIZE_STRINGS);
    var total := ReadWord(fdt, AT_TOTALSIZE);
    if offRsv < 40 || offStruct < U32(offRsv + 16) || offStrings < U32(offStruct + sizeStruct) ||
       total < U32(offStrings + sizeStrings) {
      return BADLAYOUT;
    }
    return 0;
  }

  /** fdt_splice_. */
  method SpliceBytes(fdt: array<byte>, p: int, oldlen: int, newlen: int) returns (code: int)
    requires Sane(fdt[..]) && 0 <= p && 0 <= newlen
    modifies fdt
    ensures Res(code, fdt[..]) == SpliceAt(old(fdt[..]), p, oldlen, newlen)
  {
    var offStrings := ReadWord(fdt, AT_OFF_STRINGS);
    var sizeStrings := ReadWord(fdt, AT_SIZE_STRINGS);
    var total := ReadWord(fdt, AT_TOTALSIZE);
    var dsize := offStrings + sizeStrings;
    if oldlen < 0 || p + oldlen > dsize {
      return BADOFFSET;
    }
    if dsize - oldlen + newlen > total {
      return NOSPACE;
    }
    MemMove(fdt, p + newlen, p + oldlen, dsize - (p + oldlen));
    return 0;
  }

  method ShiftHeader(fdt: array<byte>, d: int)
    requires fdt.Length >= 40
    modifies fdt
    ensures fdt[..] == Shifted(old(fdt[..]), d)
  {
    AddToField(fdt, AT_SIZE_STRUCT, d);
    AddToField(fdt, AT_OFF_STRINGS, d);
  }

  /** fdt_splice_struct_. */
  method SpliceStructure(fdt: array<byte>, off: int, oldlen: int, newlen: int) returns (code: int)
    requires Sane(fdt[..]) && 0 <= off && 0 <= newlen
    modifies fdt
    ensures Res(code, fdt[..]) == SpliceStruct(old(fdt[..]), off, oldlen, newlen)
  {
    SpliceStructDef(fdt[..], off, oldlen, newlen);
    var offStruct := ReadWord(fdt, AT_OFF_STRUCT);
    code := SpliceBytes(fdt, offStruct + off, oldlen, newlen);
    if code != 0 {
      return;
    }
    ShiftHeader(fdt, newlen - oldlen);
  }

  /** fdt_splice_string_. */
  method SpliceStringTable(fdt: array<byte>, newlen: int) returns (code: int)
    requires Sane(fdt[..]) && 0 <= newlen
    modifies fdt
    ensures Res(code, fdt[..]) == SpliceString(old(fdt[..]), newlen)
  {
    var offStrings := ReadWord(fdt, AT_OFF_STRINGS);
    var sizeStrings := ReadWord(fdt, AT_SIZE_STRINGS);
    code := SpliceBytes(fdt, offStrings + sizeStrings, 0, newlen);
    if code != 0 {
      return;
    }
    AddToField(fdt, AT_SIZE_STRINGS, newlen);
  }

  /** fdt_find_add_string_. */
  method FindOrAddString(fdt: array<byte>, s: seq<byte>) returns (code: int, added: bool)
    requires Sane(fdt[..])
    modifies fdt
    ensures (Res(code, fdt[..]), added) == FindAddString(old(fdt[..]), s)
  {
    StringsDef(fdt[..]);
    var offStrings := ReadWord(fdt, AT_OFF_STRINGS);
    var sizeStrings := ReadWord(fdt, AT_SIZE_STRINGS);
    code := SearchString(fdt, offStrings, sizeStrings, s);
    if code >= 0 {
      return code, false;
    }
    code := SpliceStringTable(fdt, |s| + 1);
    if code != 0 {
      return code, false;
    }
    WriteBytes(fdt, offStrings + sizeStrings, s + [0]);
    return sizeStrings, true;
  }

  /** fdt_add_property_ and the copy of the value. */
  method AppendProperty(fdt: array<byte>, nodeoff: int, name: seq<byte>, val: seq<byte>) returns (code: int)
    requires Sane(fdt[..]) && nodeoff < 0x8000_0000
    modifies fdt
    ensures Res(code, fdt[..]) == AddProperty(old(fdt[..]), nodeoff, name, val)
  {
    AddPropertyDef(fdt[..], nodeoff, name, val);
    NextTagBound(fdt[..], nodeoff);
    var next := CheckNode(fdt, nodeoff);
    if next < 0 {
      return next;
    }
    FindAddStringSane(fdt[..], name);
    var nameoff, added := FindOrAddString(fdt, name);
    if nameoff < 0 {
      return nameoff;
    }
    code := AppendNamed(fdt, next, nameoff, added, name, val);
  }

  /** The structure half of fdt_add_property_. */
  method AppendNamed(fdt: array<byte>, next: int, nameoff: int, added: bool, name: seq<byte>,
    val: seq<byte>) returns (code: int)
    requires Sane(fdt[..]) && 0 <= next
    modifies fdt
    ensures Res(code, fdt[..]) == AddNamed(old(fdt[..]), next, nameoff, added, name, val)
  {
    AlignDef(|val|);
    var offStruct := ReadWord(fdt, AT_OFF_STRUCT);
    code := SpliceStructure(fdt, next, 0, 12 + TagAlign(|val|));
    if code == 0 {
      BeDef(FDT_PROP);
      BeDef(|val|);
      BeDef(nameoff);
      WriteBytes(fdt, offStruct + next, Bytes32(FDT_PROP) + Bytes32(|val|) + Bytes32(nameoff) + val);
    } else if added {
      AddToField(fdt, AT_SIZE_STRINGS, -(|name| + 1));
    }
  }

  /** fdt_setprop. */
  method SetProperty(fdt: array<byte>, nodeoff: int, name: seq<byte>, val: seq<byte>) returns (code: int)
    requires Editable(fdt[..]) && nodeoff < 0x8000_0000
    modifies fdt
    ensures Res(code, fdt[..]) == SetProp(old(fdt[..]), nodeoff, name, val)
  {
    code := WriteProbe(fdt);
    if code != 0 {
      return;
    }
    var p := FindProperty(fdt, nodeoff, name);
    if p == NOTFOUND {
      code := AppendProperty(fdt, nodeoff, name, val);
      return;
    }
    if p < 0 {
      return p;
    }
    var offStruct := ReadWord(fdt, AT_OFF_STRUCT);
    if offStruct + p + 12 > fdt.Length {
      return STRAYS;
    }
    var oldlen := ReadWord(fdt, offStruct + p + 4);
    code := ReplaceValue(fdt, p, I32(oldlen), val);
  }

  /** fdt_resize_property_ and the copy of the value. */
  method ReplaceValue(fdt: array<byte>, p: int, oldlen: int, val: seq<byte>) returns (code: int)
    requires Sane(fdt[..]) && 0 <= p
    modifies fdt
    ensures Res(code, fdt[..]) == ResizeProperty(old(fdt[..]), p, oldlen, val)
  {
    AlignDef(oldlen);
    AlignDef(|val|);
    var offStruct := ReadWord(fdt, AT_OFF_STRUCT);
    code := SpliceStructure(fdt, p + 12, TagAlign(oldlen), TagAlign(|val|));
    if code == 0 {
      WriteWord(fdt, offStruct + p + 4, |val|);
      WriteBytes(fdt, offStruct + p + 12, val);
    }
  }

  /** fdt_delprop. */
  method DeleteProperty(fdt: array<byte>, nodeoff: int, name: seq<byte>) returns (code: int)
    requires Editable(fdt[..]) && nodeoff < 0x8000_0000
    modifies fdt
    ensures Res(code, fdt[..]) == DelProp(old(fdt[..]), nodeoff, name)
  {
    code := WriteProbe(fdt);
    if code != 0 {
      return;
    }
    var p := FindProperty(fdt, nodeoff, name);
    if p < 0 {
      return p;
    }
    var offStruct := ReadWord(fdt, AT_OFF_STRUCT);
    if offStruct + p + 12 > fdt.Length {
      return STRAYS;
    }
    var len := ReadWord(fdt, offStruct + p + 4);
    code := CutProperty(fdt, p, I32(len));
  }

  method CutProperty(fdt: array<byte>, p: int, len: int) returns (code: int)
    requires Sane(fdt[..]) && 0 <= p
    modifies fdt
    ensures Res(code, fdt[..]) == SpliceStruct(old(fdt[..]), p, 12 + Align4(len), 0)
  {
    AlignDef(len);
    code := SpliceStructure(fdt, p, 12 + TagAlign(len), 0);
  }

  /** fdt_add_subnode. */
  method AddNode(fdt: array<byte>, parent: int, name: seq<byte>) returns (code: int)
    requires Editable(fdt[..]) && parent < 0x8000_0000
    modifies fdt
    ensures Res(code, fdt[..]) == AddSubnode(old(fdt[..]), parent, name)
  {
    code := WriteProbe(fdt);
    if code != 0 {
      return;
    }
    var o := FindSubnode(fdt, parent, name);
    if o >= 0 {
      return EXISTS;
    } else if o != NOTFOUND {
      return o;
    }
    NextTagBound(fdt[..], parent);
    var tag, next := ReadTag(fdt, parent);
    if tag != FDT_BEGIN_NODE {
      return INTERNAL;
    }
    var off := AfterProps(fdt, next);
    if off < 0 {
      return off;
    }
    code := PutNode(fdt, off, name);
  }

  /** The second half of fdt_add_subnode_namelen: an empty node at off. */
  method PutNode(fdt: array<byte>, off: int, name: seq<byte>) returns (code: int)
    requires Sane(fdt[..]) && 0 <= off
    modifies fdt
    ensures Res(code, fdt[..]) == InsertNode(old(fdt[..]), off, name)
  {
    AlignDef(|name| + 1);
    BeDef(FDT_BEGIN_NODE);
    BeDef(FDT_END_NODE);
    var size := TagAlign(|name| + 1);
    var offStruct := ReadWord(fdt, AT_OFF_STRUCT);
    code := SpliceStructure(fdt, off, 0, 8 + size);
    if code != 0 {
      return;
    }
    WriteBytes(fdt, offStruct + off, Bytes32(FDT_BEGIN_NODE) + (name + Zeros(size - |name|)) + Bytes32(FDT_END_NODE));
    return off;
  }

  /** fdt_del_node. */
  method DeleteNode(fdt: array<byte>, nodeoff: int) returns (code: int)
    requires Editable(fdt[..]) && nodeoff < 0x8000_0000
    modifies fdt
    ensures Res(code, fdt[..]) == DelNode(old(fdt[..]), nodeoff)
  {
    code := WriteProbe(fdt);
    if code != 0 {
      return;
    }
    var end := NodeEnd(fdt, nodeoff);
    if end < 0 {
      return end;
    }
    code := SpliceStructure(fdt, nodeoff, end - nodeoff, 0);
  }

  /** fdt_set_name. */
  method RenameNode(fdt: array<byte>, nodeoff: int, name: seq<byte>) returns (code: int)
    requires Editable(fdt[..]) && nodeoff < 0x8000_0000
    modifies fdt
    ensures Res(code, fdt[..]) == SetName(old(fdt[..]), nodeoff, name)
  {
    code := WriteProbe(fdt);
    if code != 0 {
      return;
    }
    code := CheckNode(fdt, nodeoff);
    if code < 0 {
      return;
    }
    var was := ReadName(fdt, nodeoff);
    if was.None? {
      return STRAYS;
    }
    AlignDef(|was.value| + 1);
    AlignDef(|name| + 1);
    var offStruct := ReadWord(fdt, AT_OFF_STRUCT);
    code := SpliceStructure(fdt, nodeoff + 4, TagAlign(|was.value| + 1), TagAlign(|name| + 1));
    if code == 0 {
      WriteBytes(fdt, offStruct + nodeoff + 4, name + [0]);
    }
  }

  // ---- fdt_wip.c ----

  lemma {:induction false} NopsGrow(k: nat)
    ensures Nops(k + 1) == Nops(k) + Be32(FDT_NOP)
    decreases k
  {
    if k > 0 {
      NopsGrow(k - 1);
    }
  }

  /** fdt_nop_region_. */
  method NopWords(fdt: array<byte>, start: int, len: int)
    requires 0 <= start && start + 4 * NopCount(len) <= fdt.Length
    modifies fdt
    ensures fdt[..] == NopRegion(old(fdt[..]), start, len)
  {
    ghost var b := fdt[..];
    var k := 0;
    MoveNone(b, start, 0);
    assert b[0..0] == Nops(0);
    while 4 * k < len
      invariant 0 <= k <= NopCount(len)
      invariant fdt[..] == Put(b, start, Nops(k))
    {
      WriteWord(fdt, start + 4 * k, FDT_NOP);
      NopsGrow(k);
      PutPut(b, start, Nops(k), Be32(FDT_NOP));
      k := k + 1;
    }
  }

  lemma {:induction false} PutPut(s: seq<byte>, o: int, x: seq<byte>, y: seq<byte>)
    requires 0 <= o && o + |x| + |y| <= |s|
    ensures Put(Put(s, o, x), o + |x|, y) == Put(s, o, x + y)
  {
    var l, r := Put(Put(s, o, x), o + |x|, y), Put(s, o, x + y);
    forall i | 0 <= i < |s| ensures l[i] == r[i] {
      PutIndex(s, o, x, i);
      PutIndex(Put(s, o, x), o + |x|, y, i);
      PutIndex(s, o, x + y, i);
    }
  }

  /** fdt_nop_property. */
  method NopProp(fdt: array<byte>, nodeoff: int, name: seq<byte>) returns (code: int)
    requires Buf(fdt[..]) && nodeoff < 0x8000_0000
    modifies fdt
    ensures Res(code, fdt[..]) == NopProperty(old(fdt[..]), nodeoff, name)
  {
    var version := ReadWord(fdt, AT_VERSION);
    if version < 16 {
      return BADVERSION;
    }
    var p := FindProperty(fdt, nodeoff, name);
    if p < 0 {
      return p;
    }
    var offStruct := ReadWord(fdt, AT_OFF_STRUCT);
    if offStruct + p + 12 > fdt.Length {
      return STRAYS;
    }
    var stored := ReadWord(fdt, offStruct + p + 4);
    if offStruct + p + 4 * NopCount(NopLength(stored)) > fdt.Length {
      return STRAYS;
    }
    NopWords(fdt, offStruct + p, NopLength(stored));
    return 0;
  }

  /** fdt_nop_node. */
  method NopSubtree(fdt: array<byte>, nodeoff: int) returns (code: int)
    requires Buf(fdt[..]) && nodeoff < 0x8000_0000
    modifies fdt
    ensures Res(code, fdt[..]) == NopNode(old(fdt[..]), nodeoff)
  {
    var end := NodeEnd(fdt, nodeoff);
    if end < 0 {
      return end;
    }
    var offStruct := ReadWord(fdt, AT_OFF_STRUCT);
    if nodeoff < 0 || offStruct + nodeoff + 4 * NopCount(end - nodeoff) > fdt.Length {
      return STRAYS;
    }
    NopWords(fdt, offStruct + nodeoff, end - nodeoff);
    return 0;
  }
}
