/** The walkers of fdt.c, fdt_ro.c and fdt_wip.c as the loops they are, proved to compute
    the functions of Walk, Lookup and Edit.  Where a loop would not end they return
    DIVERGES, as those functions do. */
module Reader {
  import opened Bytes
  import opened Syntax
  import opened DeviceTree
  import opened Fdt
  import opened Walk
  import opened Blob
  import opened Lookup
  import opened Edit
  import opened Memory

  /** fdt_check_node_offset_. */
  method CheckNode(fdt: array<byte>, off: int) returns (r: int)
    requires Buf(fdt[..]) && off < 0x8000_0000
    ensures r == CheckNodeOffset(fdt[..], off)
  {
    if off < 0 || off % 4 != 0 {
      return BADOFFSET;
    }
    var tag, next := ReadTag(fdt, off);
    return if tag != FDT_BEGIN_NODE then BADOFFSET else next;
  }

  /** fdt_check_prop_offset_. */
  method CheckProp(fdt: array<byte>, off: int) returns (r: int)
    requires Buf(fdt[..]) && off < 0x8000_0000
    ensures r == CheckPropOffset(fdt[..], off)
  {
    if off < 0 || off % 4 != 0 {
      return BADOFFSET;
    }
    var tag, next := ReadTag(fdt, off);
    return if tag != FDT_PROP then BADOFFSET else next;
  }

  /** fdt_next_node: the offset it returns and the depth it leaves. */
  method StepNode(fdt: array<byte>, offset: int, depth0: int, track: bool) returns (r: int, depth: int)
    requires Buf(fdt[..]) && offset < 0x8000_0000
    ensures (r, depth) == NextNode(fdt[..], offset, depth0, track)
  {
    depth := depth0;
    var pos := 0;
    if offset >= 0 {
      NextTagBound(fdt[..], offset);
      pos := CheckNode(fdt, offset);
      if pos < 0 {
        return pos, depth;
      }
    }
    while true
      invariant Buf(fdt[..]) && pos < 0x8000_0000
      invariant NextNode(fdt[..], offset, depth0, track) == NextNodeLoop(fdt[..], pos, depth, track)
      decreases 0x8000_0000 - pos
    {
      NextTagBound(fdt[..], pos);
      var tag, next := ReadTag(fdt, pos);
      if tag == FDT_BEGIN_NODE {
        return pos, depth + 1;
      }
      if tag == FDT_END {
        return if next >= 0 || (next == TRUNCATED && !track) then NOTFOUND else next, depth;
      }
      var d := if tag == FDT_END_NODE then depth - 1 else depth;
      if tag == FDT_END_NODE && track && d < 0 {
        return next, d;
      }
      if next <= pos {
        return DIVERGES, depth;
      }
      pos, depth := next, d;
    }
  }

  /** fdt_node_end_offset_. */
  method NodeEnd(fdt: array<byte>, offset: int) returns (r: int)
    requires Buf(fdt[..]) && offset < 0x8000_0000
    ensures r == NodeEndOffset(fdt[..], offset)
  {
    r := offset;
    var depth := 0;
    while r >= 0 && depth >= 0
      invariant Buf(fdt[..]) && r < 0x8000_0000
      invariant NodeEndOffset(fdt[..], offset) == NodeEndLoop(fdt[..], r, depth)
      decreases 0x8000_0000 - r
    {
      NextTagBound(fdt[..], r);
      NextNodeBound(fdt[..], NextTag(fdt[..], r).1, depth, true);
      var o, d := StepNode(fdt, r, depth, true);
      if o < 0 || d < 0 {
        return o;
      }
      if o <= r {
        return DIVERGES;
      }
      r, depth := o, d;
    }
  }

  /** memchr for the NUL. */
  method FindNul(fdt: array<byte>, o: nat, end: nat) returns (n: Option<nat>)
    requires o <= end <= fdt.Length
    ensures n.Some? ==> o <= n.value < end && fdt[n.value] == 0 && forall i | o <= i < n.value :: fdt[i] != 0
    ensures n.None? ==> forall i | o <= i < end :: fdt[i] != 0
  {
    var i := o;
    while i < end
      invariant o <= i <= end && forall j | o <= j < i :: fdt[j] != 0
    {
      if fdt[i] == 0 {
        return Some(i);
      }
      i := i + 1;
    }
    return None;
  }

  /** The string that starts at o and must end before `end`. */
  method StringIn(fdt: array<byte>, o: nat, end: nat) returns (r: Option<seq<byte>>)
    requires o <= end <= fdt.Length
    ensures r == StrBody(fdt[..][o..end], 0)
  {
    ghost var s := fdt[..][o..end];
    assert forall i | o <= i < end :: fdt[i] == s[i - o];
    var n := FindNul(fdt, o, end);
    if n.None? {
      return None;
    }
    assert s[n.value - o] == 0;
    assert NulIndex(s, 0) == Some(n.value - o);
    assert s[0..n.value - o] == fdt[o..n.value];
    return Some(fdt[o..n.value]);
  }

  /** fdt_ro_probe_. */
  method Probe(fdt: array<byte>) returns (r: int)
    requires fdt.Length >= 40
    ensures r == RoProbe(fdt[..])
  {
    var magic := ReadWord(fdt, AT_MAGIC);
    var total := ReadWord(fdt, AT_TOTALSIZE);
    if magic == FDT_MAGIC {
      var version := ReadWord(fdt, AT_VERSION);
      var last := ReadWord(fdt, AT_LAST_COMP);
      if version < 2 || last > 17 {
        return BADVERSION;
      }
    } else if magic == FDT_SW_MAGIC {
      var size := ReadWord(fdt, AT_SIZE_STRUCT);
      if size == 0 {
        return BADSTATE;
      }
    } else {
      return BADMAGIC;
    }
    return if total < 0x7fff_ffff then total else TRUNCATED;
  }

  /** fdt_get_string. */
  method ReadString(fdt: array<byte>, stroff: int) returns (r: Option<seq<byte>>)
    requires Buf(fdt[..])
    ensures r == GetString(fdt[..], stroff)
  {
    GetStringDef(fdt[..], stroff);
    var total := Probe(fdt);
    if total < 0 {
      return None;
    }
    var offStrings := ReadWord(fdt, AT_OFF_STRINGS);
    var abs := U32(stroff + offStrings);
    if abs >= total {
      return None;
    }
    var len := total - abs;
    var magic := ReadWord(fdt, AT_MAGIC);
    var size := ReadWord(fdt, AT_SIZE_STRINGS);
    if magic == FDT_MAGIC {
      var version := ReadWord(fdt, AT_VERSION);
      if stroff < 0 {
        return None;
      }
      if version >= 17 {
        if stroff >= size {
          return None;
        }
        if size - stroff < len {
          len := size - stroff;
        }
      }
    } else {
      if stroff >= 0 || U32(-stroff) > size {
        return None;
      }
      if U32(-stroff) < len {
        len := U32(-stroff);
      }
    }
    r := StringIn(fdt, abs, abs + len);
  }

  /** nextprop_. */
  method StepProp(fdt: array<byte>, offset: int) returns (r: int)
    requires Buf(fdt[..]) && offset < 0x8000_0000
    ensures r == NextProp(fdt[..], offset)
  {
    r := offset;
    while true
      invariant Buf(fdt[..]) && r < 0x8000_0000
      invariant NextProp(fdt[..], offset) == NextProp(fdt[..], r)
      decreases 0x8000_0000 - r
    {
      NextTagBound(fdt[..], r);
      var tag, next := ReadTag(fdt, r);
      if tag == FDT_END {
        return if next >= 0 then BADSTRUCTURE else next;
      }
      if tag == FDT_PROP {
        return r;
      }
      if tag != FDT_NOP {
        return NOTFOUND;
      }
      if next <= r {
        return DIVERGES;
      }
      r := next;
    }
  }

  /** fdt_get_property_namelen_: the offset of the property or the error code. */
  method FindProperty(fdt: array<byte>, nodeoff: int, name: seq<byte>) returns (r: int)
    requires Buf(fdt[..]) && nodeoff < 0x8000_0000
    ensures r == GetProperty(fdt[..], nodeoff, name)
  {
    GetPropertyDef(fdt[..], nodeoff, name);
    NextTagBound(fdt[..], nodeoff);
    NextPropBound(fdt[..], NextTag(fdt[..], nodeoff).1);
    var offStruct := ReadWord(fdt, AT_OFF_STRUCT);
    r := CheckNode(fdt, nodeoff);
    if r < 0 {
      return;
    }
    r := StepProp(fdt, r);
    while r >= 0
      invariant Buf(fdt[..]) && r < 0x8000_0000
      invariant GetProperty(fdt[..], nodeoff, name) == PropertyLoop(fdt[..], r, name)
      decreases 0x8000_0000 - r
    {
      NextTagBound(fdt[..], r);
      var next := CheckProp(fdt, r);
      if next < 0 {
        return INTERNAL;
      }
      if offStruct + r + 12 > fdt.Length {
        return STRAYS;
      }
      var nameoff := ReadWord(fdt, offStruct + r + 8);
      var s := ReadString(fdt, I32(nameoff));
      if s == Some(name) {
        return;
      }
      NextPropBound(fdt[..], next);
      next := StepProp(fdt, next);
      if next < 0 {
        return next;
      }
      if next <= r {
        return DIVERGES;
      }
      r := next;
    }
  }

  /** fdt_get_name, for versions 16 and later. */
  method ReadName(fdt: array<byte>, off: int) returns (r: Option<seq<byte>>)
    requires Buf(fdt[..]) && off < 0x8000_0000
    ensures r == GetName(fdt[..], off)
  {
    var offStruct := ReadWord(fdt, AT_OFF_STRUCT);
    var total := Probe(fdt);
    var next := CheckNode(fdt, off);
    if total < 0 || next < 0 || offStruct + off + 4 > fdt.Length {
      return None;
    }
    r := StringIn(fdt, offStruct + off + 4, fdt.Length);
    StrTail(fdt[..], offStruct + off + 4);
    assert fdt[..][offStruct + off + 4..fdt.Length] == fdt[..][offStruct + off + 4..];
  }

  /** fdt_nodename_eq_. */
  method NameMatches(fdt: array<byte>, off: int, name: seq<byte>) returns (r: bool)
    requires Buf(fdt[..]) && off < 0x8000_0000
    ensures r == NodeMatches(fdt[..], off, name)
  {
    var p := ReadName(fdt, off);
    if p.None? || |p.value| < |name| || p.value[..|name|] != name {
      return false;
    }
    if |p.value| == |name| {
      return true;
    }
    return 64 !in name && p.value[|name|] == 64;
  }

  /** fdt_subnode_offset_namelen. */
  method FindSubnode(fdt: array<byte>, offset: int, name: seq<byte>) returns (r: int)
    requires Buf(fdt[..]) && offset < 0x8000_0000
    ensures r == SubnodeOffset(fdt[..], offset, name)
  {
    SubnodeOffsetDef(fdt[..], offset, name);
    r := Probe(fdt);
    if r < 0 {
      return;
    }
    var depth := 0;
    r := offset;
    while r >= 0 && depth >= 0
      invariant Buf(fdt[..]) && r < 0x8000_0000
      invariant SubnodeOffset(fdt[..], offset, name) == SubnodeLoop(fdt[..], r, depth, name)
      decreases 0x8000_0000 - r
    {
      var found := NameMatches(fdt, r, name);
      if depth == 1 && found {
        return;
      }
      NextTagBound(fdt[..], r);
      NextNodeBound(fdt[..], NextTag(fdt[..], r).1, depth, true);
      var o, d := StepNode(fdt, r, depth, true);
      if d < 0 {
        return NOTFOUND;
      }
      if o < 0 {
        return o;
      }
      if o <= r {
        return DIVERGES;
      }
      r, depth := o, d;
    }
    if depth < 0 {
      return NOTFOUND;
    }
  }

  /** fdt_find_string_ in the strings block from tab to tab + size: index or -1. */
  method SearchString(fdt: array<byte>, tab: nat, size: nat, s: seq<byte>) returns (r: int)
    requires tab + size <= fdt.Length
    ensures r == FindString(fdt[..][tab..tab + size], s, 0)
  {
    ghost var t := fdt[..][tab..tab + size];
    var i := 0;
    while i + |s| + 1 <= size
      invariant FindString(t, s, 0) == FindString(t, s, i)
    {
      SliceSlice(fdt[..], tab, tab + size, i, i + |s|);
      if fdt[tab + i..tab + i + |s|] == s && fdt[tab + i + |s|] == 0 {
        return i;
      }
      i := i + 1;
    }
    return -1;
  }

  /** The loop of fdt_add_subnode_namelen over properties and FDT_NOP words. */
  method AfterProps(fdt: array<byte>, off: int) returns (r: int)
    requires Buf(fdt[..]) && off < 0x8000_0000
    ensures r == SkipProps(fdt[..], off)
  {
    r := off;
    while true
      invariant Buf(fdt[..]) && r < 0x8000_0000
      invariant SkipProps(fdt[..], off) == SkipProps(fdt[..], r)
      decreases 0x8000_0000 - r
    {
      NextTagBound(fdt[..], r);
      var tag, next := ReadTag(fdt, r);
      if tag != FDT_PROP && tag != FDT_NOP {
        return;
      }
      if next <= r {
        return DIVERGES;
      }
      r := next;
    }
  }
}
