/** fdt_ro.c: strings, property lookup and subnode lookup on version 16 and 17 blobs. */
module Lookup {
  import opened Bytes
  import opened Syntax
  import opened DeviceTree
  import opened Fdt
  import opened Walk
  import opened Blob

  // ---- fdt_get_string, fdt_string_eq_ ----

  ghost function StringBody(b: seq<byte>, stroff: int): Option<seq<byte>>
    requires Buf(b)
  {
    var total := RoProbe(b);
    var abs := U32(stroff + OffStrings(b));
    if total < 0 || abs >= total then None
    else
      var len :=
        if Magic(b) == FDT_MAGIC then
          if stroff < 0 then -1
          else if Version(b) < 17 then total - abs
          else if stroff >= SizeStrings(b) then -1
          else if SizeStrings(b) - stroff < total - abs then SizeStrings(b) - stroff
          else total - abs
        else if stroff >= 0 || U32(-stroff) > SizeStrings(b) then -1
        else if U32(-stroff) < total - abs then U32(-stroff) else total - abs;
      if len < 0 then None else StrBody(b[abs..abs + len], 0)
  }

  ghost predicate IsString(b: seq<byte>, stroff: int, r: Option<seq<byte>>)
    requires Buf(b)
  {
    forall z :: Unseal(z) ==> r == StringBody(b, stroff)
  }

  /** fdt_get_string: the string, None where it returns NULL; sealed. */
  ghost function GetString(b: seq<byte>, stroff: int): Option<seq<byte>>
    requires Buf(b)
  {
    assert IsString(b, stroff, StringBody(b, stroff));
    var r :| IsString(b, stroff, r);
    r
  }

  lemma {:induction false} GetStringDef(b: seq<byte>, stroff: int)
    requires Buf(b)
    ensures GetString(b, stroff) == StringBody(b, stroff)
  {
    assert Unseal(0);
  }

  /** On a sane blob the string found is the one of the strings block. */
  lemma {:induction false} GetStringIs(b: seq<byte>, off: int)
    requires Sane(b) && 0 <= off < 0x1_0000_0000
    ensures GetString(b, I32(off)) == StrAt(Strings(b), off)
  {
    GetStringDef(b, I32(off));
    StrDef(Strings(b), off);
    U32Small(off);
    if off < SizeStrings(b) {
      U32Small(off + OffStrings(b));
      StringsDef(b);
      SliceSlice(b, OffStrings(b), DataSize(b), off, SizeStrings(b));
      StrTail(Strings(b), off);
    } else {
      StrBeyond(Strings(b), off);
    }
  }

  lemma {:induction false} StrTail(s: seq<byte>, off: int)
    requires 0 <= off <= |s|
    ensures StrBody(s[off..], 0) == StrBody(s, off)
  {
    var n := NulIndex(s, off);
    var m := NulIndex(s[off..], 0);
    assert forall i | 0 <= i < |s| - off :: s[off..][i] == s[off + i];
    if n.Some? {
      assert s[off..][n.value - off] == 0;
    }
    if m.Some? {
      assert s[off + m.value] == 0;
      assert s[off..][..m.value] == s[off..off + m.value];
    }
  }

  lemma {:induction false} StrBeyond(s: seq<byte>, off: int)
    requires off >= |s|
    ensures StrBody(s, off) == None
  {
  }

  /** fdt_string_eq_. */
  ghost predicate StringEq(b: seq<byte>, stroff: int, name: seq<byte>)
    requires Buf(b)
  {
    GetString(b, I32(stroff)) == Some(name)
  }

  // ---- properties ----

  /** nextprop_. */
  ghost function NextProp(b: seq<byte>, off: int): int
    requires Buf(b) && off < 0x8000_0000
    decreases 0x8000_0000 - off
  {
    NextTagBound(b, off);
    var (tag, next) := NextTag(b, off);
    if tag == FDT_END then (if next >= 0 then BADSTRUCTURE else next)
    else if tag == FDT_PROP then off
    else if tag != FDT_NOP then NOTFOUND
    else if next <= off then DIVERGES
    else NextProp(b, next)
  }

  lemma {:induction false} NextPropBound(b: seq<byte>, off: int)
    requires Buf(b) && off < 0x8000_0000
    ensures NextProp(b, off) < 0x8000_0000 && (NextProp(b, off) >= 0 ==> NextProp(b, off) >= off)
    decreases 0x8000_0000 - off
  {
    NextTagBound(b, off);
    var (tag, next) := NextTag(b, off);
    if tag == FDT_NOP && next > off {
      NextPropBound(b, next);
    }
  }

  /** The twelve header bytes of the property at off are in the buffer.  fdt_next_tag
      ensures this unless the stored length makes its 32-bit sum wrap. */
  ghost predicate PropFits(b: seq<byte>, off: int)
    requires |b| >= 40
  {
    0 <= off && OffStruct(b) + off + 12 <= |b|
  }

  /** fdt_first_property_offset. */
  ghost function FirstPropertyOffset(b: seq<byte>, off: int): int
    requires Buf(b) && off < 0x8000_0000
  {
    NextTagBound(b, off);
    var n := CheckNodeOffset(b, off);
    if n < 0 then n else NextProp(b, n)
  }

  /** fdt_next_property_offset. */
  ghost function NextPropertyOffset(b: seq<byte>, off: int): int
    requires Buf(b) && off < 0x8000_0000
  {
    NextTagBound(b, off);
    var n := CheckPropOffset(b, off);
    if n < 0 then n else NextProp(b, n)
  }

  /** The loop of fdt_get_property_namelen_ from the property offset (or error) off: the
      offset of the property found, or the error code left in *lenp. */
  ghost function PropertyLoop(b: seq<byte>, off: int, name: seq<byte>): int
    requires Buf(b) && off < 0x8000_0000
    decreases 0x8000_0000 - off
  {
    if off < 0 then off
    else
      NextTagBound(b, off);
      if CheckPropOffset(b, off) < 0 then INTERNAL
      else if !PropFits(b, off) then STRAYS
      else if StringEq(b, Ld32(b, OffStruct(b) + off + 8), name) then off
      else
        NextPropBound(b, CheckPropOffset(b, off));
        var next := NextPropertyOffset(b, off);
        if next < 0 then next
        else if next <= off then DIVERGES
        else PropertyLoop(b, next, name)
  }

  ghost function GetPropertyBody(b: seq<byte>, nodeoff: int, name: seq<byte>): int
    requires Buf(b) && nodeoff < 0x8000_0000
  {
    NextTagBound(b, nodeoff);
    NextPropBound(b, NextTag(b, nodeoff).1);
    PropertyLoop(b, FirstPropertyOffset(b, nodeoff), name)
  }

  ghost predicate IsGetProperty(b: seq<byte>, nodeoff: int, name: seq<byte>, r: int)
    requires Buf(b) && nodeoff < 0x8000_0000
  {
    forall z :: Unseal(z) ==> r == GetPropertyBody(b, nodeoff, name)
  }

  /** fdt_get_property_namelen_: offset of the property or error; sealed. */
  ghost function GetProperty(b: seq<byte>, nodeoff: int, name: seq<byte>): int
    requires Buf(b) && nodeoff < 0x8000_0000
  {
    assert IsGetProperty(b, nodeoff, name, GetPropertyBody(b, nodeoff, name));
    var r :| IsGetProperty(b, nodeoff, name, r);
    r
  }

  lemma {:induction false} GetPropertyDef(b: seq<byte>, nodeoff: int, name: seq<byte>)
    requires Buf(b) && nodeoff < 0x8000_0000
    ensures GetProperty(b, nodeoff, name) == GetPropertyBody(b, nodeoff, name)
  {
    assert Unseal(0);
  }

  // ---- properties against the items ----

  /** Distance to the first property of that name before the first subnode. */
  ghost function FindProp(t: Items, strs: seq<byte>, name: seq<byte>): Option<nat> {
    if !t.Leaf? then None
    else if t.tok.Prop? && StrAt(strs, t.tok.nameoff) == Some(name) then Some(0)
    else
      var r := FindProp(t.next, strs, name);
      if r.None? then None else Some(TokSize(t.tok) + r.value)
  }

  /** The property walk goes on from the token at pos. */
  ghost function PropFrom(b: seq<byte>, pos: int, name: seq<byte>): int
    requires Buf(b) && pos < 0x8000_0000
  {
    NextPropBound(b, pos);
    PropertyLoop(b, NextProp(b, pos), name)
  }

  lemma {:induction false} PropFromNop(b: seq<byte>, o: int, name: seq<byte>)
    requires On(b, o, Nop)
    ensures 0 <= o && o + 4 < 0x8000_0000 && PropFrom(b, o, name) == PropFrom(b, o + 4, name)
  {
    OnStep(b, o, Nop);
  }

  lemma {:induction false} PropFromProp(b: seq<byte>, o: int, k: Tok, name: seq<byte>)
    requires On(b, o, k) && k.Prop? && Sane(b) && StrAt(Strings(b), k.nameoff).Some?
    ensures 0 <= o && o + TokSize(k) < 0x8000_0000
    ensures PropFrom(b, o, name) ==
            if StrAt(Strings(b), k.nameoff) == Some(name) then o else PropFrom(b, o + TokSize(k), name)
  {
    OnStep(b, o, k);
    TokIs(Struct(b), o, k);
    LdStruct(b, o + 8);
    GetStringIs(b, k.nameoff);
    NextPropBound(b, o + TokSize(k));
  }

  /** The property walk finds the first property of that name, or none. */
  lemma {:induction false} PropFromItems(b: seq<byte>, o: int, t: Items, name: seq<byte>)
    requires Sane(b) && Aligned(o) && 0 <= o && Lies(Struct(b), o, t) && Named(t, Strings(b)) &&
             TokAt(Struct(b), o + Size(t)) == Close
    ensures o < 0x8000_0000
    ensures PropFrom(b, o, name) ==
            match FindProp(t, Strings(b), name) case Some(k) => o + k case None => NOTFOUND
    decreases t
  {
    SizeDef(t);
    match t
    case Nil => OnStep(b, o, Close);
    case Leaf(tok, next) =>
      LiesLeaf(Struct(b), o, tok, next);
      OnStep(b, o, tok);
      PropFromItems(b, o + TokSize(tok), next, name);
      if tok.Nop? {
        PropFromNop(b, o, name);
      } else {
        PropFromProp(b, o, tok, name);
      }
    case Node(nodename, body, next) =>
      LiesNode(Struct(b), o, nodename, body, next);
      OnStep(b, o, Open(nodename));
  }

  /** fdt_get_property finds the first property of that name of the node, or none. */
  lemma {:induction false} GetPropertyIs(b: seq<byte>, o: int, nodename: seq<byte>, body: Items, name: seq<byte>)
    requires Sane(b) && Aligned(o) && NodeLies(Struct(b), o, nodename, body) && Named(body, Strings(b))
    ensures 0 <= o < 0x8000_0000
    ensures GetProperty(b, o, name) ==
            match FindProp(body, Strings(b), name) case Some(k) => o + OpenSize(|nodename|) + k case None => NOTFOUND
  {
    OnStep(b, o, Open(nodename));
    GetPropertyDef(b, o, name);
    PropFromItems(b, o + OpenSize(|nodename|), body, name);
  }

  // ---- subnodes ----

  /** fdt_nodename_eq_ on a node name: equal, or equal up to the unit address when the
      name asked for has none. */
  predicate NodeNameEq(node: seq<byte>, name: seq<byte>) {
    |name| <= |node| && node[..|name|] == name && (|node| == |name| || (64 !in name && node[|name|] == 64))
  }

  /** What name asks for: the whole node name, or all of it before the unit address. */
  ghost predicate Called(node: seq<byte>, name: seq<byte>) {
    node == name || (64 !in name && exists addr :: node == name + [64] + addr)
  }

  lemma {:induction false} NodeNameIs(node: seq<byte>, name: seq<byte>)
    ensures NodeNameEq(node, name) <==> Called(node, name)
  {
    if NodeNameEq(node, name) && |node| > |name| {
      assert node == name + [64] + node[|name| + 1..];
    }
    if 64 !in name && exists addr :: node == name + [64] + addr {
      var addr :| node == name + [64] + addr;
      assert node[..|name|] == name && node[|name|] == 64;
    }
  }

  /** fdt_get_name, for versions 16 and later. */
  ghost function GetName(b: seq<byte>, off: int): Option<seq<byte>>
    requires Buf(b) && off < 0x8000_0000
  {
    if RoProbe(b) < 0 || CheckNodeOffset(b, off) < 0 || OffStruct(b) + off + 4 > |b| then None
    else StrBody(b, OffStruct(b) + off + 4)
  }

  ghost predicate NodeMatches(b: seq<byte>, off: int, name: seq<byte>)
    requires Buf(b) && off < 0x8000_0000
  {
    GetName(b, off).Some? && NodeNameEq(GetName(b, off).value, name)
  }

  lemma {:induction false} GetNameIs(b: seq<byte>, o: int, name: seq<byte>)
    requires On(b, o, Open(name)) && RoProbe(b) >= 0
    ensures 0 <= o < 0x8000_0000 && GetName(b, o) == Some(name)
  {
    OnStep(b, o, Open(name));
    TokIs(Struct(b), o, Open(name));
    var p := OffStruct(b) + o + 4;
    StructDef(b);
    SliceSlice(b, OffStruct(b), OffStruct(b) + SizeStruct(b), o + 4, o + 4 + |name|);
    assert b[p + |name|] == Struct(b)[o + 4 + |name|];
    NulIndexIs(b, p, name);
  }

  /** The loop of fdt_subnode_offset_namelen. */
  ghost function SubnodeLoop(b: seq<byte>, off: int, depth: int, name: seq<byte>): int
    requires Buf(b) && off < 0x8000_0000
    decreases 0x8000_0000 - off
  {
    if depth < 0 then NOTFOUND
    else if off < 0 then off
    else if depth == 1 && NodeMatches(b, off, name) then off
    else
      NextTagBound(b, off);
      NextNodeBound(b, NextTag(b, off).1, depth, true);
      var (o, d) := NextNode(b, off, depth, true);
      if d < 0 then NOTFOUND
      else if o < 0 then o
      else if o <= off then DIVERGES
      else SubnodeLoop(b, o, d, name)
  }

  ghost function SubnodeOffsetBody(b: seq<byte>, off: int, name: seq<byte>): int
    requires Buf(b) && off < 0x8000_0000
  {
    if RoProbe(b) < 0 then RoProbe(b) else SubnodeLoop(b, off, 0, name)
  }

  ghost predicate IsSubnodeOffset(b: seq<byte>, off: int, name: seq<byte>, r: int)
    requires Buf(b) && off < 0x8000_0000
  {
    forall z :: Unseal(z) ==> r == SubnodeOffsetBody(b, off, name)
  }

  /** fdt_subnode_offset_namelen; sealed. */
  ghost function SubnodeOffset(b: seq<byte>, off: int, name: seq<byte>): int
    requires Buf(b) && off < 0x8000_0000
  {
    assert IsSubnodeOffset(b, off, name, SubnodeOffsetBody(b, off, name));
    var r :| IsSubnodeOffset(b, off, name, r);
    r
  }

  lemma {:induction false} SubnodeOffsetDef(b: seq<byte>, off: int, name: seq<byte>)
    requires Buf(b) && off < 0x8000_0000
    ensures SubnodeOffset(b, off, name) == SubnodeOffsetBody(b, off, name)
  {
    assert Unseal(0);
  }

  // ---- subnodes against the items ----

  /** Distance to the first subnode that matches the name. */
  ghost function FindNode(t: Items, name: seq<byte>): Option<nat> {
    match t
    case Nil => None
    case Leaf(tok, next) =>
      var r := FindNode(next, name);
      if r.None? then None else Some(TokSize(tok) + r.value)
    case Node(nodename, body, next) =>
      if NodeNameEq(nodename, name) then Some(0)
      else
        var r := FindNode(next, name);
        if r.None? then None else Some(NodeSize(nodename, body) + r.value)
  }

  ghost function SubFrom(b: seq<byte>, pos: int, depth: int, name: seq<byte>): int
    requires Buf(b) && pos < 0x8000_0000
  {
    NextNodeBound(b, pos, depth, true);
    var (o, d) := NextNodeLoop(b, pos, depth, true);
    if d < 0 then NOTFOUND else if o < 0 then o else SubnodeLoop(b, o, d, name)
  }

  lemma {:induction false} SubFromOpen(b: seq<byte>, o: int, nodename: seq<byte>, depth: int, name: seq<byte>)
    requires Sane(b) && On(b, o, Open(nodename)) && depth >= 0
    ensures 0 <= o < 0x8000_0000 && o + OpenSize(|nodename|) < 0x8000_0000
    ensures SubnodeLoop(b, o, depth, name) ==
            if depth == 1 && NodeNameEq(nodename, name) then o else SubFrom(b, o + OpenSize(|nodename|), depth, name)
  {
    NextNodeOpen(b, o, Open(nodename), depth);
    GetNameIs(b, o, nodename);
    NextNodeBound(b, o + OpenSize(|nodename|), depth, true);
  }

  /** Below the first level the walk passes over complete items. */
  lemma {:induction false} SubFromDeep(b: seq<byte>, o: int, t: Items, depth: int, name: seq<byte>)
    requires Sane(b) && Aligned(o) && Lies(Struct(b), o, t) && depth >= 1 && 0 <= o && o + Size(t) <= SizeStruct(b)
    ensures SubFrom(b, o, depth, name) == SubFrom(b, o + Size(t), depth, name)
    decreases t, 0
  {
    SizeDef(t);
    match t
    case Nil =>
    case Leaf(tok, next) =>
      LiesLeaf(Struct(b), o, tok, next);
      OnStep(b, o, tok);
      NextNodeLeaf(b, o, tok, depth);
      SubFromDeep(b, o + TokSize(tok), next, depth, name);
    case Node(nodename, body, next) =>
      LiesNode(Struct(b), o, nodename, body, next);
      SubFromNode(b, o, nodename, body, depth, name);
      SubFromDeep(b, o + NodeSize(nodename, body), next, depth, name);
  }

  lemma {:induction false} SubFromNode(b: seq<byte>, o: int, nodename: seq<byte>, body: Items, depth: int,
    name: seq<byte>)
    requires Sane(b) && Aligned(o) && NodeLies(Struct(b), o, nodename, body) && depth >= 0
    ensures 0 <= o && o + NodeSize(nodename, body) <= SizeStruct(b) && Aligned(o + NodeSize(nodename, body))
    ensures SubFrom(b, o, depth, name) ==
            if depth == 0 && NodeNameEq(nodename, name) then o
              else SubFrom(b, o + NodeSize(nodename, body), depth, name)
    decreases body, 1
  {
    var m, e := NodeTags(b, o, nodename, body);
    NextNodeOpen(b, o, Open(nodename), depth);
    SubFromOpen(b, o, nodename, depth + 1, name);
    SubFromDeep(b, m, body, depth + 1, name);
    NextNodeClose(b, e, depth + 1);
  }

  /** At the first level the walk stops at the first subnode that matches. */
  lemma {:induction false} SubFromItems(b: seq<byte>, o: int, t: Items, name: seq<byte>)
    requires Sane(b) && Aligned(o) && Lies(Struct(b), o, t) && 0 <= o && TokAt(Struct(b), o + Size(t)) == Close
    ensures o < 0x8000_0000
    ensures SubFrom(b, o, 0, name) == match FindNode(t, name) case Some(k) => o + k case None => NOTFOUND
    decreases t
  {
    SizeDef(t);
    match t
    case Nil =>
      OnStep(b, o, Close);
      NextNodeClose(b, o, 0);
    case Leaf(tok, next) =>
      LiesLeaf(Struct(b), o, tok, next);
      OnStep(b, o, tok);
      NextNodeLeaf(b, o, tok, 0);
      SubFromItems(b, o + TokSize(tok), next, name);
    case Node(nodename, body, next) =>
      LiesNode(Struct(b), o, nodename, body, next);
      SubFromNode(b, o, nodename, body, 0, name);
      SubFromItems(b, o + NodeSize(nodename, body), next, name);
  }

  /** fdt_subnode_offset finds the first subnode that matches, or none. */
  lemma {:induction false} SubnodeOffsetIs(b: seq<byte>, o: int, nodename: seq<byte>, body: Items, name: seq<byte>)
    requires Sane(b) && Aligned(o) && NodeLies(Struct(b), o, nodename, body)
    ensures 0 <= o < 0x8000_0000
    ensures SubnodeOffset(b, o, name) ==
            match FindNode(body, name) case Some(k) => o + OpenSize(|nodename|) + k case None => NOTFOUND
  {
    var m, e := NodeTags(b, o, nodename, body);
    SubnodeOffsetDef(b, o, name);
    SubFromOpen(b, o, nodename, 0, name);
    SubFromItems(b, m, body, name);
  }
}
