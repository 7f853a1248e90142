/** fdt_rw.c: the edits, as functions from the bytes of the buffer to the return code
    and the bytes afterwards. */
module Edit {
  import opened Bytes
  import opened Syntax
  import opened Fdt
  import opened Walk
  import opened Blob
  import opened Lookup
  import opened Splice

  /** A buffer the read-write functions may be called on.  The second clause leaves out
      headers whose ordering test passes only because a 32-bit sum wraps. */
  ghost predicate Editable(b: seq<byte>) {
    Buf(b) && Version(b) <= 17 && (RwProbe(b) == 0 ==> Sane(b))
  }

  /** Whether the string s with its NUL lies at i. */
  predicate StringHere(tab: seq<byte>, i: int, s: seq<byte>) {
    0 <= i && i + |s| + 1 <= |tab| && tab[i..i + |s|] == s && tab[i + |s|] == 0
  }

  /** fdt_find_string_ from index i on; -1 where it returns NULL. */
  function FindString(tab: seq<byte>, s: seq<byte>, i: nat): (r: int)
    ensures r == -1 || (i <= r && StringHere(tab, r, s) && forall j | i <= j < r :: !StringHere(tab, j, s))
    ensures r == -1 ==> forall j | i <= j :: !StringHere(tab, j, s)
    decreases |tab| - i
  {
    if i + |s| + 1 > |tab| then -1 else if StringHere(tab, i, s) then i else FindString(tab, s, i + 1)
  }

  /** fdt_find_add_string_: offset or error, and whether the string was allocated. */
  ghost function FindAddString(b: seq<byte>, s: seq<byte>): (r: (Res, bool))
    requires Sane(b)
    ensures |r.0.blob| == |b|
  {
    var p := FindString(Strings(b), s, 0);
    if p >= 0 then (Res(p, b), false)
    else
      var r := SpliceString(b, |s| + 1);
      if r.code != 0 then (r, false)
      else (Res(SizeStrings(b), Put(r.blob, DataSize(b), s + [0])), true)
  }

  ghost function AddPropertyBody(b: seq<byte>, nodeoff: int, name: seq<byte>, val: seq<byte>): (r: Res)
    requires Sane(b) && nodeoff < 0x8000_0000
    ensures |r.blob| == |b|
  {
    NextTagBound(b, nodeoff);
    var next := CheckNodeOffset(b, nodeoff);
    if next < 0 then Res(next, b)
    else
      var (f, added) := FindAddString(b, name);
      FindAddStringSane(b, name);
      if f.code < 0 then f
      else AddNamed(f.blob, next, f.code, added, name, val)
  }

  /** The structure half of fdt_add_property_: the property with the name at nameoff goes to
      the offset next; without room, a name just added is dropped again. */
  ghost function AddNamed(b: seq<byte>, next: int, nameoff: int, added: bool, name: seq<byte>, val: seq<byte>): (r: Res)
    requires Sane(b) && 0 <= next
    ensures |r.blob| == |b|
  {
    var r := SpliceStruct(b, next, 0, 12 + Align4(|val|));
    if r.code == 0 then Res(0, Put(r.blob, OffStruct(b) + next, Be32(FDT_PROP) + Be32(|val|) + Be32(nameoff) + val))
    else if added then Res(r.code, Set(r.blob, AT_SIZE_STRINGS, SizeStrings(r.blob) - (|name| + 1)))
    else r
  }

  ghost predicate IsAddProperty(b: seq<byte>, nodeoff: int, name: seq<byte>, val: seq<byte>, r: Res)
    requires Sane(b) && nodeoff < 0x8000_0000
  {
    |r.blob| == |b| && forall z :: Unseal(z) ==> r == AddPropertyBody(b, nodeoff, name, val)
  }

  /** fdt_add_property_ followed by the copy of the value; sealed. */
  ghost function AddProperty(b: seq<byte>, nodeoff: int, name: seq<byte>, val: seq<byte>): (r: Res)
    requires Sane(b) && nodeoff < 0x8000_0000
    ensures |r.blob| == |b|
  {
    assert IsAddProperty(b, nodeoff, name, val, AddPropertyBody(b, nodeoff, name, val));
    var r :| IsAddProperty(b, nodeoff, name, val, r);
    r
  }

  lemma {:induction false} AddPropertyDef(b: seq<byte>, nodeoff: int, name: seq<byte>, val: seq<byte>)
    requires Sane(b) && nodeoff < 0x8000_0000
    ensures AddProperty(b, nodeoff, name, val) == AddPropertyBody(b, nodeoff, name, val)
  {
    assert Unseal(0);
  }

  lemma {:induction false} FindAddStringSane(b: seq<byte>, s: seq<byte>)
    requires Sane(b)
    ensures Sane(FindAddString(b, s).0.blob)
  {
    SpliceStringIs(b, s + [0]);
  }

  /** fdt_resize_property_ of the property at p, followed by the copy of the value. */
  ghost function ResizeProperty(b: seq<byte>, p: int, oldlen: int, val: seq<byte>): (r: Res)
    requires Sane(b) && 0 <= p
    ensures |r.blob| == |b|
  {
    var r := SpliceStruct(b, p + 12, Align4(oldlen), Align4(|val|));
    if r.code != 0 then r
    else Res(0, Put(Put(r.blob, OffStruct(b) + p + 4, Be32(|val|)), OffStruct(b) + p + 12, val))
  }

  /** fdt_setprop. */
  ghost function SetProp(b: seq<byte>, nodeoff: int, name: seq<byte>, val: seq<byte>): (r: Res)
    requires Editable(b) && nodeoff < 0x8000_0000
    ensures |r.blob| == |b|
  {
    if RwProbe(b) != 0 then Res(RwProbe(b), b)
    else
      var p := GetProperty(b, nodeoff, name);
      if p >= 0 then
        if !PropFits(b, p) then Res(STRAYS, b) else ResizeProperty(b, p, I32(Ld32(b, OffStruct(b) + p + 4)), val)
      else if p == NOTFOUND then AddProperty(b, nodeoff, name, val)
      else Res(p, b)
  }

  /** fdt_delprop. */
  ghost function DelProp(b: seq<byte>, nodeoff: int, name: seq<byte>): (r: Res)
    requires Editable(b) && nodeoff < 0x8000_0000
    ensures |r.blob| == |b|
  {
    if RwProbe(b) != 0 then Res(RwProbe(b), b)
    else
      var p := GetProperty(b, nodeoff, name);
      if p < 0 then Res(p, b)
      else if !PropFits(b, p) then Res(STRAYS, b)
      else SpliceStruct(b, p, 12 + Align4(I32(Ld32(b, OffStruct(b) + p + 4))), 0)
  }

  /** The loop of fdt_add_subnode_namelen: first offset whose tag is neither a property nor a NOP. */
  ghost function SkipProps(b: seq<byte>, off: int): (r: int)
    requires Buf(b) && off < 0x8000_0000
    ensures r == DIVERGES || off <= r < 0x8000_0000
    decreases 0x8000_0000 - off
  {
    NextTagBound(b, off);
    var (tag, next) := NextTag(b, off);
    if tag != FDT_PROP && tag != FDT_NOP then off
    else if next <= off then DIVERGES
    else SkipProps(b, next)
  }

  function Zeros(n: nat): (s: seq<byte>)
    ensures |s| == n
  {
    seq(n, i => 0)
  }

  /** The bytes of a node without properties and subnodes. */
  ghost function EmptyNode(name: seq<byte>): (s: seq<byte>)
    ensures |s| == OpenSize(|name|) + 4
  {
    Be32(FDT_BEGIN_NODE) + (name + Zeros(Align4(|name| + 1) - |name|)) + Be32(FDT_END_NODE)
  }

  /** The second half of fdt_add_subnode_namelen: an empty node at off. */
  ghost function InsertNode(b: seq<byte>, off: int, name: seq<byte>): (r: Res)
    requires Sane(b) && 0 <= off
    ensures |r.blob| == |b|
  {
    var r := SpliceStruct(b, off, 0, OpenSize(|name|) + 4);
    if r.code != 0 then r else Res(off, Put(r.blob, OffStruct(b) + off, EmptyNode(name)))
  }

  /** fdt_add_subnode: the code is the offset of the new node. */
  ghost function AddSubnode(b: seq<byte>, parent: int, name: seq<byte>): (r: Res)
    requires Editable(b) && parent < 0x8000_0000
    ensures |r.blob| == |b|
  {
    if RwProbe(b) != 0 then Res(RwProbe(b), b)
    else
      var o := SubnodeOffset(b, parent, name);
      if o >= 0 then Res(EXISTS, b)
      else if o != NOTFOUND then Res(o, b)
      else
        NextTagBound(b, parent);
        var (tag, next) := NextTag(b, parent);
        if tag != FDT_BEGIN_NODE then Res(INTERNAL, b)
        else
          var off := SkipProps(b, next);
          if off < 0 then Res(off, b) else InsertNode(b, off, name)
  }

  /** fdt_del_node. */
  ghost function DelNode(b: seq<byte>, nodeoff: int): (r: Res)
    requires Editable(b) && nodeoff < 0x8000_0000
    ensures |r.blob| == |b|
  {
    if RwProbe(b) != 0 then Res(RwProbe(b), b)
    else
      var end := NodeEndOffset(b, nodeoff);
      if end < 0 then Res(end, b)
      else SpliceStruct(b, nodeoff, end - nodeoff, 0)
  }

  /** fdt_set_name. */
  ghost function SetName(b: seq<byte>, nodeoff: int, name: seq<byte>): (r: Res)
    requires Editable(b) && nodeoff < 0x8000_0000
    ensures |r.blob| == |b|
  {
    if RwProbe(b) != 0 then Res(RwProbe(b), b)
    else if CheckNodeOffset(b, nodeoff) < 0 then Res(CheckNodeOffset(b, nodeoff), b)
    else if GetName(b, nodeoff).None? then Res(STRAYS, b)
    else Rename(b, nodeoff, |GetName(b, nodeoff).value|, name)
  }

  /** The second half of fdt_set_name. */
  ghost function Rename(b: seq<byte>, nodeoff: int, oldlen: int, name: seq<byte>): (r: Res)
    requires Sane(b) && 0 <= nodeoff
    ensures |r.blob| == |b|
  {
    var r := SpliceStruct(b, nodeoff + 4, Align4(oldlen + 1), Align4(|name| + 1));
    if r.code != 0 then r else Res(0, Put(r.blob, OffStruct(b) + nodeoff + 4, name + [0]))
  }
}
