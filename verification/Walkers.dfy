/** The loops of fdt.c, fdt_ro.c, fdt_check.c and fdt_rw.c that Visit, Check, Paths and Pack
    describe by functions. */
module Walkers {
  import opened Bytes
  import opened Syntax
  import opened Fdt
  import opened Walk
  import opened Blob
  import opened Visit
  import opened Pack
  import opened Check
  import opened Paths
  import opened Memory
  import opened Reader

  /** fdt_first_subnode. */
  method FirstChild(fdt: array<byte>, off: int) returns (r: int)
    requires Buf(fdt[..]) && off < 0x8000_0000
    ensures r == FirstSubnode(fdt[..], off)
  {
    var o, d := StepNode(fdt, off, 0, true);
    return if o == DIVERGES then DIVERGES else if o < 0 || d != 1 then NOTFOUND else o;
  }

  /** fdt_next_subnode. */
  method NextChild(fdt: array<byte>, off: int) returns (r: int)
    requires Buf(fdt[..]) && off < 0x8000_0000
    ensures r == NextSubnode(fdt[..], off)
  {
    r := off;
    var depth := 1;
    while true
      invariant Buf(fdt[..]) && r < 0x8000_0000
      invariant NextSubnode(fdt[..], off) == NextSubnodeLoop(fdt[..], r, depth)
      decreases 0x8000_0000 - r
    {
      NextTagBound(fdt[..], if r < 0 then 0 else r);
      NextNodeBound(fdt[..], if r < 0 then 0 else NextTag(fdt[..], r).1, depth, true);
      var o, d := StepNode(fdt, r, depth, true);
      if o < 0 || d < 1 {
        return if o == DIVERGES then DIVERGES else NOTFOUND;
      }
      if d == 1 {
        return o;
      }
      if o <= r {
        return DIVERGES;
      }
      r, depth := o, d;
    }
  }

  /** fdt_supernode_atdepth_offset: the result, and *nodedepth if it is stored. */
  method FindSupernode(fdt: array<byte>, target: int, k: int) returns (r: int, nodedepth: Option<int>)
    requires Buf(fdt[..])
    ensures r == Supernode(fdt[..], target, k)
    ensures RoProbe(fdt[..]) >= 0 && k >= 0 ==> nodedepth == DepthLoop(fdt[..], 0, 0, target)
  {
    nodedepth := None;
    r := Probe(fdt);
    if r < 0 {
      return;
    }
    if k < 0 {
      return NOTFOUND, None;
    }
    var off, depth, acc := 0, 0, INTERNAL;
    while 0 <= off <= target
      invariant Buf(fdt[..]) && off < 0x8000_0000
      invariant SuperLoop(fdt[..], 0, 0, target, k, INTERNAL) == SuperLoop(fdt[..], off, depth, target, k, acc)
      invariant DepthLoop(fdt[..], 0, 0, target) == DepthLoop(fdt[..], off, depth, target)
      decreases 0x8000_0000 - off
    {
      if depth == k {
        acc := off;
      }
      if off == target {
        return if k > depth then NOTFOUND else acc, Some(depth);
      }
      NextTagBound(fdt[..], off);
      NextNodeBound(fdt[..], NextTag(fdt[..], off).1, depth, true);
      var o, d := StepNode(fdt, off, depth, true);
      if o < 0 {
        return SuperEnd(o), None;
      }
      if o <= off {
        return DIVERGES, None;
      }
      off, depth := o, d;
    }
    return SuperEnd(off), None;
  }

  /** fdt_node_depth. */
  method FindDepth(fdt: array<byte>, target: int) returns (r: int)
    requires Buf(fdt[..])
    ensures r == NodeDepth(fdt[..], target)
  {
    var err, nodedepth := FindSupernode(fdt, target, 0);
    if err != 0 {
      return if err < 0 then err else INTERNAL;
    }
    r := nodedepth.GetOr(INTERNAL);
  }

  /** fdt_parent_offset. */
  method FindParent(fdt: array<byte>, target: int) returns (r: int)
    requires Buf(fdt[..])
    ensures r == ParentOffset(fdt[..], target)
  {
    var depth := FindDepth(fdt, target);
    if depth < 0 {
      return depth;
    }
    var nodedepth: Option<int>;
    r, nodedepth := FindSupernode(fdt, target, depth - 1);
  }

  /** fdt_num_mem_rsv. */
  method CountReserved(fdt: array<byte>) returns (r: int)
    requires Buf(fdt[..]) && 40 <= TotalSize(fdt[..]) && OffRsv(fdt[..]) < 0x1_0000_0000
    ensures r == NumRsvFrom(fdt[..], 0)
  {
    var offRsv := ReadWord(fdt, AT_OFF_RSV);
    var total := ReadWord(fdt, AT_TOTALSIZE);
    var i := 0;
    while offRsv + 16 * i <= total - 16
      invariant offRsv + 16 * i < 0x1_0000_0000 && NumRsvFrom(fdt[..], 0) == NumRsvFrom(fdt[..], i)
    {
      var hi := ReadWord(fdt, offRsv + 16 * i + 8);
      var lo := ReadWord(fdt, offRsv + 16 * i + 12);
      if hi == 0 && lo == 0 {
        return i;
      }
      i := i + 1;
    }
    return TRUNCATED;
  }

  /** The loop of fdt_check_full. */
  method CheckTags(fdt: array<byte>) returns (code: int)
    requires Buf(fdt[..])
    ensures code == CheckLoop(fdt[..], 0, 0, false)
  {
    var offStruct := ReadWord(fdt, AT_OFF_STRUCT);
    var off, depth, expectEnd := 0, 0, false;
    while true
      invariant Buf(fdt[..]) && 0 <= off < 0x8000_0000 && 0 <= depth
      invariant CheckLoop(fdt[..], 0, 0, false) == CheckLoop(fdt[..], off, depth, expectEnd)
      decreases 0x8000_0000 - off
    {
      NextTagBound(fdt[..], off);
      var tag, next := ReadTag(fdt, off);
      if next < 0 {
        return next;
      }
      if expectEnd && tag != FDT_END {
        return BADSTRUCTURE;
      }
      if tag == FDT_END {
        return if depth != 0 then BADSTRUCTURE else 0;
      } else if tag == FDT_BEGIN_NODE {
        if depth + 1 > 0x7fff_ffff {
          return BADSTRUCTURE;
        }
        if depth == 0 {
          var name := ReadName(fdt, off);
          if name != Some([]) {
            return BADSTRUCTURE;
          }
        }
      } else if tag == FDT_END_NODE {
        if depth == 0 {
          return BADSTRUCTURE;
        }
      } else if tag == FDT_PROP {
        if offStruct + off + 12 > fdt.Length {
          return INTERNAL;
        }
        var nameoff := ReadWord(fdt, offStruct + off + 8);
        var name := ReadString(fdt, I32(nameoff));
        if name.None? {
          return INTERNAL;
        }
      }
      if next <= off {
        return DIVERGES;
      }
      if tag == FDT_BEGIN_NODE {
        depth := depth + 1;
      } else if tag == FDT_END_NODE {
        depth := depth - 1;
        expectEnd := expectEnd || depth == 0;
      }
      off := next;
    }
  }

  /** fdt_path_offset on an absolute path. */
  method ResolvePath(fdt: array<byte>, path: seq<byte>) returns (r: int)
    requires Buf(fdt[..]) && path != [] && path[0] == SLASH
    ensures r == PathOffset(fdt[..], path)
  {
    r := Probe(fdt);
    if r < 0 {
      return;
    }
    r := 0;
    var p := 0;
    while p < |path|
      invariant Buf(fdt[..]) && p <= |path| && PathFrom(fdt[..], path, 0, 0) == PathFrom(fdt[..], path, p, r)
      decreases |path| - p
    {
      var j := SkipSlashes(path, p);
      if j == |path| || r >= 0x8000_0000 {
        return;
      }
      var q := NextSlash(path, j);
      var o := FindSubnode(fdt, r, path[j..q]);
      if o < 0 {
        return o;
      }
      r, p := o, q;
    }
  }

  /** The loop of fdt_get_path; buf is what stands before p in the caller's buffer. */
  method WritePath(fdt: array<byte>, target: int, buflen: int) returns (code: int, text: seq<byte>)
    requires Buf(fdt[..])
    ensures PathResult(code, text) == GetPath(fdt[..], target, buflen)
  {
    code := Probe(fdt);
    if code < 0 {
      return code, [];
    }
    if buflen < 2 {
      return NOSPACE, [];
    }
    var off, depth, pdepth, buf := 0, 0, 0, [];
    while 0 <= off <= target
      invariant Buf(fdt[..]) && off < 0x8000_0000 && 0 <= pdepth
      invariant PathLoop(fdt[..], 0, 0, target, buflen, [], 0) ==
                PathLoop(fdt[..], off, depth, target, buflen, buf, pdepth)
      decreases 0x8000_0000 - off
    {
      var name := ReadName(fdt, off);
      if name.None? {
        return INTERNAL, [];
      }
      var visit := PathVisit(buf, pdepth, depth, name.value, buflen);
      buf, pdepth := visit.0, visit.1;
      if off == target {
        if pdepth < depth + 1 {
          return NOSPACE, [];
        }
        return 0, if |buf| > 1 then buf[..|buf| - 1] else buf;
      }
      NextTagBound(fdt[..], off);
      NextNodeBound(fdt[..], NextTag(fdt[..], off).1, depth, true);
      var o, d := StepNode(fdt, off, depth, true);
      if o < 0 {
        return SuperEnd(o), [];
      }
      if o <= off {
        return DIVERGES, [];
      }
      off, depth := o, d;
    }
    return SuperEnd(off), [];
  }

  // ---- fdt_pack ----

  method PackReserved(fdt: array<byte>, mem: nat)
    requires fdt.Length >= 40 && OffRsv(fdt[..]) + mem <= fdt.Length && 40 + mem <= fdt.Length
    modifies fdt
    ensures fdt[..] == PackRsv(old(fdt[..]), mem)
  {
    var off := ReadWord(fdt, AT_OFF_RSV);
    MemMove(fdt, 40, off, mem);
    WriteWord(fdt, AT_OFF_RSV, 40);
  }

  method PackStructure(fdt: array<byte>, to: nat, n: nat)
    requires fdt.Length >= 40 && OffStruct(fdt[..]) + n <= fdt.Length && to + n <= fdt.Length
    modifies fdt
    ensures fdt[..] == PackStruct(old(fdt[..]), to, n)
  {
    var off := ReadWord(fdt, AT_OFF_STRUCT);
    MemMove(fdt, to, off, n);
    WriteWord(fdt, AT_OFF_STRUCT, to);
    WriteWord(fdt, AT_SIZE_STRUCT, n);
  }

  method PackStringTable(fdt: array<byte>, to: nat, n: nat)
    requires fdt.Length >= 40 && OffStrings(fdt[..]) + n <= fdt.Length && to + n <= fdt.Length
    modifies fdt
    ensures fdt[..] == PackStrings(old(fdt[..]), to, n)
  {
    var off := ReadWord(fdt, AT_OFF_STRINGS);
    MemMove(fdt, to, off, n);
    WriteWord(fdt, AT_OFF_STRINGS, to);
    var size := ReadWord(fdt, AT_SIZE_STRINGS);
    WriteWord(fdt, AT_SIZE_STRINGS, size);
  }

  /** fdt_packblocks_ within one buffer, and the new totalsize. */
  method PackBlocks(fdt: array<byte>, mem: nat)
    requires Sane(fdt[..]) && OffRsv(fdt[..]) + mem <= OffStruct(fdt[..])
    modifies fdt
    ensures fdt[..] == PackAll(old(fdt[..]), mem)
  {
    PackBounds(fdt[..], mem);
    var st := ReadWord(fdt, AT_SIZE_STRUCT);
    var str := ReadWord(fdt, AT_SIZE_STRINGS);
    PackReserved(fdt, mem);
    PackStructure(fdt, 40 + mem, st);
    PackStringTable(fdt, 40 + mem + st, str);
    SetTotal(fdt);
  }

  method SetTotal(fdt: array<byte>)
    requires fdt.Length >= 40
    modifies fdt
    ensures fdt[..] == TotalSet(old(fdt[..]))
  {
    var off := ReadWord(fdt, AT_OFF_STRINGS);
    var size := ReadWord(fdt, AT_SIZE_STRINGS);
    WriteWord(fdt, AT_TOTALSIZE, off + size);
  }
}
