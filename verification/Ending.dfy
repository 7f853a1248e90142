/** When the walkers end.  A walker fails to end only at a property that fdt_next_tag does not
    get past, and there are buffers with such a property. */
module Ending {
  import opened Bytes
  import opened Syntax
  import opened Fdt
  import opened Walk
  import opened Blob
  import opened Lookup
  import opened Splice
  import opened Edit
  import opened Wip
  import opened Visit
  import opened Paths
  import opened OpenInto

  // ---- fdt_next_node ----

  /** Tags at which the loop of fdt_next_node goes on. */
  predicate GoesOn(tag: int, depth: int, track: bool) {
    tag != FDT_BEGIN_NODE && tag != FDT_END && !(tag == FDT_END_NODE && track && depth - 1 < 0)
  }

  /** From pos the loop of fdt_next_node gets to the tag at q. */
  ghost predicate Runs(b: seq<byte>, pos: int, depth: int, track: bool, q: int)
    requires Buf(b) && pos < 0x8000_0000
    decreases 0x8000_0000 - pos
  {
    NextTagBound(b, pos);
    var (tag, next) := NextTag(b, pos);
    pos == q ||
    (GoesOn(tag, depth, track) && pos < next <= q &&
     Runs(b, next, if tag == FDT_END_NODE then depth - 1 else depth, track, q))
  }

  /** One step of a walk: fdt_next_tag goes forward, to an aligned offset, or stays at a stuck
      property, or fails. */
  lemma {:induction false} Step(b: seq<byte>, o: int)
    requires Buf(b) && Version(b) >= 16 && 0 <= o < 0x8000_0000 && Aligned(o)
    ensures var (tag, next) := NextTag(b, o);
            next < 0x8000_0000 && (next < 0 ==> tag == FDT_END && next != DIVERGES) &&
            (next >= 0 ==> next >= o && Aligned(next)) && (next == o <==> Stuck(b, o)) &&
            (tag != FDT_END ==> next >= o) && (Stuck(b, o) ==> tag == FDT_PROP)
  {
    NextTagAdvances(b, o);
    NextTagBound(b, o);
  }

  /** fdt_next_node never ends iff it gets to a stuck property. */
  lemma {:induction false} NextNodeDiverges(b: seq<byte>, pos: int, depth: int, track: bool)
    requires Buf(b) && Version(b) >= 16 && 0 <= pos < 0x8000_0000 && Aligned(pos)
    ensures NextNodeLoop(b, pos, depth, track).0 == DIVERGES <==>
            exists q :: Runs(b, pos, depth, track, q) && Stuck(b, q)
    decreases 0x8000_0000 - pos
  {
    Step(b, pos);
    var (tag, next) := NextTag(b, pos);
    if Stuck(b, pos) {
      assert Runs(b, pos, depth, track, pos);
    } else if GoesOn(tag, depth, track) {
      var d := if tag == FDT_END_NODE then depth - 1 else depth;
      NextNodeDiverges(b, next, d, track);
      if q :| Runs(b, next, d, track, q) && Stuck(b, q) {
        RunsForward(b, next, d, track, q);
        assert Runs(b, pos, depth, track, q);
      }
    } else {
      assert forall q :: Runs(b, pos, depth, track, q) ==> q == pos;
    }
  }

  lemma {:induction false} RunsForward(b: seq<byte>, pos: int, depth: int, track: bool, q: int)
    requires Buf(b) && pos < 0x8000_0000 && Runs(b, pos, depth, track, q)
    ensures pos <= q
  {
  }

  /** From a node, or an offset that is no node: the walk goes forward, or fails, or never ends. */
  lemma {:induction false} NodeStep(b: seq<byte>, o: int, depth: int)
    requires Buf(b) && Version(b) >= 16 && 0 <= o < 0x8000_0000
    ensures var (o', d) := NextNode(b, o, depth, true);
            (0 <= o' ==> o < o' < 0x8000_0000) &&
            (o' == DIVERGES <==> 0 <= CheckNodeOffset(b, o) < 0x8000_0000 && exists q ::
               Runs(b, CheckNodeOffset(b, o), depth, true, q) && Stuck(b, q))
  {
    NextTagBound(b, o);
    if o % 4 == 0 && NextTag(b, o).0 == FDT_BEGIN_NODE {
      AlignedMod(o);
      Step(b, o);
      NextNodeDiverges(b, CheckNodeOffset(b, o), depth, true);
      NextNodeBound(b, CheckNodeOffset(b, o), depth, true);
    }
  }

  // ---- the walkers over nodes ----

  /** A walker stops at a node of depth 1 that it looks for. */
  ghost predicate Found(b: seq<byte>, o: int, depth: int, name: Option<seq<byte>>)
    requires Buf(b) && o < 0x8000_0000
  {
    name.Some? && depth == 1 && NodeMatches(b, o, name.value)
  }

  /** Repeated calls of fdt_next_node lead from o, at that depth, to the offset `to` at depth d,
      with no depth below floor on the way, and past no node that is looked for. */
  ghost predicate Leads(b: seq<byte>, o: int, depth: int, to: int, d: int, floor: Option<int>, name: Option<seq<byte>>)
    requires Buf(b) && o < 0x8000_0000
    decreases 0x8000_0000 - o
  {
    (o == to && depth == d) ||
    (0 <= o && !Found(b, o, depth, name) &&
     var (o', d') := NextNode(b, o, depth, true);
     o < o' <= to && o' < 0x8000_0000 && (floor.Some? ==> floor.value <= d') && Leads(b, o', d', to, d, floor, name))
  }

  /** fdt_next_node never ends when called there. */
  ghost predicate Hangs(b: seq<byte>, o: int, depth: int)
    requires Buf(b) && o < 0x8000_0000
  {
    0 <= o && NextNode(b, o, depth, true).0 == DIVERGES
  }

  /** A walker that gets there, before its limit, does not get on. */
  ghost predicate Blocked(b: seq<byte>, to: int, d: int, name: Option<seq<byte>>, target: int)
    requires Buf(b)
  {
    to < target && to < 0x8000_0000 && Hangs(b, to, d) && !Found(b, to, d, name)
  }

  ghost predicate HangsBeyond(b: seq<byte>, o: int, depth: int, floor: Option<int>, name: Option<seq<byte>>,
    target: int)
    requires Buf(b) && o < 0x8000_0000
  {
    exists to, d :: Leads(b, o, depth, to, d, floor, name) && Blocked(b, to, d, name, target)
  }

  /** One step of a walker that goes on from o. */
  lemma {:induction false} HangsStep(b: seq<byte>, o: int, depth: int, floor: Option<int>, name: Option<seq<byte>>,
    target: int)
    requires Buf(b) && Version(b) >= 16 && 0 <= o < 0x8000_0000 && o < target && !Found(b, o, depth, name)
    ensures var (o', d') := NextNode(b, o, depth, true);
            HangsBeyond(b, o, depth, floor, name, target) <==>
            o' == DIVERGES ||
            (0 <= o' < 0x8000_0000 && (floor.Some? ==> floor.value <= d') &&
              HangsBeyond(b, o', d', floor, name, target))
  {
    NodeStep(b, o, depth);
    var (o', d') := NextNode(b, o, depth, true);
    if o' == DIVERGES {
      assert Leads(b, o, depth, o, depth, floor, name);
    } else if 0 <= o' && (floor.Some? ==> floor.value <= d') {
      if to, d :| Leads(b, o', d', to, d, floor, name) && Blocked(b, to, d, name, target) {
        LeadsForward(b, o', d', to, d, floor, name);
        assert Leads(b, o, depth, to, d, floor, name);
      }
    }
    if to, d :| Leads(b, o, depth, to, d, floor, name) && Blocked(b, to, d, name, target) {
      assert to == o && d == depth ==> o' == DIVERGES;
    }
  }

  lemma {:induction false} LeadsForward(b: seq<byte>, o: int, depth: int, to: int, d: int, floor: Option<int>,
    name: Option<seq<byte>>)
    requires Buf(b) && o < 0x8000_0000 && Leads(b, o, depth, to, d, floor, name)
    ensures o <= to
  {
  }

  /** Without a limit. */
  const ANYWHERE: int := 0x8000_0000

  /** At the end of a walk: the limit is reached, or the node is found. */
  lemma {:induction false} HangsNot(b: seq<byte>, o: int, depth: int, floor: Option<int>, name: Option<seq<byte>>,
    target: int)
    requires Buf(b) && o < 0x8000_0000 && (o < 0 || o >= target || Found(b, o, depth, name))
    ensures !HangsBeyond(b, o, depth, floor, name, target)
  {
    forall to, d | Leads(b, o, depth, to, d, floor, name) ensures !Blocked(b, to, d, name, target) {
      LeadsForward(b, o, depth, to, d, floor, name);
    }
  }

  /** fdt_node_end_offset_ never ends iff some call of fdt_next_node inside the node does not. */
  lemma {:induction false} NodeEndDiverges(b: seq<byte>, o: int, depth: int)
    requires Buf(b) && Version(b) >= 16 && 0 <= o < 0x8000_0000 && depth >= 0
    ensures NodeEndLoop(b, o, depth) == DIVERGES <==> HangsBeyond(b, o, depth, Some(0), None, ANYWHERE)
    decreases 0x8000_0000 - o
  {
    NextTagBound(b, o);
    NextNodeBound(b, NextTag(b, o).1, depth, true);
    NodeStep(b, o, depth);
    HangsStep(b, o, depth, Some(0), None, ANYWHERE);
    var (o', d) := NextNode(b, o, depth, true);
    if 0 <= o' && 0 <= d {
      NodeEndDiverges(b, o', d);
    }
  }

  /** fdt_subnode_offset never ends iff some call of fdt_next_node does not, inside the node and
      before the first match. */
  lemma {:induction false} SubnodeDiverges(b: seq<byte>, o: int, depth: int, name: seq<byte>)
    requires Buf(b) && Version(b) >= 16 && 0 <= o < 0x8000_0000 && depth >= 0
    ensures SubnodeLoop(b, o, depth, name) == DIVERGES <==> HangsBeyond(b, o, depth, Some(0), Some(name), ANYWHERE)
    decreases 0x8000_0000 - o
  {
    if Found(b, o, depth, Some(name)) {
      HangsNot(b, o, depth, Some(0), Some(name), ANYWHERE);
    } else {
      NextTagBound(b, o);
      NextNodeBound(b, NextTag(b, o).1, depth, true);
      NodeStep(b, o, depth);
      DivergesDepth(b, o, depth);
      HangsStep(b, o, depth, Some(0), Some(name), ANYWHERE);
      var (o', d) := NextNode(b, o, depth, true);
      if 0 <= o' && 0 <= d {
        SubnodeDiverges(b, o', d, name);
      }
    }
  }

  /** While fdt_next_node does not end, it stays below its caller's level. */
  lemma {:induction false} DivergesDepth(b: seq<byte>, o: int, depth: int)
    requires Buf(b) && 0 <= o < 0x8000_0000 && depth >= 0
    ensures var (o', d) := NextNode(b, o, depth, true); o' == DIVERGES ==> d >= 0
  {
    NextTagBound(b, o);
    if CheckNodeOffset(b, o) >= 0 {
      LoopDepth(b, CheckNodeOffset(b, o), depth);
    }
  }

  lemma {:induction false} LoopDepth(b: seq<byte>, pos: int, depth: int)
    requires Buf(b) && 0 <= pos < 0x8000_0000 && depth >= 0
    ensures NextNodeLoop(b, pos, depth, true).0 == DIVERGES ==> NextNodeLoop(b, pos, depth, true).1 >= 0
    decreases 0x8000_0000 - pos
  {
    NextTagBound(b, pos);
    var (tag, next) := NextTag(b, pos);
    if GoesOn(tag, depth, true) && pos < next {
      LoopDepth(b, next, if tag == FDT_END_NODE then depth - 1 else depth);
    }
  }

  /** fdt_next_subnode never ends iff some call of fdt_next_node does not, before the next node
      of the same level. */
  lemma {:induction false} NextSubnodeDiverges(b: seq<byte>, o: int, depth: int)
    requires Buf(b) && Version(b) >= 16 && 0 <= o < 0x8000_0000
    ensures NextSubnodeLoop(b, o, depth) == DIVERGES <==> HangsBeyond(b, o, depth, Some(2), None, ANYWHERE)
    decreases 0x8000_0000 - o
  {
    NextTagBound(b, o);
    NextNodeBound(b, NextTag(b, o).1, depth, true);
    NodeStep(b, o, depth);
    HangsStep(b, o, depth, Some(2), None, ANYWHERE);
    var (o', d) := NextNode(b, o, depth, true);
    if 0 <= o' && 1 < d {
      NextSubnodeDiverges(b, o', d);
    }
  }

  /** fdt_supernode_atdepth_offset never ends iff some call of fdt_next_node does not, before it
      gets to the node. */
  lemma {:induction false} SupernodeDiverges(b: seq<byte>, o: int, depth: int, target: int, k: int, acc: int)
    requires Buf(b) && Version(b) >= 16 && 0 <= o < 0x8000_0000 && acc != DIVERGES
    ensures SuperLoop(b, o, depth, target, k, acc) == DIVERGES <==> HangsBeyond(b, o, depth, None, None, target)
    decreases 0x8000_0000 - o
  {
    if 0 <= o < target {
      NextTagBound(b, o);
      NextNodeBound(b, NextTag(b, o).1, depth, true);
      NodeStep(b, o, depth);
      HangsStep(b, o, depth, None, None, target);
      var (o', d) := NextNode(b, o, depth, true);
      if 0 <= o' {
        SupernodeDiverges(b, o', d, target, k, if depth == k then o else acc);
      }
    } else {
      HangsNot(b, o, depth, None, None, target);
    }
  }

  /** A node that fdt_next_node can start from has a name. */
  lemma {:induction false} HasName(b: seq<byte>, o: int)
    requires Buf(b) && Version(b) >= 16 && 0 <= o < 0x8000_0000 && RoProbe(b) >= 0
    ensures CheckNodeOffset(b, o) >= 0 ==> GetName(b, o).Some?
  {
    NextTagDef(b, o);
    OffsetPtrMeans(b, o, 4);
    if CheckNodeOffset(b, o) >= 0 {
      NamedFrom(b, o + 4);
    }
  }

  lemma {:induction false} NamedFrom(b: seq<byte>, off: int)
    requires Buf(b) && 0 <= off < 0x8000_0000 && ScanName(b, off).Some?
    ensures OffStruct(b) + off < |b| && NulIndex(b, OffStruct(b) + off).Some?
    decreases |b| - off
  {
    OffsetPtrMeans(b, off, 1);
    if b[OffStruct(b) + off] != 0 {
      NamedFrom(b, off + 1);
    }
  }

  /** fdt_get_path never ends iff some call of fdt_next_node does not, before it gets to the node. */
  lemma {:induction false} GetPathDiverges(b: seq<byte>, o: int, depth: int, target: int, buflen: int, buf: seq<byte>,
    pdepth: nat)
    requires Buf(b) && Version(b) >= 16 && 0 <= o < 0x8000_0000 && RoProbe(b) >= 0
    ensures PathLoop(b, o, depth, target, buflen, buf, pdepth).code == DIVERGES <==>
            HangsBeyond(b, o, depth, None, None, target)
    decreases 0x8000_0000 - o
  {
    if 0 <= o < target {
      HasName(b, o);
      NextTagBound(b, o);
      NextNodeBound(b, NextTag(b, o).1, depth, true);
      NodeStep(b, o, depth);
      HangsStep(b, o, depth, None, None, target);
      var (o', d) := NextNode(b, o, depth, true);
      if 0 <= o' && GetName(b, o).Some? {
        var (buf', pd) := PathVisit(buf, pdepth, depth, GetName(b, o).value, buflen);
        GetPathDiverges(b, o', d, target, buflen, buf', pd);
      }
    } else {
      HangsNot(b, o, depth, None, None, target);
    }
  }

  // ---- the walkers over properties ----

  /** nextprop_ always ends: it goes on only past FDT_NOP. */
  lemma {:induction false} NextPropEnds(b: seq<byte>, o: int)
    requires Buf(b) && Version(b) >= 16 && 0 <= o < 0x8000_0000 && Aligned(o)
    ensures NextProp(b, o) != DIVERGES
    ensures NextProp(b, o) >= 0 ==>
              o <= NextProp(b, o) < 0x8000_0000 && Aligned(NextProp(b, o)) && NextTag(b, NextProp(b, o)).0 == FDT_PROP
    decreases 0x8000_0000 - o
  {
    Step(b, o);
    if NextTag(b, o).0 == FDT_NOP {
      NextPropEnds(b, NextTag(b, o).1);
    }
  }

  /** The property at o has another name. */
  ghost predicate Differs(b: seq<byte>, o: int, name: seq<byte>)
    requires Buf(b)
  {
    PropFits(b, o) && !StringEq(b, Ld32(b, OffStruct(b) + o + 8), name)
  }

  /** The search for the property leads from o to the property at q, all before it having other
      names. */
  ghost predicate Searches(b: seq<byte>, o: int, q: int, name: seq<byte>)
    requires Buf(b) && o < 0x8000_0000
    decreases 0x8000_0000 - o
  {
    o == q ||
    (0 <= o && CheckPropOffset(b, o) >= 0 && Differs(b, o, name) &&
     var next := NextPropertyOffset(b, o);
     o < next <= q && next < 0x8000_0000 && Searches(b, next, q, name))
  }

  /** The search for a property never ends iff it gets to a stuck property of another name. */
  lemma {:induction false} PropertyDiverges(b: seq<byte>, o: int, name: seq<byte>)
    requires Buf(b) && Version(b) >= 16 && 0 <= o < 0x8000_0000 && Aligned(o)
    ensures PropertyLoop(b, o, name) == DIVERGES <==>
            exists q :: Searches(b, o, q, name) && Stuck(b, q) && Differs(b, q, name)
    decreases 0x8000_0000 - o
  {
    NextTagBound(b, o);
    AlignedMod(o);
    Step(b, o);
    if NextTag(b, o).0 != FDT_PROP || !Differs(b, o, name) {
      forall q | Searches(b, o, q, name) && Stuck(b, q) ensures !Differs(b, q, name) {
        assert q == o;
      }
    } else {
      var n := CheckPropOffset(b, o);
      NextPropEnds(b, n);
      NextPropBound(b, n);
      if Stuck(b, o) {
        assert Searches(b, o, o, name);
      } else if NextProp(b, n) >= 0 {
        PropertyDiverges(b, NextProp(b, n), name);
        if q :| Searches(b, NextProp(b, n), q, name) && Stuck(b, q) && Differs(b, q, name) {
          SearchForward(b, NextProp(b, n), q, name);
          assert Searches(b, o, q, name);
        }
      }
    }
  }

  lemma {:induction false} SearchForward(b: seq<byte>, o: int, q: int, name: seq<byte>)
    requires Buf(b) && o < 0x8000_0000 && Searches(b, o, q, name)
    ensures o <= q
  {
  }

  /** The tags up to q are no other than those given. */
  ghost predicate Passing(b: seq<byte>, o: int, q: int, tags: set<int>)
    requires Buf(b) && o < 0x8000_0000
    decreases 0x8000_0000 - o
  {
    NextTagBound(b, o);
    var (tag, next) := NextTag(b, o);
    o == q || (tag in tags && o < next <= q && Passing(b, next, q, tags))
  }

  lemma {:induction false} PassingForward(b: seq<byte>, o: int, q: int, tags: set<int>)
    requires Buf(b) && o < 0x8000_0000 && Passing(b, o, q, tags)
    ensures o <= q
  {
  }

  /** A loop that goes on past certain tags gets to a stuck property iff there it is or behind the
      next tag. */
  lemma {:induction false} PassingStep(b: seq<byte>, o: int, tags: set<int>)
    requires Buf(b) && Version(b) >= 16 && 0 <= o < 0x8000_0000 && Aligned(o)
    ensures var (tag, next) := NextTag(b, o);
            next < 0x8000_0000 &&
            ((exists q :: Passing(b, o, q, tags) && Stuck(b, q)) <==>
             Stuck(b, o) || (tag in tags && o < next && exists q :: Passing(b, next, q, tags) && Stuck(b, q)))
  {
    Step(b, o);
    var (tag, next) := NextTag(b, o);
    if Stuck(b, o) {
      assert Passing(b, o, o, tags);
    } else if tag in tags && o < next {
      if q :| Passing(b, next, q, tags) && Stuck(b, q) {
        PassingForward(b, next, q, tags);
        assert Passing(b, o, q, tags);
      }
    }
  }

  /** The property loop of fdt_add_subnode_namelen never ends iff it gets to a stuck property. */
  lemma {:induction false} SkipPropsDiverges(b: seq<byte>, o: int)
    requires Buf(b) && Version(b) >= 16 && 0 <= o < 0x8000_0000 && Aligned(o)
    ensures SkipProps(b, o) == DIVERGES <==> exists q :: Passing(b, o, q, {FDT_PROP, FDT_NOP}) && Stuck(b, q)
    decreases 0x8000_0000 - o
  {
    Step(b, o);
    PassingStep(b, o, {FDT_PROP, FDT_NOP});
    if (NextTag(b, o).0 == FDT_PROP || NextTag(b, o).0 == FDT_NOP) && !Stuck(b, o) {
      SkipPropsDiverges(b, NextTag(b, o).1);
    }
  }

  /** The walk of fdt_open_into through a version 16 blob never ends iff a stuck property comes
      before FDT_END. */
  lemma {:induction false} WalkSizeDiverges(b: seq<byte>, o: int)
    requires Buf(b) && Version(b) >= 16 && 0 <= o < 0x8000_0000 && Aligned(o)
    ensures WalkSize(b, o) == DIVERGES <==>
            exists q :: Passing(b, o, q, {FDT_BEGIN_NODE, FDT_END_NODE, FDT_PROP, FDT_NOP}) && Stuck(b, q)
    decreases 0x8000_0000 - o
  {
    var tags := {FDT_BEGIN_NODE, FDT_END_NODE, FDT_PROP, FDT_NOP};
    Step(b, o);
    PassingStep(b, o, tags);
    KnownTag(b, o);
    if NextTag(b, o).0 != FDT_END && !Stuck(b, o) {
      WalkSizeDiverges(b, NextTag(b, o).1);
    }
  }

  lemma {:induction false} KnownTag(b: seq<byte>, o: int)
    requires Buf(b) && o < 0x8000_0000
    ensures NextTag(b, o).0 in {FDT_BEGIN_NODE, FDT_END_NODE, FDT_PROP, FDT_NOP, FDT_END}
  {
    NextTagDef(b, o);
  }

  // ---- the functions that callers use ----

  /** The lookups in a node, and the search for its end. */
  lemma {:induction false} LookupsDiverge(b: seq<byte>, o: int, name: seq<byte>)
    requires Buf(b) && Version(b) >= 16 && 0 <= o < 0x8000_0000
    ensures GetProperty(b, o, name) == DIVERGES <==>
            CheckNodeOffset(b, o) >= 0 && FirstPropertyOffset(b, o) >= 0 &&
            exists q :: FirstPropertyOffset(b, o) < 0x8000_0000 && Searches(b, FirstPropertyOffset(b, o), q, name) &&
              Stuck(b, q) && Differs(b, q, name)
    ensures SubnodeOffset(b, o, name) == DIVERGES <==>
            RoProbe(b) >= 0 && HangsBeyond(b, o, 0, Some(0), Some(name), ANYWHERE)
    ensures NodeEndOffset(b, o) == DIVERGES <==> HangsBeyond(b, o, 0, Some(0), None, ANYWHERE)
    ensures NextSubnode(b, o) == DIVERGES <==> HangsBeyond(b, o, 1, Some(2), None, ANYWHERE)
    ensures FirstSubnode(b, o) == DIVERGES <==> Hangs(b, o, 0)
  {
    GetPropertyDef(b, o, name);
    SubnodeOffsetDef(b, o, name);
    SubnodeDiverges(b, o, 0, name);
    NodeEndDiverges(b, o, 0);
    NextSubnodeDiverges(b, o, 1);
    FirstPropertyAt(b, o);
    if FirstPropertyOffset(b, o) >= 0 {
      PropertyDiverges(b, FirstPropertyOffset(b, o), name);
    }
  }

  lemma {:induction false} FirstPropertyAt(b: seq<byte>, o: int)
    requires Buf(b) && Version(b) >= 16 && 0 <= o < 0x8000_0000
    ensures FirstPropertyOffset(b, o) != DIVERGES
    ensures FirstPropertyOffset(b, o) >= 0 ==>
              CheckNodeOffset(b, o) >= 0 && FirstPropertyOffset(b, o) < 0x8000_0000 &&
                Aligned(FirstPropertyOffset(b, o))
  {
    NextTagBound(b, o);
    if o % 4 == 0 && NextTag(b, o).0 == FDT_BEGIN_NODE {
      AlignedMod(o);
      Step(b, o);
      NextPropEnds(b, CheckNodeOffset(b, o));
    }
  }

  /** The functions that walk from the root: the ancestors, the parent and the path of a node. */
  lemma {:induction false} AncestorsDiverge(b: seq<byte>, target: int, k: int, buflen: int)
    requires Buf(b) && Version(b) >= 16 && RoProbe(b) >= 0
    ensures var hangs := HangsBeyond(b, 0, 0, None, None, target);
            (Supernode(b, target, k) == DIVERGES <==> 0 <= k && hangs) &&
              (ParentOffset(b, target) == DIVERGES <==> hangs) &&
            (GetPath(b, target, buflen).code == DIVERGES <==> 2 <= buflen && hangs)
  {
    SupernodeDiverges(b, 0, 0, target, k, INTERNAL);
    SupernodeDiverges(b, 0, 0, target, 0, INTERNAL);
    SupernodeDiverges(b, 0, 0, target, NodeDepth(b, target) - 1, INTERNAL);
    GetPathDiverges(b, 0, 0, target, buflen, [], 0);
    DepthDecides(b, 0, 0, target, 0, INTERNAL);
  }

  /** The next component of the path at index i: its start and end. */
  function Component(path: seq<byte>, i: nat): (r: Option<(nat, nat)>)
    requires i <= |path|
    ensures r.Some? ==> i <= r.value.0 < r.value.1 <= |path|
  {
    var j := SkipSlashes(path, i);
    if j == |path| then None else Some((j, NextSlash(path, j)))
  }

  /** The path lookup from the node at o and index i gets to the node at `to` and index j. */
  ghost predicate Descends(b: seq<byte>, path: seq<byte>, i: nat, o: int, j: nat, to: int)
    requires Buf(b) && i <= |path|
    decreases |path| - i
  {
    (i == j && o == to) ||
    (o < 0x8000_0000 && Component(path, i).Some? &&
     var (s, e) := Component(path, i).value;
     var k := SubnodeOffset(b, o, path[s..e]);
     0 <= k && Descends(b, path, e, k, j, to))
  }

  /** The lookup of the next component does not end. */
  ghost predicate Sticks(b: seq<byte>, path: seq<byte>, j: nat, to: int)
    requires Buf(b)
  {
    j <= |path| && to < 0x8000_0000 && Component(path, j).Some? &&
    SubnodeOffset(b, to, path[Component(path, j).value.0..Component(path, j).value.1]) == DIVERGES
  }

  /** fdt_path_offset never ends iff the lookup of a component does not. */
  lemma {:induction false} PathDiverges(b: seq<byte>, path: seq<byte>, i: nat, o: int)
    requires Buf(b) && i <= |path| && o != DIVERGES
    ensures PathFrom(b, path, i, o) == DIVERGES <==>
            exists j, to :: Descends(b, path, i, o, j, to) && Sticks(b, path, j, to)
    decreases |path| - i
  {
    assert Descends(b, path, i, o, i, o);
    if Component(path, i).Some? && o < 0x8000_0000 {
      var (s, e) := Component(path, i).value;
      var k := SubnodeOffset(b, o, path[s..e]);
      if k >= 0 {
        PathDiverges(b, path, e, k);
        if j, to :| Descends(b, path, e, k, j, to) && Sticks(b, path, j, to) {
          assert Descends(b, path, i, o, j, to);
        }
        if j, to :| Descends(b, path, i, o, j, to) && Sticks(b, path, j, to) {
          assert Descends(b, path, e, k, j, to);
        }
      } else if j, to :| Descends(b, path, i, o, j, to) && Sticks(b, path, j, to) {
        assert j == i && to == o;
      }
    }
  }

  /** So without stuck properties everything ends. */
  lemma {:induction false} AllEnd(b: seq<byte>, o: int, name: seq<byte>, k: int, buflen: int)
    requires Buf(b) && Version(b) >= 16 && 0 <= o < 0x8000_0000 && forall q :: !Stuck(b, q)
    ensures forall d :: NextNode(b, o, d, true).0 != DIVERGES
    ensures GetProperty(b, o, name) != DIVERGES && SubnodeOffset(b, o, name) != DIVERGES
    ensures NodeEndOffset(b, o) != DIVERGES && FirstSubnode(b, o) != DIVERGES && NextSubnode(b, o) != DIVERGES
    ensures RoProbe(b) >= 0 ==>
              Supernode(b, o, k) != DIVERGES && ParentOffset(b, o) != DIVERGES && GetPath(b, o, buflen).code != DIVERGES
    ensures WalkSize(b, 0) != DIVERGES
  {
    forall d ensures NextNode(b, o, d, true).0 != DIVERGES {
      NodeStep(b, o, d);
    }
    NeverHangs(b);
    LookupsDiverge(b, o, name);
    AlignedConst();
    WalkSizeDiverges(b, 0);
    if RoProbe(b) >= 0 {
      AncestorsDiverge(b, o, k, buflen);
    }
  }

  lemma {:induction false} NeverHangs(b: seq<byte>)
    requires Buf(b) && Version(b) >= 16 && forall q :: !Stuck(b, q)
    ensures forall to, d | to < 0x8000_0000 :: !Hangs(b, to, d)
  {
    forall to, d | to < 0x8000_0000 ensures !Hangs(b, to, d) {
      if 0 <= to {
        NodeStep(b, to, d);
      }
    }
  }

  // ---- buffers ----

  /** The header of a buffer of n bytes with a structure block of size st at 40 and one byte of
      strings at 44. */
  ghost function Headed(n: nat, st: nat): (b: seq<byte>)
    requires n >= 48
    ensures |b| == n
  {
    var b0: seq<byte> := Zeros(n);
    var b1 := Set(Set(Set(b0, AT_MAGIC, FDT_MAGIC), AT_TOTALSIZE, n), AT_OFF_STRUCT, 40);
    var b2 := Set(Set(Set(b1, AT_OFF_STRINGS, 44), AT_VERSION, 17), AT_LAST_COMP, 16);
    Set(Set(b2, AT_SIZE_STRINGS, 1), AT_SIZE_STRUCT, st)
  }

  lemma {:induction false} HeadedIs(n: nat, st: nat)
    requires 48 <= n < 0x1_0000_0000 && st < 0x1_0000_0000
    ensures var b := Headed(n, st);
            Magic(b) == FDT_MAGIC && TotalSize(b) == n && OffStruct(b) == 40 && OffStrings(b) == 44 &&
              Version(b) == 17 &&
            LastComp(b) == 16 && SizeStrings(b) == 1 && SizeStruct(b) == st && b[40..] == Zeros(n)[40..]
  {
    var b0: seq<byte> := Zeros(n);
    var b1 := Set(b0, AT_MAGIC, FDT_MAGIC);
    var b2 := Set(b1, AT_TOTALSIZE, n);
    var b3 := Set(b2, AT_OFF_STRUCT, 40);
    var b4 := Set(b3, AT_OFF_STRINGS, 44);
    var b5 := Set(b4, AT_VERSION, 17);
    var b6 := Set(b5, AT_LAST_COMP, 16);
    var b7 := Set(b6, AT_SIZE_STRINGS, 1);
    SetHeader(b0, AT_MAGIC, FDT_MAGIC);
    SetHeader(b1, AT_TOTALSIZE, n);
    SetHeader(b2, AT_OFF_STRUCT, 40);
    SetHeader(b3, AT_OFF_STRINGS, 44);
    SetHeader(b4, AT_VERSION, 17);
    SetHeader(b5, AT_LAST_COMP, 16);
    SetHeader(b6, AT_SIZE_STRINGS, 1);
    SetHeader(b7, AT_SIZE_STRUCT, st);
    var b := Set(b7, AT_SIZE_STRUCT, st);
    assert b[40..n] == b0[40..n];
  }

  /** A word behind the header. */
  lemma {:induction false} PutWord(b: seq<byte>, o: nat, v: int)
    requires 40 <= |b| && 40 <= o && o + 4 <= |b| && 0 <= v < 0x1_0000_0000
    ensures var c := Put(b, o, Be32(v));
            HeaderOf(c) == HeaderOf(b) && Ld32(c, o) == v &&
            (forall p | 40 <= p <= |b| - 4 && (p + 4 <= o || o + 4 <= p) :: Ld32(c, p) == Ld32(b, p)) &&
            forall i | 40 <= i < |b| && (i < o || o + 4 <= i) :: c[i] == b[i]
  {
    var c := Put(b, o, Be32(v));
    PutSlice(b, o, Be32(v), 0, 40);
    HeaderKept(b, c);
    LdPutSame(b, o, v);
    forall p | 40 <= p <= |b| - 4 && (p + 4 <= o || o + 4 <= p) ensures Ld32(c, p) == Ld32(b, p) {
      LdPutOther(b, o, Be32(v), p);
    }
    forall i | 40 <= i < |b| && (i < o || o + 4 <= i) ensures c[i] == b[i] {
      PutIndex(b, o, Be32(v), i);
    }
  }

  /** A version 17 buffer on which fdt_next_tag stays at offset 0 and fdt_next_node never ends. */
  lemma {:induction false} SomeBufferDiverges()
    ensures exists b ::
              Buf(b) && Version(b) == 17 && NextTag(b, 0) == (FDT_PROP, 0) &&
              NextNode(b, -1, 0, true).0 == DIVERGES
  {
    HeadedIs(48, 8);
    var b0 := Headed(48, 8);
    PutWord(b0, 40, FDT_PROP);
    var b1 := Put(b0, 40, Be32(FDT_PROP));
    PutWord(b1, 44, 0xffff_fff4);
    var b := Put(b1, 44, Be32(0xffff_fff4));
    AlignedConst();
    assert Stuck(b, 0);
    NextTagAdvances(b, 0);
    assert Runs(b, 0, 0, true, 0);
    NextNodeDiverges(b, 0, 0, true);
  }

  /** A node with an empty name at 0 and, at 8, a property with one byte of value, an empty name
      and nothing behind it. */
  ghost predicate Unpadded(b: seq<byte>) {
    Buf(b) && |b| == 61 && Magic(b) == FDT_MAGIC && TotalSize(b) == 61 && OffStruct(b) == 40 &&
      OffStrings(b) == 44 && Version(b) == 17 &&
    LastComp(b) == 16 && SizeStrings(b) == 1 && SizeStruct(b) == 21 && Ld32(b, 40) == FDT_BEGIN_NODE && b[44] == 0 &&
    Ld32(b, 48) == FDT_PROP && Ld32(b, 52) == 1 && Ld32(b, 56) == 0
  }

  lemma {:induction false} UnpaddedTags(b: seq<byte>)
    requires Unpadded(b)
    ensures NextTag(b, 0) == (FDT_BEGIN_NODE, 8) && NextTag(b, 8) == (FDT_PROP, 24)
  {
    NextTagDef(b, 0);
    NextTagDef(b, 8);
    OffsetPtrMeans(b, 0, 4);
    OffsetPtrMeans(b, 4, 1);
    OffsetPtrMeans(b, 0, 5);
    OffsetPtrMeans(b, 8, 4);
    OffsetPtrMeans(b, 12, 4);
    OffsetPtrMeans(b, 8, 13);
    U32Small(5);
    U32Small(13);
    U32Small(21);
    AlignDef(5);
    AlignDef(21);
  }

  lemma {:induction false} UnpaddedName(b: seq<byte>)
    requires Unpadded(b)
    ensures GetString(b, I32(0)) == Some([])
  {
    U32Small(0);
    U32Small(44);
    GetStringDef(b, 0);
    var s := b[44..45];
    assert s[0] == 0;
    assert NulIndex(s, 0) == Some(0);
    assert s[0..0] == [];
  }

  /** fdt_nop_property does write outside some buffer. */
  lemma {:induction false} SomeNopStrays()
    ensures exists b ::
              Buf(b) && Version(b) == 17 && GetProperty(b, 0, []) == 8 &&
              NopProperty(b, 0, []) == Res(STRAYS, b)
  {
    HeadedIs(61, 21);
    var b0 := Headed(61, 21);
    PutWord(b0, 40, FDT_BEGIN_NODE);
    var b1 := Put(b0, 40, Be32(FDT_BEGIN_NODE));
    PutWord(b1, 48, FDT_PROP);
    var b2 := Put(b1, 48, Be32(FDT_PROP));
    PutWord(b2, 52, 1);
    var b3 := Put(b2, 52, Be32(1));
    PutWord(b3, 56, 0);
    var b := Put(b3, 56, Be32(0));
    assert b0[44] == b0[40..][4] == 0;
    assert Unpadded(b);
    UnpaddedStrays(b);
  }

  lemma {:induction false} UnpaddedStrays(b: seq<byte>)
    requires Unpadded(b)
    ensures GetProperty(b, 0, []) == 8 && NopProperty(b, 0, []) == Res(STRAYS, b)
  {
    UnpaddedTags(b);
    UnpaddedName(b);
    GetPropertyDef(b, 0, []);
    NopPropertyStrays(b, 0, []);
  }
}
