/** livetree.c and fdt_overlay.c: the __local_fixups__ tree that the compiler generates, and what
    the overlay code does with it. */
module LocalFixups {
  import opened Bytes
  import opened Syntax
  import opened DeviceTree
  import opened Fdt
  import opened Lookup
  import opened Overlay
  import opened OverlayRefs

  /** A REF_PHANDLE marker: its offset, and whether get_node_by_ref finds its target. */
  datatype Mark = Mark(off: nat, resolved: bool)

  datatype LiveProperty = LiveProperty(name: seq<byte>, val: seq<byte>, marks: seq<Mark>)

  /** A node of the live tree, without what is deleted. */
  datatype Source = Source(name: seq<byte>, props: seq<LiveProperty>, kids: seq<Source>)

  // ---- generate_local_fixups_tree ----

  /** get_subnode: the first child of exactly that name. */
  function Subnode(ks: seq<Tree>, name: seq<byte>): (r: Option<nat>)
    ensures r.Some? ==> r.value < |ks| && ks[r.value].name == name
    ensures r.None? ==> forall i | 0 <= i < |ks| :: ks[i].name != name
  {
    if ks == [] then None
    else if ks[0].name == name then Some(0)
    else
      var r := Subnode(ks[1..], name);
      assert forall i | 0 <= i < |ks| - 1 :: ks[1..][i] == ks[i + 1];
      if r.None? then None else Some(r.value + 1)
  }

  /** append_to_property. */
  function AppendTo(ps: seq<Property>, name: seq<byte>, x: seq<byte>): seq<Property> {
    var v := Value(ps, name);
    if v.Some? then SetFirst(ps, name, v.value + x) else ps + [Property(name, x)]
  }

  /** One step of the walk: the child of that name, created at the end if there is none. */
  function Step(fix: Tree, name: seq<byte>): (k: Tree)
    ensures k.name == name
  {
    var i := Subnode(fix.kids, name);
    if i.Some? then fix.kids[i.value] else Tree(name, [], [])
  }

  /** fix with the child where that step leads replaced by k. */
  function WithStep(fix: Tree, k: Tree): Tree {
    var i := Subnode(fix.kids, k.name);
    fix.(kids := if i.Some? then fix.kids[i.value := k] else fix.kids + [k])
  }

  /** add_local_fixup_entry for a node with the names ns below the root. */
  ghost function AddEntry(fix: Tree, ns: seq<seq<byte>>, name: seq<byte>, off: nat): (r: Tree)
    ensures r.name == fix.name
    decreases |ns|
  {
    if ns == [] then fix.(props := AppendTo(fix.props, name, Be32(off)))
    else WithStep(fix, AddEntry(Step(fix, ns[0]), ns[1..], name, off))
  }

  ghost function AddMarks(fix: Tree, ns: seq<seq<byte>>, name: seq<byte>, marks: seq<Mark>): (r: Tree)
    ensures r.name == fix.name
    decreases |marks|
  {
    if marks == [] then fix
    else AddMarks(if marks[0].resolved then AddEntry(fix, ns, name, marks[0].off) else fix, ns, name, marks[1..])
  }

  ghost function AddProps(fix: Tree, ns: seq<seq<byte>>, ps: seq<LiveProperty>): (r: Tree)
    ensures r.name == fix.name
    decreases |ps|
  {
    if ps == [] then fix else AddProps(AddMarks(fix, ns, ps[0].name, ps[0].marks), ns, ps[1..])
  }

  /** generate_local_fixups_tree_internal for the node t, with the names ns below the root. */
  ghost function Generate(fix: Tree, ns: seq<seq<byte>>, t: Source): (r: Tree)
    ensures r.name == fix.name
    decreases t, 1
  {
    AddKids(AddProps(fix, ns, t.props), ns, t.kids)
  }

  ghost function AddKids(fix: Tree, ns: seq<seq<byte>>, ks: seq<Source>): (r: Tree)
    ensures r.name == fix.name
    decreases ks, 0
  {
    if ks == [] then fix else AddKids(Generate(fix, ns + [ks[0].name], ks[0]), ns, ks[1..])
  }

  /** any_local_fixup_tree. */
  predicate Marked(t: Source)
    decreases t, 1
  {
    MarkedProps(t.props) || AnyMarked(t.kids)
  }

  predicate MarkedProps(ps: seq<LiveProperty>) { exists i :: 0 <= i < |ps| && Offsets(ps[i].marks) != [] }

  predicate AnyMarked(ks: seq<Source>)
    decreases ks, 0
  {
    exists i :: 0 <= i < |ks| && Marked(ks[i])
  }

  // ---- what is generated ----

  /** The offsets of the resolved markers. */
  function Offsets(marks: seq<Mark>): seq<nat> {
    if marks == [] then []
    else if marks[0].resolved then [marks[0].off] + Offsets(marks[1..])
    else Offsets(marks[1..])
  }

  ghost function Cells(offs: seq<nat>): (r: seq<byte>)
    ensures |r| == 4 * |offs|
  {
    if offs == [] then [] else Be32(offs[0]) + Cells(offs[1..])
  }

  /** One property for each that has a resolved marker, with the offsets of these. */
  ghost function MirrorProps(ps: seq<LiveProperty>): seq<Property> {
    if ps == [] then [] else MirrorProp(ps[0]) + MirrorProps(ps[1..])
  }

  ghost function MirrorProp(p: LiveProperty): seq<Property> {
    if Offsets(p.marks) == [] then [] else [Property(p.name, Cells(Offsets(p.marks)))]
  }

  /** One node for each that has a resolved marker in it or below it, in the same order. */
  ghost function Mirror(name: seq<byte>, t: Source): Tree
    decreases t, 1
  {
    Tree(name, MirrorProps(t.props), MirrorKids(t.kids))
  }

  ghost function MirrorKids(ks: seq<Source>): seq<Tree>
    decreases ks, 0
  {
    if ks == [] then []
    else (if Marked(ks[0]) then [Mirror(ks[0].name, ks[0])] else []) + MirrorKids(ks[1..])
  }

  predicate DistinctNames(ps: seq<LiveProperty>) { forall i, j | 0 <= i < j < |ps| :: ps[i].name != ps[j].name }

  predicate DistinctKids(ks: seq<Source>) { forall i, j | 0 <= i < j < |ks| :: ks[i].name != ks[j].name }

  /** Property names and sibling names are unique wherever there is a resolved marker below. */
  ghost predicate WellNamed(t: Source)
    decreases t, 1
  {
    DistinctNames(t.props) && DistinctKids(t.kids) && AllWellNamed(t.kids)
  }

  ghost predicate AllWellNamed(ks: seq<Source>)
    decreases ks, 0
  {
    forall i | 0 <= i < |ks| :: Marked(ks[i]) ==> WellNamed(ks[i])
  }

  // ---- the walk from the root does the same as one from the child ----

  /** From fix to fix' everything happened in the child of that name, which became k, or
      nothing happened at all. */
  ghost predicate Below(fix: Tree, fix': Tree, name: seq<byte>, touched: bool, k: Tree) {
    k.name == name && if touched then fix' == WithStep(fix, k) else fix' == fix && k == Step(fix, name)
  }

  lemma {:induction false} StepWith(fix: Tree, k: Tree, l: Tree)
    requires l.name == k.name
    ensures Step(WithStep(fix, k), k.name) == k && WithStep(WithStep(fix, k), l) == WithStep(fix, l)
  {
    var ks := WithStep(fix, k).kids;
    var i := Subnode(fix.kids, k.name);
    if i.Some? {
      SubnodeFirst(fix.kids, k.name, i.value);
      SubnodeFirst(ks, k.name, i.value);
    } else {
      SubnodeFirst(ks, k.name, |fix.kids|);
    }
  }

  lemma {:induction false} SubnodeFirst(ks: seq<Tree>, name: seq<byte>, i: nat)
    requires i < |ks| && ks[i].name == name
    ensures (forall j | 0 <= j < i :: ks[j].name != name) <==> Subnode(ks, name) == Some(i)
    decreases |ks|
  {
    if i > 0 {
      assert forall j | 0 <= j < |ks| - 1 :: ks[1..][j] == ks[j + 1];
      SubnodeFirst(ks[1..], name, i - 1);
      if forall j | 0 <= j < i - 1 :: ks[1..][j].name != name {
        assert forall j | 0 < j < i :: ks[j].name == ks[1..][j - 1].name;
      } else {
        var j :| 0 <= j < i - 1 && ks[1..][j].name == name;
        assert ks[j + 1].name == name;
      }
    }
  }

  lemma {:induction false} BelowTwice(a: Tree, b: Tree, c: Tree, name: seq<byte>, ab: bool, bc: bool, k: Tree, l: Tree)
    requires Below(a, b, name, ab, k) && Below(b, c, name, bc, l)
    ensures Below(a, c, name, ab || bc, l) && Step(b, name) == k
  {
    if ab {
      StepWith(a, k, l);
    }
  }

  lemma {:induction false} EntryBelow(fix: Tree, n: seq<byte>, ns: seq<seq<byte>>, name: seq<byte>, off: nat)
    ensures Below(fix, AddEntry(fix, [n] + ns, name, off), n, true, AddEntry(Step(fix, n), ns, name, off))
  {
    assert ([n] + ns)[1..] == ns;
  }

  lemma {:induction false} MarksBelow(fix: Tree, n: seq<byte>, ns: seq<seq<byte>>, name: seq<byte>, marks: seq<Mark>)
    ensures Below(fix, AddMarks(fix, [n] + ns, name, marks), n, Offsets(marks) != [],
              AddMarks(Step(fix, n), ns, name, marks))
    decreases |marks|
  {
    if marks != [] {
      var m := marks[0];
      if m.resolved {
        EntryBelow(fix, n, ns, name, m.off);
        var fix1 := AddEntry(fix, [n] + ns, name, m.off);
        var k := AddEntry(Step(fix, n), ns, name, m.off);
        StepWith(fix, k, k);
        MarksBelow(fix1, n, ns, name, marks[1..]);
        BelowTwice(fix, fix1, AddMarks(fix1, [n] + ns, name, marks[1..]), n, true, Offsets(marks[1..]) != [], k,
          AddMarks(k, ns, name, marks[1..]));
      } else {
        MarksBelow(fix, n, ns, name, marks[1..]);
      }
    }
  }

  lemma {:induction false} MarkedFirst(ps: seq<LiveProperty>)
    requires ps != []
    ensures MarkedProps(ps) <==> Offsets(ps[0].marks) != [] || MarkedProps(ps[1..])
  {
    if i :| 0 < i < |ps| && Offsets(ps[i].marks) != [] {
      assert ps[1..][i - 1] == ps[i];
    }
    if i :| 0 <= i < |ps| - 1 && Offsets(ps[1..][i].marks) != [] {
      assert ps[i + 1] == ps[1..][i];
    }
  }

  lemma {:induction false} AnyFirst(ks: seq<Source>)
    requires ks != []
    ensures AnyMarked(ks) <==> Marked(ks[0]) || AnyMarked(ks[1..])
  {
    if i :| 0 < i < |ks| && Marked(ks[i]) {
      assert ks[1..][i - 1] == ks[i];
    }
    if i :| 0 <= i < |ks| - 1 && Marked(ks[1..][i]) {
      assert ks[i + 1] == ks[1..][i];
    }
  }

  lemma {:induction false} PropsBelow(fix: Tree, n: seq<byte>, ns: seq<seq<byte>>, ps: seq<LiveProperty>)
    ensures Below(fix, AddProps(fix, [n] + ns, ps), n, MarkedProps(ps), AddProps(Step(fix, n), ns, ps))
    decreases |ps|
  {
    if ps != [] {
      MarkedFirst(ps);
      var fix1 := AddMarks(fix, [n] + ns, ps[0].name, ps[0].marks);
      var k := AddMarks(Step(fix, n), ns, ps[0].name, ps[0].marks);
      MarksBelow(fix, n, ns, ps[0].name, ps[0].marks);
      PropsBelow(fix1, n, ns, ps[1..]);
      BelowTwice(fix, fix1, AddProps(fix1, [n] + ns, ps[1..]), n, Offsets(ps[0].marks) != [], MarkedProps(ps[1..]), k,
        AddProps(Step(fix1, n), ns, ps[1..]));
    }
  }

  /** Generating the fixups of a node whose path starts with n works on the child n alone. */
  lemma {:induction false} GenerateBelow(fix: Tree, n: seq<byte>, ns: seq<seq<byte>>, t: Source)
    ensures Below(fix, Generate(fix, [n] + ns, t), n, Marked(t), Generate(Step(fix, n), ns, t))
    decreases t, 1
  {
    var fix1 := AddProps(fix, [n] + ns, t.props);
    var k := AddProps(Step(fix, n), ns, t.props);
    PropsBelow(fix, n, ns, t.props);
    KidsBelow(fix1, n, ns, t.kids);
    BelowTwice(fix, fix1, AddKids(fix1, [n] + ns, t.kids), n, MarkedProps(t.props), AnyMarked(t.kids), k,
      AddKids(Step(fix1, n), ns, t.kids));
  }

  lemma {:induction false} KidsBelow(fix: Tree, n: seq<byte>, ns: seq<seq<byte>>, ks: seq<Source>)
    ensures Below(fix, AddKids(fix, [n] + ns, ks), n, AnyMarked(ks), AddKids(Step(fix, n), ns, ks))
    decreases ks, 0
  {
    if ks != [] {
      AnyFirst(ks);
      assert [n] + ns + [ks[0].name] == [n] + (ns + [ks[0].name]);
      var fix1 := Generate(fix, [n] + ns + [ks[0].name], ks[0]);
      var k := Generate(Step(fix, n), ns + [ks[0].name], ks[0]);
      GenerateBelow(fix, n, ns + [ks[0].name], ks[0]);
      KidsBelow(fix1, n, ns, ks[1..]);
      BelowTwice(fix, fix1, AddKids(fix1, [n] + ns, ks[1..]), n, Marked(ks[0]), AnyMarked(ks[1..]), k,
        AddKids(Step(fix1, n), ns, ks[1..]));
    }
  }

  // ---- so the generated tree mirrors the source ----

  lemma {:induction false} MarksAppend(fix: Tree, name: seq<byte>, marks: seq<Mark>, qs: seq<Property>, x: seq<byte>)
    requires fix.props == qs + [Property(name, x)] && !HasProp(qs, name)
    ensures AddMarks(fix, [], name, marks) == fix.(props := qs + [Property(name, x + Cells(Offsets(marks)))])
    decreases |marks|
  {
    if marks == [] {
      assert x + Cells([]) == x;
    } else if marks[0].resolved {
      var y := x + Be32(marks[0].off);
      LastProp(qs, name, x, y);
      var fix1 := AddEntry(fix, [], name, marks[0].off);
      MarksAppend(fix1, name, marks[1..], qs, y);
      assert y + Cells(Offsets(marks[1..])) == x + Cells(Offsets(marks));
    } else {
      MarksAppend(fix, name, marks[1..], qs, x);
    }
  }

  /** The last property of a list, if none before it has its name. */
  lemma {:induction false} LastProp(qs: seq<Property>, name: seq<byte>, x: seq<byte>, y: seq<byte>)
    requires !HasProp(qs, name)
    ensures var ps := qs + [Property(name, x)];
            Value(ps, name) == Some(x) && SetFirst(ps, name, y) == qs + [Property(name, y)]
    decreases |qs|
  {
    var ps := qs + [Property(name, x)];
    if qs == [] {
      assert ps[1..] == [];
    } else {
      assert ps[1..] == qs[1..] + [Property(name, x)] && ps[0] == qs[0];
      assert forall i | 0 <= i < |qs| - 1 :: qs[1..][i] == qs[i + 1];
      LastProp(qs[1..], name, x, y);
    }
  }

  lemma {:induction false} MarksMirror(fix: Tree, name: seq<byte>, marks: seq<Mark>)
    requires !HasProp(fix.props, name)
    ensures AddMarks(fix, [], name, marks) ==
            if Offsets(marks) == [] then fix
            else fix.(props := fix.props + [Property(name, Cells(Offsets(marks)))])
    decreases |marks|
  {
    if marks != [] {
      if marks[0].resolved {
        HasValue(fix.props, name);
        MarksAppend(AddEntry(fix, [], name, marks[0].off), name, marks[1..], fix.props, Be32(marks[0].off));
      } else {
        MarksMirror(fix, name, marks[1..]);
      }
    }
  }

  lemma {:induction false} NotAmong(qs: seq<Property>, name: seq<byte>, x: seq<byte>, other: seq<byte>)
    requires !HasProp(qs, other) && other != name
    ensures !HasProp(qs + [Property(name, x)], other)
  {
  }

  /** No name of ps is among those of qs. */
  predicate NoneHere(qs: seq<Property>, ps: seq<LiveProperty>) {
    forall i | 0 <= i < |ps| :: !HasProp(qs, ps[i].name)
  }

  lemma {:induction false} TailProps(qs: seq<Property>, ps: seq<LiveProperty>, more: seq<Property>)
    requires ps != [] && DistinctNames(ps) && NoneHere(qs, ps)
    requires |more| <= 1 && (more != [] ==> more[0].name == ps[0].name)
    ensures !HasProp(qs, ps[0].name) && DistinctNames(ps[1..]) && NoneHere(qs + more, ps[1..])
  {
    assert forall i | 0 <= i < |ps| - 1 :: ps[1..][i] == ps[i + 1];
    assert more == [] || more == [Property(ps[0].name, more[0].val)];
    forall i | 0 <= i < |ps| - 1 ensures !HasProp(qs + more, ps[1..][i].name) {
      if more == [] {
        assert qs + more == qs;
      } else {
        NotAmong(qs, ps[0].name, more[0].val, ps[i + 1].name);
      }
    }
  }

  lemma {:induction false} PropsMirror(fix: Tree, ps: seq<LiveProperty>)
    requires DistinctNames(ps) && NoneHere(fix.props, ps)
    ensures AddProps(fix, [], ps) == fix.(props := fix.props + MirrorProps(ps))
    decreases |ps|
  {
    if ps == [] {
      assert fix.props + [] == fix.props;
    } else {
      var more := MirrorProp(ps[0]);
      TailProps(fix.props, ps, more);
      PropMirror(fix, ps[0]);
      PropsMirror(fix.(props := fix.props + more), ps[1..]);
      assert fix.props + more + MirrorProps(ps[1..]) == fix.props + (more + MirrorProps(ps[1..]));
    }
  }

  lemma {:induction false} PropMirror(fix: Tree, p: LiveProperty)
    requires !HasProp(fix.props, p.name)
    ensures AddMarks(fix, [], p.name, p.marks) == fix.(props := fix.props + MirrorProp(p))
  {
    MarksMirror(fix, p.name, p.marks);
    assert fix.props + [] == fix.props;
  }

  /** Generating into an empty node gives the mirror image: the nodes with resolved markers in or
      below them, each with the offsets of its own. */
  lemma {:induction false} GenerateIs(name: seq<byte>, t: Source)
    requires WellNamed(t)
    ensures Generate(Tree(name, [], []), [], t) == Mirror(name, t)
    decreases t, 1
  {
    PropsMirror(Tree(name, [], []), t.props);
    assert [] + MirrorProps(t.props) == MirrorProps(t.props);
    KidsMirror(Tree(name, MirrorProps(t.props), []), t.kids);
    assert [] + MirrorKids(t.kids) == MirrorKids(t.kids);
  }

  /** No name of ks is among those of ts. */
  predicate NoneThere(ts: seq<Tree>, ks: seq<Source>) {
    forall i, j | 0 <= i < |ks| && 0 <= j < |ts| :: ks[i].name != ts[j].name
  }

  lemma {:induction false} TailKids(ts: seq<Tree>, ks: seq<Source>, more: seq<Tree>)
    requires ks != [] && DistinctKids(ks) && AllWellNamed(ks) && NoneThere(ts, ks)
    requires |more| <= 1 && (more != [] ==> more[0].name == ks[0].name)
    ensures DistinctKids(ks[1..]) && AllWellNamed(ks[1..]) && NoneThere(ts + more, ks[1..])
    ensures forall j | 0 <= j < |ts| :: ts[j].name != ks[0].name
  {
    assert forall i | 0 <= i < |ks| - 1 :: ks[1..][i] == ks[i + 1];
  }

  lemma {:induction false} KidsMirror(fix: Tree, ks: seq<Source>)
    requires DistinctKids(ks) && AllWellNamed(ks) && NoneThere(fix.kids, ks)
    ensures AddKids(fix, [], ks) == fix.(kids := fix.kids + MirrorKids(ks))
    decreases ks, 0
  {
    if ks == [] {
      assert fix.kids + [] == fix.kids;
    } else {
      var more := if Marked(ks[0]) then [Mirror(ks[0].name, ks[0])] else [];
      TailKids(fix.kids, ks, more);
      if Marked(ks[0]) {
        GenerateIs(ks[0].name, ks[0]);
      }
      KidMirror(fix, ks[0]);
      KidsMirror(fix.(kids := fix.kids + more), ks[1..]);
      assert fix.kids + more + MirrorKids(ks[1..]) == fix.kids + (more + MirrorKids(ks[1..]));
    }
  }

  lemma {:induction false} KidMirror(fix: Tree, k: Source)
    requires forall j | 0 <= j < |fix.kids| :: fix.kids[j].name != k.name
    requires Marked(k) ==> Generate(Tree(k.name, [], []), [], k) == Mirror(k.name, k)
    ensures Generate(fix, [] + [k.name], k) ==
            fix.(kids := fix.kids + if Marked(k) then [Mirror(k.name, k)] else [])
  {
    assert [k.name] + [] == [k.name] && [] + [k.name] == [k.name];
    GenerateBelow(fix, k.name, [], k);
    assert Subnode(fix.kids, k.name).None?;
    assert fix.kids + [] == fix.kids;
  }

  // ---- what the overlay code makes of it ----

  /** The node as it is flattened: without its markers. */
  function Strip(t: Source): Tree
    decreases t, 1
  {
    Tree(t.name, StripProps(t.props), StripKids(t.kids))
  }

  function StripProps(ps: seq<LiveProperty>): (qs: seq<Property>)
    ensures |qs| == |ps| && forall i | 0 <= i < |ps| :: qs[i] == Property(ps[i].name, ps[i].val)
  {
    if ps == [] then [] else [Property(ps[0].name, ps[0].val)] + StripProps(ps[1..])
  }

  function StripKids(ks: seq<Source>): (ts: seq<Tree>)
    ensures |ts| == |ks| && forall i | 0 <= i < |ks| :: ts[i] == Strip(ks[i])
    decreases ks, 0
  {
    if ks == [] then [] else [Strip(ks[0])] + StripKids(ks[1..])
  }

  /** The cells lie in n bytes. */
  predicate Inside(offs: seq<nat>, n: nat) { forall i | 0 <= i < |offs| :: offs[i] + 4 <= n }

  /** delta added to the cells at the given offsets. */
  ghost function Raise(v: seq<byte>, offs: seq<nat>, delta: int): (r: seq<byte>)
    requires Inside(offs, |v|)
    ensures |r| == |v|
    decreases |offs|
  {
    if offs == [] then v
    else
      assert forall i | 0 <= i < |offs| - 1 :: offs[1..][i] == offs[i + 1];
      Raise(Put(v, offs[0], Be32(U32(Ld32(v, offs[0]) + delta))), offs[1..], delta)
  }

  /** Every resolved marker stands at a cell of its value. */
  predicate CellsThere(p: LiveProperty) {
    Inside(Offsets(p.marks), |p.val|) && (Offsets(p.marks) != [] ==> |p.val| < 0x1_0000_0000)
  }

  predicate CellsAll(ps: seq<LiveProperty>) { forall i | 0 <= i < |ps| :: CellsThere(ps[i]) }

  ghost predicate AllCells(t: Source)
    decreases t, 1
  {
    CellsAll(t.props) && KidsCells(t.kids)
  }

  ghost predicate KidsCells(ks: seq<Source>)
    decreases ks, 0
  {
    forall i | 0 <= i < |ks| :: AllCells(ks[i])
  }

  ghost function RaiseProp(p: LiveProperty, delta: int): Property
    requires CellsThere(p)
  {
    Property(p.name, Raise(p.val, Offsets(p.marks), delta))
  }

  ghost function RaiseProps(ps: seq<LiveProperty>, delta: int): (qs: seq<Property>)
    requires CellsAll(ps)
    ensures |qs| == |ps|
    ensures forall i | 0 <= i < |ps| :: qs[i] == RaiseProp(ps[i], delta)
  {
    if ps == [] then [] else [RaiseProp(ps[0], delta)] + RaiseProps(ps[1..], delta)
  }

  /** The intended result: delta is added to exactly the cells with a resolved marker. */
  ghost function Relocated(t: Source, delta: int): Tree
    requires AllCells(t)
    decreases t, 1
  {
    Tree(t.name, RaiseProps(t.props, delta), RelocatedKids(t.kids, delta))
  }

  ghost function RelocatedKids(ks: seq<Source>, delta: int): (ts: seq<Tree>)
    requires KidsCells(ks)
    ensures |ts| == |ks| && forall i | 0 <= i < |ks| :: ts[i] == Relocated(ks[i], delta)
    decreases ks, 0
  {
    if ks == [] then [] else [Relocated(ks[0], delta)] + RelocatedKids(ks[1..], delta)
  }

  /** No earlier sibling is what fdt_subnode_offset takes for the i-th child: none has its name
      in front of an '@', if its name has no unit address. */
  predicate FoundFirst(ks: seq<Source>, i: nat)
    requires i < |ks|
  {
    forall j | 0 <= j < i :: !NodeNameEq(ks[j].name, ks[i].name)
  }

  /** So for every child with a resolved marker in or below it, at all levels. */
  predicate Unambiguous(t: Source)
    decreases t
  {
    forall i | 0 <= i < |t.kids| :: Marked(t.kids[i]) ==> FoundFirst(t.kids, i) && Unambiguous(t.kids[i])
  }

  ghost predicate ResolvesBody(t: Source, delta: int) {
    AllCells(t) && Update(Strip(t), Mirror(t.name, t), delta) == Ok(Relocated(t, delta))
  }

  ghost predicate IsResolves(t: Source, delta: int, r: bool) { forall z :: Unseal(z) ==> r == ResolvesBody(t, delta) }

  /** The overlay code does what is intended; sealed. */
  ghost predicate Resolves(t: Source, delta: int) {
    assert IsResolves(t, delta, ResolvesBody(t, delta));
    var r :| IsResolves(t, delta, r);
    r
  }

  lemma {:induction false} ResolvesDef(t: Source, delta: int)
    ensures Resolves(t, delta) == ResolvesBody(t, delta)
  {
    assert Unseal(0);
  }

  // ---- one value ----

  lemma {:induction false} CellsAt(offs: seq<nat>, k: nat)
    requires k < |offs| && offs[k] < 0x1_0000_0000
    ensures Ld32(Cells(offs), 4 * k) == offs[k]
    decreases k
  {
    var c := Cells(offs);
    if k == 0 {
      LdBe32(c, 0, offs[0]);
    } else {
      CellsAt(offs[1..], k - 1);
      SameDef(c, 4 * k, Cells(offs[1..]), 4 * k - 4, 4);
      LdSame(c, 4 * k, Cells(offs[1..]), 4 * k - 4);
    }
  }

  lemma {:induction false} BumpIsRaise(v: seq<byte>, offs: seq<nat>, k: nat, delta: int)
    requires k <= |offs| && |v| < 0x1_0000_0000 && Inside(offs, |v|)
    ensures Bump(v, Cells(offs), k, delta) == Ok(Raise(v, offs[k..], delta))
    decreases |offs| - k
  {
    if k < |offs| {
      CellsAt(offs, k);
      assert offs[k..][0] == offs[k] && offs[k..][1..] == offs[k + 1..];
      assert forall i | 0 <= i < |offs| - k :: offs[k..][i] == offs[k + i];
      U32Small(offs[k] + 4);
      BumpIsRaise(Put(v, offs[k], Be32(U32(Ld32(v, offs[k]) + delta))), offs, k + 1, delta);
    }
  }

  // ---- the properties of a node ----

  lemma {:induction false} PropsRaised(done: seq<Property>, ps: seq<LiveProperty>, delta: int)
    requires DistinctNames(ps) && NoneHere(done, ps) && CellsAll(ps)
    ensures UpdateProps(done + StripProps(ps), MirrorProps(ps), delta) == Ok(done + RaiseProps(ps, delta))
    decreases |ps|
  {
    if ps == [] {
      assert done + StripProps(ps) == done + RaiseProps(ps, delta);
    } else {
      var p' := RaiseProp(ps[0], delta);
      TailProps(done, ps, [p']);
      TailCells(ps);
      PropsRaised(done + [p'], ps[1..], delta);
      PropRaised(done, ps, delta);
      RaiseFirst(done, ps, delta);
    }
  }

  lemma {:induction false} RaiseFirst(done: seq<Property>, ps: seq<LiveProperty>, delta: int)
    requires ps != [] && CellsAll(ps) && CellsAll(ps[1..])
    ensures done + [RaiseProp(ps[0], delta)] + RaiseProps(ps[1..], delta) == done + RaiseProps(ps, delta)
  {
    assert RaiseProps(ps, delta) == [RaiseProp(ps[0], delta)] + RaiseProps(ps[1..], delta);
  }

  lemma {:induction false} TailCells(ps: seq<LiveProperty>)
    requires ps != [] && CellsAll(ps)
    ensures CellsThere(ps[0]) && CellsAll(ps[1..])
  {
    assert forall i | 0 <= i < |ps| - 1 :: ps[1..][i] == ps[i + 1];
  }

  /** One round of the loop, or none if the property has no resolved marker. */
  lemma {:induction false} PropRaised(done: seq<Property>, ps: seq<LiveProperty>, delta: int)
    requires ps != [] && CellsThere(ps[0]) && !HasProp(done, ps[0].name)
    ensures var p' := RaiseProp(ps[0], delta);
            UpdateProps(done + StripProps(ps), MirrorProps(ps), delta) ==
            UpdateProps(done + [p'] + StripProps(ps[1..]), MirrorProps(ps[1..]), delta)
  {
    var p, offs := ps[0], Offsets(ps[0].marks);
    var p' := RaiseProp(p, delta);
    assert done + [p'] + StripProps(ps[1..]) == done + ([p'] + StripProps(ps[1..]));
    if offs == [] {
      assert [] + MirrorProps(ps[1..]) == MirrorProps(ps[1..]);
    } else {
      InFront(done, Property(p.name, p.val), StripProps(ps[1..]), p'.val);
      assert offs[0..] == offs;
      BumpIsRaise(p.val, offs, 0, delta);
      var fs := MirrorProps(ps);
      assert fs[0] == Property(p.name, Cells(offs)) && fs[1..] == MirrorProps(ps[1..]);
    }
  }

  /** The first property of its name, and the list with another value for it. */
  lemma {:induction false} InFront(qs: seq<Property>, p: Property, rs: seq<Property>, y: seq<byte>)
    requires !HasProp(qs, p.name)
    ensures Value(qs + ([p] + rs), p.name) == Some(p.val)
    ensures SetFirst(qs + ([p] + rs), p.name, y) == qs + ([Property(p.name, y)] + rs)
    decreases |qs|
  {
    var ps := qs + ([p] + rs);
    if qs == [] {
      assert ps == [p] + rs && ps[1..] == rs;
    } else {
      assert ps[1..] == qs[1..] + ([p] + rs) && ps[0] == qs[0];
      assert forall i | 0 <= i < |qs| - 1 :: qs[1..][i] == qs[i + 1];
      InFront(qs[1..], p, rs, y);
    }
  }

  // ---- the children ----

  /** Without resolved markers nothing is relocated. */
  lemma {:induction false} UnmarkedStays(t: Source, delta: int)
    requires AllCells(t) && !Marked(t)
    ensures Relocated(t, delta) == Strip(t)
    decreases t
  {
    forall i | 0 <= i < |t.props| ensures RaiseProps(t.props, delta)[i] == StripProps(t.props)[i] {
      assert Offsets(t.props[i].marks) == [];
    }
    forall i | 0 <= i < |t.kids| ensures RelocatedKids(t.kids, delta)[i] == StripKids(t.kids)[i] {
      UnmarkedStays(t.kids[i], delta);
    }
  }

  lemma {:induction false} SameName(name: seq<byte>)
    ensures NodeNameEq(name, name)
  {
    assert name[..|name|] == name;
  }

  lemma {:induction false} MatchFirst(ks: seq<Source>, ts: seq<Tree>, i: nat)
    requires Homonyms(StripKids(ks), ts) && i < |ks|
    ensures Match(ts, ks[i].name) == Some(i) <==> FoundFirst(ks, i)
  {
    SameName(ks[i].name);
    NamesOf(ks, ts);
    if Match(ts, ks[i].name) == Some(i) {
      assert forall j | 0 <= j < i :: !NodeNameEq(ts[j].name, ks[i].name);
    }
  }

  lemma {:induction false} NamesOf(ks: seq<Source>, ts: seq<Tree>)
    requires Homonyms(StripKids(ks), ts)
    ensures forall j | 0 <= j < |ks| :: ts[j].name == ks[j].name
  {
    forall j | 0 <= j < |ks| ensures ts[j].name == ks[j].name {
      assert StripKids(ks)[j] == Strip(ks[j]);
    }
  }

  /** A child that no fixup child matches is not touched. */
  lemma {:induction false} Untouched(ts: seq<Tree>, fs: seq<Tree>, delta: int, i: nat)
    requires i < |ts| && FixFor(ts, fs, i).None? && UpdateKids(ts, fs, delta).Ok?
    ensures var rs := UpdateKids(ts, fs, delta).value; |rs| == |ts| && rs[i] == ts[i]
    decreases |fs|
  {
    if fs != [] {
      var m := Match(ts, fs[0].name).value;
      var us := ts[m := Update(ts[m], fs[0], delta).value];
      assert Homonyms(ts, us);
      FixForHomonyms(ts, us, fs[1..], i);
      Untouched(us, fs[1..], delta, i);
    }
  }

  /** A child that no marked child is taken for has no fixup child. */
  lemma {:induction false} NoFix(ks: seq<Source>, ts: seq<Tree>, from: nat, i: nat)
    requires from <= |ks| && forall l | from <= l < |ks| && Marked(ks[l]) :: Match(ts, ks[l].name) != Some(i)
    ensures FixFor(ts, MirrorKids(ks[from..]), i).None?
    decreases |ks| - from
  {
    if from < |ks| {
      NoFix(ks, ts, from + 1, i);
      MirrorFrom(ks, from);
    }
  }

  lemma {:induction false} MirrorFrom(ks: seq<Source>, i: nat)
    requires i < |ks|
    ensures Marked(ks[i]) ==> MirrorKids(ks[i..]) == [Mirror(ks[i].name, ks[i])] + MirrorKids(ks[i + 1..])
    ensures !Marked(ks[i]) ==> MirrorKids(ks[i..]) == MirrorKids(ks[i + 1..])
  {
    assert ks[i..][0] == ks[i] && ks[i..][1..] == ks[i + 1..];
    assert [] + MirrorKids(ks[i + 1..]) == MirrorKids(ks[i + 1..]);
  }

  /** The first i children relocated, the others as they were. */
  ghost function Upto(ks: seq<Source>, i: nat, delta: int): (ts: seq<Tree>)
    requires KidsCells(ks) && i <= |ks|
    ensures |ts| == |ks| && Homonyms(StripKids(ks), ts)
    ensures forall j | 0 <= j < |ks| :: ts[j] == if j < i then Relocated(ks[j], delta) else Strip(ks[j])
  {
    RelocatedKids(ks, delta)[..i] + StripKids(ks)[i..]
  }

  predicate AllFound(ks: seq<Source>) { forall l | 0 <= l < |ks| && Marked(ks[l]) :: FoundFirst(ks, l) }

  /** From the i-th child on. */
  ghost predicate AllResolve(ks: seq<Source>, i: nat, delta: int)
    requires i <= |ks|
    decreases |ks| - i
  {
    i == |ks| || ((Marked(ks[i]) ==> Resolves(ks[i], delta)) && AllResolve(ks, i + 1, delta))
  }

  lemma {:induction false} AllResolveIs(ks: seq<Source>, i: nat, delta: int)
    requires i <= |ks|
    ensures AllResolve(ks, i, delta) <==> forall l | i <= l < |ks| && Marked(ks[l]) :: Resolves(ks[l], delta)
    decreases |ks| - i
  {
    if i < |ks| {
      AllResolveIs(ks, i + 1, delta);
    }
  }

  /** If every marked child is found first, the children end up relocated iff the overlay code
      does what is intended for each of them. */
  lemma {:induction false} KidsResolve(ks: seq<Source>, i: nat, delta: int)
    requires KidsCells(ks) && AllFound(ks) && i <= |ks|
    ensures UpdateKids(Upto(ks, i, delta), MirrorKids(ks[i..]), delta) == Ok(RelocatedKids(ks, delta)) <==>
            AllResolve(ks, i, delta)
    decreases |ks| - i
  {
    if i == |ks| {
      assert Upto(ks, i, delta) == RelocatedKids(ks, delta);
    } else {
      KidsStep(ks, i, delta);
      KidsResolve(ks, i + 1, delta);
    }
  }

  /** One round of the loop, or none if the child has no fixup child. */
  lemma {:induction false} KidsStep(ks: seq<Source>, i: nat, delta: int)
    requires KidsCells(ks) && AllFound(ks) && i < |ks|
    ensures var r := UpdateKids(Upto(ks, i, delta), MirrorKids(ks[i..]), delta);
            if Marked(ks[i]) && !Resolves(ks[i], delta) then r != Ok(RelocatedKids(ks, delta))
            else r == UpdateKids(Upto(ks, i + 1, delta), MirrorKids(ks[i + 1..]), delta)
  {
    MirrorFrom(ks, i);
    if Marked(ks[i]) {
      OwnMatch(ks, Upto(ks, i, delta), i);
      KidResolves(ks, i, delta);
    } else {
      KidStays(ks, i, delta);
    }
  }

  lemma {:induction false} KidStays(ks: seq<Source>, i: nat, delta: int)
    requires KidsCells(ks) && i < |ks| && !Marked(ks[i])
    ensures Upto(ks, i, delta) == Upto(ks, i + 1, delta)
  {
    UnmarkedStays(ks[i], delta);
  }

  lemma {:induction false} KidResolves(ks: seq<Source>, i: nat, delta: int)
    requires KidsCells(ks) && AllFound(ks) && i < |ks| && Marked(ks[i])
    requires Match(Upto(ks, i, delta), ks[i].name) == Some(i)
    requires MirrorKids(ks[i..]) == [Mirror(ks[i].name, ks[i])] + MirrorKids(ks[i + 1..])
    ensures var r := UpdateKids(Upto(ks, i, delta), MirrorKids(ks[i..]), delta);
            if Resolves(ks[i], delta) then r == UpdateKids(Upto(ks, i + 1, delta), MirrorKids(ks[i + 1..]), delta)
            else r != Ok(RelocatedKids(ks, delta))
  {
    var ts := Upto(ks, i, delta);
    var fs := MirrorKids(ks[i..]);
    assert fs[0] == Mirror(ks[i].name, ks[i]) && fs[1..] == MirrorKids(ks[i + 1..]);
    var u := Update(ts[i], fs[0], delta);
    ResolvesDef(ks[i], delta);
    if Resolves(ks[i], delta) {
      assert ts[i := u.value] == Upto(ks, i + 1, delta);
    } else if u.Ok? {
      var us := ts[i := u.value];
      UpdateNamed(ts[i], fs[0], delta);
      assert Homonyms(StripKids(ks), us);
      NoneLater(ks, us, i);
      if UpdateKids(us, MirrorKids(ks[i + 1..]), delta).Ok? {
        Untouched(us, MirrorKids(ks[i + 1..]), delta, i);
      }
    }
  }

  lemma {:induction false} NoneLater(ks: seq<Source>, us: seq<Tree>, i: nat)
    requires AllFound(ks) && i < |ks| && Homonyms(StripKids(ks), us)
    ensures FixFor(us, MirrorKids(ks[i + 1..]), i).None?
  {
    forall l | i + 1 <= l < |ks| && Marked(ks[l]) ensures Match(us, ks[l].name) != Some(i) {
      OwnMatch(ks, us, l);
    }
    NoFix(ks, us, i + 1, i);
  }

  lemma {:induction false} OwnMatch(ks: seq<Source>, us: seq<Tree>, l: nat)
    requires AllFound(ks) && l < |ks| && Marked(ks[l]) && Homonyms(StripKids(ks), us)
    ensures Match(us, ks[l].name) == Some(l)
  {
    assert FoundFirst(ks, l);
    MatchFirst(ks, us, l);
  }

  lemma {:induction false} UpdateNamed(t: Tree, fix: Tree, delta: int)
    requires Update(t, fix, delta).Ok?
    ensures Update(t, fix, delta).value.name == t.name
  {
  }

  // ---- a marked node does change ----

  /** The cells do not overlap. */
  predicate Disjoint(offs: seq<nat>) {
    forall i, j | 0 <= i < |offs| && 0 <= j < |offs| && i != j :: offs[i] + 4 <= offs[j] || offs[j] + 4 <= offs[i]
  }

  predicate AllDisjoint(t: Source)
    decreases t, 1
  {
    (forall i | 0 <= i < |t.props| :: Disjoint(Offsets(t.props[i].marks))) && KidsDisjoint(t.kids)
  }

  predicate KidsDisjoint(ks: seq<Source>)
    decreases ks, 0
  {
    forall i | 0 <= i < |ks| :: AllDisjoint(ks[i])
  }

  lemma {:induction false} CellsApart(offs: seq<nat>)
    requires Disjoint(offs) && forall i | 0 <= i < |offs| :: offs[i] < 0x1_0000_0000
    ensures Apart(Cells(offs))
  {
    var c := Cells(offs);
    forall i: nat, j: nat | 4 * i + 4 <= |c| && 4 * j + 4 <= |c| && i != j
      ensures var a, b := Ld32(c, 4 * i), Ld32(c, 4 * j); a + 4 <= b || b + 4 <= a
    {
      CellsAt(offs, i);
      CellsAt(offs, j);
    }
  }

  /** Raising adds delta to each listed cell once, modulo 2^32. */
  lemma {:induction false} RaisedCell(v: seq<byte>, offs: seq<nat>, delta: int, j: nat)
    requires Inside(offs, |v|) && |v| < 0x1_0000_0000 && Disjoint(offs) && j < |offs|
    ensures Ld32(Raise(v, offs, delta), offs[j]) == U32(Ld32(v, offs[j]) + delta)
  {
    CellsApart(offs);
    CellsAt(offs, j);
    assert offs[0..] == offs;
    BumpIsRaise(v, offs, 0, delta);
    BumpListed(v, Cells(offs), 0, delta, j);
  }

  /** All other bytes stay. */
  lemma {:induction false} RaisedElsewhere(v: seq<byte>, offs: seq<nat>, delta: int, lo: nat, hi: nat)
    requires Inside(offs, |v|) && lo <= hi <= |v|
    requires forall i | 0 <= i < |offs| :: hi <= offs[i] || offs[i] + 4 <= lo
    ensures Raise(v, offs, delta)[lo..hi] == v[lo..hi]
    decreases |offs|
  {
    if offs != [] {
      var x := Be32(U32(Ld32(v, offs[0]) + delta));
      assert forall i | 0 <= i < |offs| - 1 :: offs[1..][i] == offs[i + 1];
      PutSlice(v, offs[0], x, lo, hi);
      RaisedElsewhere(Put(v, offs[0], x), offs[1..], delta, lo, hi);
    }
  }

  lemma {:induction false} PropMoves(p: LiveProperty, delta: int)
    requires CellsThere(p) && Disjoint(Offsets(p.marks)) && Offsets(p.marks) != [] && 0 < delta < 0x1_0000_0000
    ensures RaiseProp(p, delta) != Property(p.name, p.val)
  {
    var offs := Offsets(p.marks);
    RaisedCell(p.val, offs, delta, 0);
    U32Small(Ld32(p.val, offs[0]) + delta);
  }

  lemma {:induction false} MarkedMoves(t: Source, delta: int)
    requires AllCells(t) && AllDisjoint(t) && Marked(t) && 0 < delta < 0x1_0000_0000
    ensures Relocated(t, delta) != Strip(t)
    decreases t
  {
    if MarkedProps(t.props) {
      var i :| 0 <= i < |t.props| && Offsets(t.props[i].marks) != [];
      PropMoves(t.props[i], delta);
      assert RaiseProps(t.props, delta)[i] != StripProps(t.props)[i];
    } else {
      var i :| 0 <= i < |t.kids| && Marked(t.kids[i]);
      MarkedMoves(t.kids[i], delta);
      assert RelocatedKids(t.kids, delta)[i] != StripKids(t.kids)[i];
    }
  }

  // ---- the result ----

  /** A marked child that is not found first is left as it was. */
  lemma {:induction false} Missed(ks: seq<Source>, i: nat)
    requires DistinctKids(ks) && i < |ks| && !FoundFirst(ks, i)
    ensures FixFor(StripKids(ks), MirrorKids(ks), i).None?
  {
    var ts := StripKids(ks);
    forall l | 0 <= l < |ks| && Marked(ks[l]) ensures Match(ts, ks[l].name) != Some(i) {
      if l == i {
        MatchFirst(ks, ts, i);
      } else {
        NotTwice(ks, i, l);
      }
    }
    NoFix(ks, ts, 0, i);
    assert ks[0..] == ks;
  }

  lemma {:induction false} NotTwice(ks: seq<Source>, i: nat, l: nat)
    requires DistinctKids(ks) && i < |ks| && !FoundFirst(ks, i)
    requires l < |ks| && l != i
    ensures !NodeNameEq(ks[i].name, ks[l].name)
  {
    var j :| 0 <= j < i && NodeNameEq(ks[j].name, ks[i].name);
    assert ks[j].name != ks[i].name && 64 !in ks[i].name && ks[i].name != ks[l].name;
  }

  /** The main result.  With the fixups that the compiler generated, the overlay code adds the
      phandle offset to exactly the cells with a resolved marker, if no node with fixups has the
      base name of an earlier sibling; and only then, if there is anything to add. */
  lemma {:induction false} GeneratedFixups(t: Source, delta: int)
    requires WellNamed(t) && AllCells(t) && 0 <= delta < 0x1_0000_0000
    ensures Unambiguous(t) ==> Resolves(t, delta)
    ensures 0 < delta && AllDisjoint(t) && Resolves(t, delta) ==> Unambiguous(t)
  {
    if Unambiguous(t) {
      Suffices(t, delta);
    } else if 0 < delta && AllDisjoint(t) {
      Needed(t, delta);
    }
  }

  lemma {:induction false} Suffices(t: Source, delta: int)
    requires WellNamed(t) && AllCells(t) && Unambiguous(t)
    ensures Resolves(t, delta)
    decreases t
  {
    forall i | 0 <= i < |t.kids| && Marked(t.kids[i]) ensures Resolves(t.kids[i], delta) {
      Suffices(t.kids[i], delta);
    }
    NodeResolves(t, delta);
    AllResolveIs(t.kids, 0, delta);
  }

  lemma {:induction false} KidNeeded(t: Source, delta: int, i: nat)
    requires WellNamed(t) && AllCells(t) && AllFound(t.kids)
    requires i < |t.kids| && Marked(t.kids[i]) && !Resolves(t.kids[i], delta)
    ensures !Resolves(t, delta)
  {
    NodeResolves(t, delta);
    AllResolveIs(t.kids, 0, delta);
  }

  lemma {:induction false} Needed(t: Source, delta: int)
    requires WellNamed(t) && AllCells(t) && AllDisjoint(t) && 0 < delta < 0x1_0000_0000 && !Unambiguous(t)
    ensures !Resolves(t, delta)
    decreases t
  {
    if AllFound(t.kids) {
      var i :| 0 <= i < |t.kids| && Marked(t.kids[i]) && !Unambiguous(t.kids[i]);
      Needed(t.kids[i], delta);
      KidNeeded(t, delta, i);
    } else {
      var i :| 0 <= i < |t.kids| && Marked(t.kids[i]) && !FoundFirst(t.kids, i);
      MissedFails(t, delta, i);
    }
  }

  /** What is intended happens at a node iff it happens at its marked children. */
  lemma {:induction false} NodeResolves(t: Source, delta: int)
    requires WellNamed(t) && AllCells(t)
    ensures Resolves(t, delta) <==>
            UpdateKids(StripKids(t.kids), MirrorKids(t.kids), delta) == Ok(RelocatedKids(t.kids, delta))
    ensures AllFound(t.kids) ==> (Resolves(t, delta) <==> AllResolve(t.kids, 0, delta))
  {
    assert [] + StripProps(t.props) == StripProps(t.props);
    assert [] + RaiseProps(t.props, delta) == RaiseProps(t.props, delta);
    PropsRaised([], t.props, delta);
    ResolvesDef(t, delta);
    if AllFound(t.kids) {
      KidsResolve(t.kids, 0, delta);
      assert t.kids[0..] == t.kids && Upto(t.kids, 0, delta) == StripKids(t.kids);
    }
  }

  lemma {:induction false} MissedFails(t: Source, delta: int, i: nat)
    requires WellNamed(t) && AllCells(t) && 0 < delta < 0x1_0000_0000 && AllDisjoint(t)
    requires i < |t.kids| && Marked(t.kids[i]) && !FoundFirst(t.kids, i)
    ensures !Resolves(t, delta)
  {
    Missed(t.kids, i);
    MarkedMoves(t.kids[i], delta);
    KidMissed(t.kids, delta, i);
    if Resolves(t, delta) {
      NodeUpdates(t, delta);
    }
  }

  lemma {:induction false} NodeUpdates(t: Source, delta: int)
    requires AllCells(t) && Resolves(t, delta)
    ensures UpdateKids(StripKids(t.kids), MirrorKids(t.kids), delta) == Ok(RelocatedKids(t.kids, delta))
  {
    ResolvesDef(t, delta);
  }

  lemma {:induction false} KidMissed(ks: seq<Source>, delta: int, i: nat)
    requires KidsCells(ks) && i < |ks| && FixFor(StripKids(ks), MirrorKids(ks), i).None?
    requires Relocated(ks[i], delta) != Strip(ks[i])
    ensures UpdateKids(StripKids(ks), MirrorKids(ks), delta) != Ok(RelocatedKids(ks, delta))
  {
    var ts, fs := StripKids(ks), MirrorKids(ks);
    if UpdateKids(ts, fs, delta).Ok? {
      Untouched(ts, fs, delta, i);
      assert RelocatedKids(ks, delta)[i] != ts[i];
    }
  }
}
