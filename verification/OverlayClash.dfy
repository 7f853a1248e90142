/** fdt_overlay.c: an overlay that makes two phandles equal. */
module OverlayClash {
  import opened Bytes
  import opened Syntax
  import opened DeviceTree
  import opened Fdt
  import opened Lookup
  import opened Overlay
  import opened OverlayRefs
  import opened Paths
  import opened TreePaths
  import opened Fixups
  import opened OverlayApply
  import opened SymbolicFixups
  import opened OverlayDistinct

  /** "phandle" with that value. */
  ghost function PhandleProp(v: int): Property { Property(PHANDLE, Be32(v)) }

  ghost function Leaf1(name: byte, v: int): Tree { Tree([name], [PhandleProp(v)], []) }

  /** The base: a node "a" with phandle 1, which the symbol "l" stands for. */
  ghost function Base(): Tree {
    Tree([], [], [Leaf1(97, 1), Tree(SYMBOLS, [Property([108], [SLASH, 97, 0])], [])])
  }

  /** The fragment "f" for the root, which adds a node "n" with a phandle. */
  ghost function Fragment(v: int): Tree {
    Tree([102], [Property(TARGET_PATH, [SLASH, 0])], [Tree(OVERLAY, [], [Leaf1(110, v)])])
  }

  const ENTRY: Entry := Entry([SLASH, 102, SLASH] + OVERLAY + [SLASH, 110], PHANDLE, 0)

  /** The overlay: the fragment, and a fixup that writes the phandle of "l" into that of "n". */
  ghost function Over(v: int): Tree {
    Tree([], [], [Fragment(v), Tree(FIXUPS, [Property([108], Emit([ENTRY]))], [])])
  }

  lemma {:induction false} PhandlePropIs(v: int)
    requires 0 <= v < 0x1_0000_0000
    ensures Cell([PhandleProp(v)], PHANDLE) == Some(v) && Phandle([PhandleProp(v)]) == v
    ensures Value([PhandleProp(v)], PHANDLE) == Some(Be32(v)) && Value([PhandleProp(v)], LINUX_PHANDLE) == None
  {
    Be32RoundTrip(v);
    assert PHANDLE[0] != LINUX_PHANDLE[0];
    assert [PhandleProp(v)][1..] == [];
  }

  lemma {:induction false} BaseIs()
    ensures MaxPhandle([Base()]) == 1 && SymbolPhandle(Base(), [108]) == Ok(1)
  {
    var b := Base();
    var a, s := b.kids[0], b.kids[1];
    PhandlePropIs(1);
    assert b.kids[1..] == [s] && [s][1..] == [] && [b][1..] == [];
    assert s.props[0].name[0] != PHANDLE[0] && |s.props[0].name| == 1;
    NoPhandleIn(s.props);
    assert MaxPhandle([s]) == 0;
    assert MaxPhandle(b.kids) == 1;
    SameNames(SYMBOLS);
    assert a.name[0] != SYMBOLS[0];
    assert Match(b.kids, SYMBOLS) == Some(1);
    var v := s.props[0].val;
    NulIndexIs(v, 0, [SLASH, 97]);
    assert v[..2] == [SLASH, 97];
    assert CString(v) == Ok([SLASH, 97]);
    assert Resolvable(a, []) && Resolvable(b, [0]);
    FindPathIs(b, [0]);
    assert NamesTo(a, [0][1..]) == Some([]);
    assert [0][1..] == [] && [[97]] + [] == [[97]];
    assert NamesTo(b, [0]) == Some([[97]]);
    assert PathText([[97]]) == [SLASH, 97];
  }

  lemma {:induction false} SameNames(name: seq<byte>)
    ensures NodeNameEq(name, name)
  {
    assert name[..|name|] == name;
  }

  lemma {:induction false} NoShift(t: Tree, delta: int)
    requires SparesPhandles(t)
    ensures Shift(t, delta) == Ok(t)
  {
    ShiftSpares(t, delta);
  }

  lemma {:induction false} LeafShifted(v: int)
    requires 0 <= v < 0x7fff_ffff
    ensures Shift(Leaf1(110, v), 1) == Ok(Leaf1(110, v + 1))
  {
    PhandlePropIs(v);
    PhandlePropIs(v + 1);
    U32Small(v + 1);
    var ps, qs := [PhandleProp(v)], [PhandleProp(v + 1)];
    assert SetFirst(ps, PHANDLE, Be32(v + 1)) == qs;
    assert ShiftIfThere(ps, PHANDLE, 1) == Ok(qs);
    assert ShiftIfThere(qs, LINUX_PHANDLE, 1) == Ok(qs);
    assert ShiftAll([], 1) == Ok([]);
  }

  lemma {:induction false} OverShifted(v: int)
    requires 0 <= v < 0x7fff_ffff
    ensures Shift(Over(v), 1) == Ok(Over(v + 1))
  {
    LeafShifted(v);
    ShiftAllOne(Leaf1(110, v), Leaf1(110, v + 1));
    var o, o' := Fragment(v).kids[0], Fragment(v + 1).kids[0];
    NoPhandles([]);
    assert Shift(o, 1) == Ok(o');
    ShiftAllOne(o, o');
    var f, f' := Fragment(v), Fragment(v + 1);
    assert TARGET_PATH[0] != PHANDLE[0] && TARGET_PATH[0] != LINUX_PHANDLE[0];
    NoPhandles(f.props);
    assert Shift(f, 1) == Ok(f');
    var x := Over(v).kids[1];
    assert !IsPhandleName(x.props[0].name);
    NoShift(x, 1);
    ShiftAllOne(x, x);
    assert Over(v).kids[1..] == [x] && [f'] + [x] == Over(v + 1).kids;
  }

  lemma {:induction false} ShiftAllOne(t: Tree, u: Tree)
    requires Shift(t, 1) == Ok(u)
    ensures ShiftAll([t], 1) == Ok([u])
  {
    assert [t][1..] == [] && ShiftAll([], 1) == Ok([]) && [u] + [] == [u];
  }

  lemma {:induction false} NoPhandleIn(ps: seq<Property>)
    requires forall i | 0 <= i < |ps| :: !IsPhandleName(ps[i].name)
    ensures Phandle(ps) == 0
  {
    HasValue(ps, PHANDLE);
    HasValue(ps, LINUX_PHANDLE);
  }

  lemma {:induction false} NoPhandles(ps: seq<Property>)
    requires forall i | 0 <= i < |ps| :: !IsPhandleName(ps[i].name)
    ensures ShiftProps(ps, 1) == Ok(ps)
  {
    HasValue(ps, PHANDLE);
    HasValue(ps, LINUX_PHANDLE);
  }

  // ---- the steps ----

  lemma {:induction false} NoLocal(v: int)
    ensures Match(Over(v).kids, LOCAL_FIXUPS) == None && Match(Over(v).kids, FIXUPS) == Some(1)
  {
    var ks := Over(v).kids;
    SameNames(FIXUPS);
    assert ks[0].name[0] != FIXUPS[0] && ks[0].name[0] != LOCAL_FIXUPS[0];
    assert LOCAL_FIXUPS[2] != FIXUPS[2];
    assert !NodeNameEq(ks[1].name, LOCAL_FIXUPS) by { assert |LOCAL_FIXUPS| > |FIXUPS|; }
    assert !NodeNameEq(ks[0].name, LOCAL_FIXUPS) && !NodeNameEq(ks[0].name, FIXUPS);
  }

  /** The path of the entry leads to "n". */
  lemma {:induction false} EntryPath(v: int)
    ensures FindPath(Over(v), ENTRY.path) == Ok([0, 0, 0]) && Follow(Over(v), [0, 0, 0]) == Some(Leaf1(110, v))
  {
    EntryResolves(v);
    FindPathIs(Over(v), [0, 0, 0]);
    EntryNames(v);
    EntryText1();
  }

  lemma {:induction false} EntryResolves(v: int)
    ensures Resolvable(Over(v), [0, 0, 0]) && Follow(Over(v), [0, 0, 0]) == Some(Leaf1(110, v))
  {
    var t := Over(v);
    var f := t.kids[0];
    var o := f.kids[0];
    var n := o.kids[0];
    assert [0, 0, 0][1..] == [0, 0] && [0, 0][1..] == [0] && [0][1..] == [];
    assert SLASH !in OVERLAY;
    assert Resolvable(n, []) && Resolvable(o, [0]) && Resolvable(f, [0, 0]) && Resolvable(t, [0, 0, 0]);
    assert Follow(n, []) == Some(n) && Follow(o, [0]) == Some(n) && Follow(f, [0, 0]) == Some(n);
  }

  ghost function EntryNs(): seq<seq<byte>> { [[102]] + ([OVERLAY] + ([[110]] + [])) }

  lemma {:induction false} EntryNames(v: int)
    ensures NamesTo(Over(v), [0, 0, 0]) == Some(EntryNs())
  {
    var t := Over(v);
    var f := t.kids[0];
    var o := f.kids[0];
    var n := o.kids[0];
    assert [0, 0, 0][1..] == [0, 0] && [0, 0][1..] == [0] && [0][1..] == [];
    assert NamesTo(n, []) == Some([]);
    assert NamesTo(o, [0]) == Some([[110]] + []);
    assert NamesTo(f, [0, 0]) == Some([OVERLAY] + ([[110]] + []));
  }

  lemma {:induction false} EntryText1()
    ensures FullPath(EntryNs()) == ENTRY.path
  {
    FirstName([110], []);
    FirstName(OVERLAY, [[110]] + []);
    FirstName([102], [OVERLAY] + ([[110]] + []));
    assert PathText([]) == [];
    assert PathText(EntryNs()) == ENTRY.path;
  }

  /** The fixup gives "n" the phandle of "l". */
  lemma {:induction false} EntryApplied()
    ensures FixEntry(Base(), Over(2), [108], ENTRY) == Ok(Over(1))
  {
    BaseIs();
    EntryPath(2);
    var t, p := Over(2), [0, 0, 0];
    PhandlePropIs(2);
    U32Small(0);
    U32Small(4);
    var w := Be32(1);
    PutDef(Be32(2), 0, w);
    assert Put(Be32(2), 0, w) == w;
    assert SetFirst([PhandleProp(2)], PHANDLE, w) == [PhandleProp(1)];
    assert PatchAt(t, p, ENTRY, 1) == Ok(WithPropsAt(t, p, [PhandleProp(1)]));
    Rewritten();
  }

  lemma {:induction false} Rewritten()
    ensures Follow(Over(2), [0, 0, 0]).Some? && WithPropsAt(Over(2), [0, 0, 0], [PhandleProp(1)]) == Over(1)
  {
    EntryPath(2);
    var t := Over(2);
    var f := t.kids[0];
    var o := f.kids[0];
    var n := o.kids[0];
    var ps := [PhandleProp(1)];
    assert [0, 0, 0][1..] == [0, 0] && [0, 0][1..] == [0] && [0][1..] == [];
    assert Follow(n, []) == Some(n) && Follow(o, [0]) == Some(n) && Follow(f, [0, 0]) == Some(n);
    assert WithPropsAt(n, [], ps) == Leaf1(110, 1);
    assert WithPropsAt(o, [0], ps) == Tree(OVERLAY, [], [Leaf1(110, 1)]);
    assert WithPropsAt(f, [0, 0], ps) == Fragment(1);
  }

  lemma {:induction false} OneEntry(base: Tree, t: Tree, symbol: seq<byte>, e: Entry)
    requires Clean(e)
    ensures FixValue(base, t, symbol, Emit([e])) == FixEntry(base, t, symbol, e)
  {
    var x := EntryText(e);
    var v := x + [0] + [];
    assert [e][1..] == [] && Emit([]) == [];
    assert Emit([e]) == v;
    EntryParses(e);
    EntryNulFree(e);
    FindFirst(x, 0, []);
    assert v[..|x|] == x && v[|x| + 1..] == [];
  }

  lemma {:induction false} CleanEntry()
    ensures Clean(ENTRY)
  {
    assert 0 !in OVERLAY && COLON !in OVERLAY && 0 !in PHANDLE && COLON !in PHANDLE;
  }

  lemma {:induction false} FixedIs()
    ensures FixAll(Base(), Over(2)) == Ok(Over(1))
  {
    NoLocal(2);
    CleanEntry();
    EntryApplied();
    OneEntry(Base(), Over(2), [108], ENTRY);
    var fs := Over(2).kids[1].props;
    assert fs[0].name == [108] && fs[0].val == Emit([ENTRY]);
    assert fs[1..] == [] && FixProps(Base(), Over(1), []) == Ok(Over(1));
    assert FixProps(Base(), Over(2), fs) == Ok(Over(1));
  }

  lemma {:induction false} PreparedIs()
    ensures Prepared(Base(), Over(1)) == Ok(Over(1)) && Updated(Base(), Over(1)) == Over(2)
  {
    BaseIs();
    OverShifted(1);
    NoLocal(2);
    FixedIs();
  }

  /** The base with "n" in front. */
  ghost function Result1(): Tree { Tree([], [], [Leaf1(110, 1)] + Base().kids) }

  lemma {:induction false} LeafMerged()
    ensures Merge(Tree([110], [], []), Leaf1(110, 1)) == Leaf1(110, 1)
  {
    var n := Leaf1(110, 1);
    assert n.props[1..] == [] && !HasProp([], PHANDLE);
    assert WithProp(Tree([], [], []), PHANDLE, Be32(1)).props == n.props;
    assert WithProps(n.props, []) == n.props && WithProps([], n.props) == n.props;
    assert MergeKids([], []) == [];
  }

  lemma {:induction false} FragmentMerged()
    ensures Part(Fragment(1)) == Some(Tree(OVERLAY, [], [Leaf1(110, 1)]))
    ensures Target(Base(), Fragment(1)) == Ok([]) && Merge(Base(), Part(Fragment(1)).value) == Result1()
    ensures NoClashAt(Base(), Fragment(1))
  {
    var f, b := Fragment(1), Base();
    SameNames(OVERLAY);
    assert TARGET != TARGET_PATH;
    assert f.props[1..] == [];
    NulIndexIs(f.props[0].val, 0, [SLASH]);
    assert f.props[0].val[..1] == [SLASH];
    FindPathIs(b, []);
    assert NamesTo(b, []) == Some([]);
    LeafMerged();
    var n := Leaf1(110, 1);
    var k0, k1 := b.kids[0], b.kids[1];
    assert k0.name[0] != n.name[0] && k1.name[0] != n.name[0];
    assert Match(b.kids, n.name).None?;
    var o := Part(f).value;
    assert o.kids[1..] == [];
    assert MergeOne(b.kids, n) == [n] + b.kids;
    assert MergeKids(b.kids, [n]) == [n] + b.kids;
    PhandlePropIs(1);
    assert NoClashKids([], []) && Alone([], n.props) && NoClash(Tree([110], [], []), n);
    assert NoClashKids(MergeOne(b.kids, n), []);
    assert NoClashKids(b.kids, o.kids) && Alone([], []);
    assert NoClash(b, o);
  }

  lemma {:induction false} AppliedIs()
    ensures Apply(Base(), Over(1)) == Ok(Result1()) && NoClashAll(Base(), Over(1).kids)
  {
    PreparedIs();
    FragmentMerged();
    var f, x := Fragment(1), Over(1).kids[1];
    assert Part(x).None?;
    assert Over(1).kids[1..] == [x] && [x][1..] == [];
    assert MergeFragments(Result1(), []) == Ok(Result1());
    assert MergeFragments(Result1(), [x]) == Ok(Result1());
    assert NoClashAll(Result1(), []) && NoClashAll(Result1(), [x]);
  }

  lemma {:induction false} UniqueIs()
    ensures UniqueProps(Over(1))
  {
    var f, x := Fragment(1), Over(1).kids[1];
    assert UniqueProps(Leaf1(110, 1)) && UniqueProps(f.kids[0]) && UniqueProps(f) && UniqueProps(x);
  }

  lemma {:induction false} HitIs()
    ensures HitsMerged(Over(2))
  {
    EntryPath(2);
    NoLocal(2);
    PhandlePropIs(2);
    SameNames(OVERLAY);
    FixupsRoundTrip1();
    var u, p := Over(2), [0, 0, 0];
    var es := [ENTRY];
    assert es[1..] == [];
    var ls := LabelAll([108], es);
    assert ls == [Labelled([108], ENTRY)];
    var fs := u.kids[1].props;
    assert fs[1..] == [] && Entries([]) == Some([]) && ls + [] == ls;
    assert Entries(fs) == Some(ls);
    assert HitBy(u, ls[0], p);
    assert Hit(u, FixupsOf(u), p) && MergedPath(u, p);
  }

  lemma {:induction false} FixupsRoundTrip1()
    ensures Parse(Emit([ENTRY])) == Some([ENTRY])
  {
    CleanEntry();
    FixupsRoundTrip([ENTRY]);
  }

  /** The overlay is applied without an error, its phandle and that of the base are distinct before,
      and the result has a phandle twice. */
  lemma {:induction false} PhandlesClash()
    ensures Distinct(Phandles(Base())) && Distinct(Phandles(Over(1))) && UniqueProps(Over(1)) && Positive(Over(1))
    ensures NoClashAll(Base(), Over(1).kids) && Apply(Base(), Over(1)).Ok?
    ensures !Distinct(Phandles(Apply(Base(), Over(1)).value))
  {
    AppliedIs();
    UniqueIs();
    PreparedIs();
    HitIs();
    DistinctExact(Base(), Over(1));
    OnePhandle();
  }

  lemma {:induction false} OnePhandle()
    ensures Phandles(Base()) == multiset{1} && Phandles(Over(1)) == multiset{1} && Positive(Over(1))
  {
    BasePhandles();
    ChainIs(Leaf1(110, 1));
    LeafPhandles(110);
    NoneInFixups(Over(1).kids[1]);
    Two(Fragment(1), Over(1).kids[1]);
  }

  lemma {:induction false} NoneInFixups(x: Tree)
    requires x.kids == [] && |x.props| == 1 && x.props[0].name == [108]
    ensures Phandles(x) == multiset{} && Positive(x)
  {
    NoPhandleIn(x.props);
    NoCells(x.props);
    assert PhandlesOf([]) == multiset{};
  }

  lemma {:induction false} Two(f: Tree, x: Tree)
    requires Positive(f) && Positive(x)
    ensures Phandles(Tree([], [], [f, x])) == Phandles(f) + Phandles(x) && Positive(Tree([], [], [f, x]))
  {
    Alone1(x);
    var t := Tree([], [], [f, x]);
    assert t.kids[1..] == [x];
    assert forall i | 0 <= i < 2 :: Positive(t.kids[i]);
    NoPhandleIn([]);
    NoCells([]);
  }

  lemma {:induction false} BasePhandles()
    ensures Phandles(Base()) == multiset{1}
  {
    LeafPhandles(97);
    assert PhandlesOf([]) == multiset{};
    var s := Base().kids[1];
    assert s.props[0].name[0] != PHANDLE[0] && |s.props[0].name| == 1;
    NoPhandleIn(s.props);
    assert Base().kids[1..] == [s] && [s][1..] == [];
    assert Phandles(s) == multiset{};
  }

  /** The fragment around "n". */
  lemma {:induction false} ChainIs(n: Tree)
    requires n == Leaf1(110, 1)
    ensures Phandles(Fragment(1)) == Phandles(n) && Positive(Fragment(1))
  {
    LeafPhandles(110);
    Alone1(n);
    var o := Tree(OVERLAY, [], [n]);
    assert Phandles(o) == Phandles(n) && Positive(o);
    Alone1(o);
    NoPhandleIn(Fragment(1).props);
    NoCells(Fragment(1).props);
  }

  lemma {:induction false} Alone1(t: Tree)
    ensures PhandlesOf([t]) == Phandles(t)
  {
    assert [t][1..] == [] && PhandlesOf([]) == multiset{};
  }

  lemma {:induction false} NoCells(ps: seq<Property>)
    requires forall i | 0 <= i < |ps| :: !IsPhandleName(ps[i].name)
    ensures Cell(ps, PHANDLE).None? && Cell(ps, LINUX_PHANDLE).None?
  {
    HasValue(ps, PHANDLE);
    HasValue(ps, LINUX_PHANDLE);
  }

  lemma {:induction false} LeafPhandles(name: byte)
    ensures Phandles(Leaf1(name, 1)) == multiset{1} && Positive(Leaf1(name, 1))
  {
    PhandlePropIs(1);
    assert PhandlesOf([]) == multiset{};
  }
}
