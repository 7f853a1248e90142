/** fdt_overlay.c on device trees: shifting the overlay's phandles, updating its local
    references and merging it into the base tree. */
module Overlay {
  import opened Bytes
  import opened DeviceTree
  import opened Fdt
  import opened Lookup

  const BADPHANDLE: int := -6
  const BADOVERLAY: int := -16
  const NOPHANDLES: int := -17

  datatype Result<T> = Ok(value: T) | Err(code: int)

  /** "phandle" */
  const PHANDLE: seq<byte> := [112, 104, 97, 110, 100, 108, 101]

  /** "linux,phandle" */
  const LINUX_PHANDLE: seq<byte> := [108, 105, 110, 117, 120, 44, 112, 104, 97, 110, 100, 108, 101]

  // ---- phandles ----

  /** The number in a property of four bytes. */
  ghost function Cell(ps: seq<Property>, name: seq<byte>): Option<int> {
    var v := Value(ps, name);
    if v.Some? && |v.value| == 4 then Some(Ld32(v.value, 0)) else None
  }

  /** fdt_get_phandle; 0 if there is none. */
  ghost function Phandle(ps: seq<Property>): (v: int)
    ensures 0 <= v < 0x1_0000_0000
  {
    if Cell(ps, PHANDLE).Some? then Cell(ps, PHANDLE).value else Cell(ps, LINUX_PHANDLE).GetOr(0)
  }

  ghost function Own(v: int): multiset<int> { if v == 0 then multiset{} else multiset{v} }

  /** The phandles of all nodes of a tree. */
  ghost function Phandles(t: Tree): multiset<int>
    decreases t, 1
  {
    Own(Phandle(t.props)) + PhandlesOf(t.kids)
  }

  ghost function PhandlesOf(ts: seq<Tree>): multiset<int>
    decreases ts, 0
  {
    if ts == [] then multiset{} else Phandles(ts[0]) + PhandlesOf(ts[1..])
  }

  ghost predicate Distinct(m: multiset<int>) { forall v :: m[v] <= 1 }

  /** Two parts are distinct together iff each is, and they have nothing in common. */
  lemma {:induction false} DistinctParts(a: multiset<int>, b: multiset<int>)
    ensures Distinct(a + b) <==> Distinct(a) && Distinct(b) && a !! b
  {
    if Distinct(a + b) {
      forall v ensures a[v] <= 1 && b[v] <= 1 && (v in a ==> v !in b) {
        assert (a + b)[v] <= 1;
      }
    }
    if Distinct(a) && Distinct(b) && a !! b {
      forall v ensures (a + b)[v] <= 1 {
        assert v in a ==> v !in b;
      }
    }
  }

  lemma {:induction false} PhandlesAppend(a: seq<Tree>, b: seq<Tree>)
    ensures PhandlesOf(a + b) == PhandlesOf(a) + PhandlesOf(b)
    decreases |a|
  {
    if a == [] {
      assert a + b == b;
    } else {
      assert (a + b)[1..] == a[1..] + b;
      PhandlesAppend(a[1..], b);
    }
  }

  lemma {:induction false} PhandlesSplit(ts: seq<Tree>, i: nat)
    requires i < |ts|
    ensures PhandlesOf(ts) == PhandlesOf(ts[..i]) + Phandles(ts[i]) + PhandlesOf(ts[i + 1..])
  {
    assert ts == ts[..i] + ts[i..];
    PhandlesAppend(ts[..i], ts[i..]);
  }

  lemma {:induction false} PhandlesUpdate(ts: seq<Tree>, i: nat, t: Tree)
    requires i < |ts|
    ensures PhandlesOf(ts[i := t]) + Phandles(ts[i]) == PhandlesOf(ts) + Phandles(t)
  {
    PhandlesSplit(ts, i);
    PhandlesSplit(ts[i := t], i);
    assert ts[i := t][..i] == ts[..i] && ts[i := t][i + 1..] == ts[i + 1..];
  }

  /** fdt_find_max_phandle. */
  ghost function MaxPhandle(ts: seq<Tree>): (m: int)
    ensures 0 <= m < 0x1_0000_0000
    decreases ts
  {
    if ts == [] then 0
    else
      var own := Phandle(ts[0].props);
      var below, after := MaxPhandle(ts[0].kids), MaxPhandle(ts[1..]);
      var m := if own > below then own else below;
      if m > after then m else after
  }

  lemma {:induction false} MaxIsBound(ts: seq<Tree>, v: int)
    requires v in PhandlesOf(ts)
    ensures 0 < v <= MaxPhandle(ts)
    decreases ts
  {
    if v in PhandlesOf(ts[1..]) {
      MaxIsBound(ts[1..], v);
    } else if v in PhandlesOf(ts[0].kids) {
      MaxIsBound(ts[0].kids, v);
    }
  }

  /** It is 0 only if there is no phandle, and otherwise one of them. */
  lemma {:induction false} MaxIsReached(ts: seq<Tree>)
    ensures MaxPhandle(ts) > 0 ==> MaxPhandle(ts) in PhandlesOf(ts)
    decreases ts
  {
    if ts != [] {
      MaxIsReached(ts[0].kids);
      MaxIsReached(ts[1..]);
    }
  }

  // ---- overlay_adjust_node_phandles ----

  /** overlay_phandle_add_offset. */
  ghost function ShiftProp(ps: seq<Property>, name: seq<byte>, delta: int): Result<seq<Property>> {
    var v := Value(ps, name);
    if v.None? then Err(NOTFOUND)
    else if |v.value| != 4 then Err(BADPHANDLE)
    else
      var adj := Ld32(v.value, 0);
      if U32(adj + delta) < adj || U32(adj + delta) == 0xffff_ffff then Err(NOPHANDLES)
      else Ok(SetFirst(ps, name, Be32(adj + delta)))
  }

  /** A missing property is no error. */
  ghost function ShiftIfThere(ps: seq<Property>, name: seq<byte>, delta: int): Result<seq<Property>> {
    var r := ShiftProp(ps, name, delta);
    if r == Err(NOTFOUND) then Ok(ps) else r
  }

  ghost function ShiftProps(ps: seq<Property>, delta: int): Result<seq<Property>> {
    var r := ShiftIfThere(ps, PHANDLE, delta);
    if r.Err? then r else ShiftIfThere(r.value, LINUX_PHANDLE, delta)
  }

  /** overlay_adjust_node_phandles. */
  ghost function Shift(t: Tree, delta: int): Result<Tree>
    decreases t, 1
  {
    var ps := ShiftProps(t.props, delta);
    if ps.Err? then Err(ps.code)
    else
      var ks := ShiftAll(t.kids, delta);
      if ks.Err? then Err(ks.code) else Ok(Tree(t.name, ps.value, ks.value))
  }

  ghost function ShiftAll(ts: seq<Tree>, delta: int): Result<seq<Tree>>
    decreases ts, 0
  {
    if ts == [] then Ok([])
    else
      var r := Shift(ts[0], delta);
      if r.Err? then Err(r.code)
      else
        var rs := ShiftAll(ts[1..], delta);
        if rs.Err? then rs else Ok([r.value] + rs.value)
  }

  lemma {:induction false} ValueSet(ps: seq<Property>, name: seq<byte>, val: seq<byte>, other: seq<byte>)
    ensures Value(SetFirst(ps, name, val), other) ==
            if other == name && Value(ps, name).Some? then Some(val) else Value(ps, other)
    decreases |ps|
  {
    if ps != [] {
      ValueSet(ps[1..], name, val, other);
      if ps[0].name == name {
        assert SetFirst(ps, name, val)[1..] == ps[1..];
      } else {
        assert SetFirst(ps, name, val)[1..] == SetFirst(ps[1..], name, val);
      }
    }
  }

  lemma {:induction false} ShiftOne(ps: seq<Property>, name: seq<byte>, delta: int, other: seq<byte>)
    requires 0 <= delta < 0x1_0000_0000 && ShiftIfThere(ps, name, delta).Ok?
    ensures var qs := ShiftIfThere(ps, name, delta).value;
            if other != name then Value(qs, other) == Value(ps, other)
            else if Value(ps, name).None? then Cell(ps, name).None? && Value(qs, name).None?
            else Cell(ps, name).Some? && Cell(qs, name) == Some(Cell(ps, name).value + delta) &&
                 Cell(qs, name).value < 0xffff_ffff
  {
    if Value(ps, name).Some? {
      var adj := Ld32(Value(ps, name).value, 0);
      ValueSet(ps, name, Be32(adj + delta), other);
      U32Small(adj + delta);
      Be32RoundTrip(adj + delta);
    }
  }

  /** Every phandle property in the overlay is at least 1. */
  ghost predicate Positive(t: Tree)
    decreases t, 1
  {
    (Cell(t.props, PHANDLE).Some? || Cell(t.props, LINUX_PHANDLE).Some? ==> Phandle(t.props) > 0) && AllPositive(t.kids)
  }

  ghost predicate AllPositive(ts: seq<Tree>)
    decreases ts, 0
  {
    forall i | 0 <= i < |ts| :: Positive(ts[i])
  }

  /** Shifting adds delta to the phandle of a node that has one, and to nothing else. */
  lemma {:induction false} ShiftPropsIs(ps: seq<Property>, delta: int)
    requires 0 <= delta < 0x1_0000_0000 && ShiftProps(ps, delta).Ok?
    ensures var qs := ShiftProps(ps, delta).value;
            (if Cell(ps, PHANDLE).Some? || Cell(ps, LINUX_PHANDLE).Some? then Phandle(qs) == Phandle(ps) + delta
              else Phandle(qs) == Phandle(ps) == 0) &&
            Phandle(qs) < 0xffff_ffff &&
            forall name | name != PHANDLE && name != LINUX_PHANDLE :: Value(qs, name) == Value(ps, name)
  {
    assert PHANDLE[0] != LINUX_PHANDLE[0];
    var rs := ShiftIfThere(ps, PHANDLE, delta).value;
    var qs := ShiftProps(ps, delta).value;
    ShiftOne(ps, PHANDLE, delta, PHANDLE);
    ShiftOne(ps, PHANDLE, delta, LINUX_PHANDLE);
    ShiftOne(rs, LINUX_PHANDLE, delta, PHANDLE);
    ShiftOne(rs, LINUX_PHANDLE, delta, LINUX_PHANDLE);
    forall name | name != PHANDLE && name != LINUX_PHANDLE ensures Value(qs, name) == Value(ps, name) {
      ShiftOne(ps, PHANDLE, delta, name);
      ShiftOne(rs, LINUX_PHANDLE, delta, name);
    }
  }

  /** m' is m with every phandle raised by delta. */
  ghost predicate Raised(m: multiset<int>, m': multiset<int>, delta: int) {
    forall v :: m'[v] == if v > delta then m[v - delta] else 0
  }

  /** Shifting raises every phandle of the overlay by delta. */
  lemma {:induction false} ShiftRaises(t: Tree, delta: int)
    requires 0 <= delta < 0x1_0000_0000 && Positive(t) && Shift(t, delta).Ok?
    ensures Raised(Phandles(t), Phandles(Shift(t, delta).value), delta)
    decreases t, 1
  {
    ShiftOwn(t.props, delta);
    ShiftAllRaises(t.kids, delta);
    var ps, ks := ShiftProps(t.props, delta).value, ShiftAll(t.kids, delta).value;
    assert Shift(t, delta).value == Tree(t.name, ps, ks);
    RaisedSum(Own(Phandle(t.props)), Own(Phandle(ps)), PhandlesOf(t.kids), PhandlesOf(ks), delta);
  }

  lemma {:induction false} ShiftOwn(ps: seq<Property>, delta: int)
    requires 0 <= delta < 0x1_0000_0000 && ShiftProps(ps, delta).Ok?
    requires Cell(ps, PHANDLE).Some? || Cell(ps, LINUX_PHANDLE).Some? ==> Phandle(ps) > 0
    ensures Raised(Own(Phandle(ps)), Own(Phandle(ShiftProps(ps, delta).value)), delta)
  {
    ShiftPropsIs(ps, delta);
  }

  lemma {:induction false} RaisedSum(a: multiset<int>, a': multiset<int>, b: multiset<int>, b': multiset<int>,
    delta: int)
    requires Raised(a, a', delta) && Raised(b, b', delta)
    ensures Raised(a + b, a' + b', delta)
  {
  }

  lemma {:induction false} ShiftAllRaises(ts: seq<Tree>, delta: int)
    requires 0 <= delta < 0x1_0000_0000 && AllPositive(ts) && ShiftAll(ts, delta).Ok?
    ensures Raised(PhandlesOf(ts), PhandlesOf(ShiftAll(ts, delta).value), delta)
    decreases ts, 0
  {
    if ts != [] {
      var qs := ShiftAll(ts, delta).value;
      ShiftRaises(ts[0], delta);
      ShiftAllRaises(ts[1..], delta);
      assert qs[1..] == ShiftAll(ts[1..], delta).value;
      RaisedSum(Phandles(ts[0]), Phandles(qs[0]), PhandlesOf(ts[1..]), PhandlesOf(qs[1..]), delta);
    }
  }

  // ---- overlay_apply_node ----

  function WithProps(ps: seq<Property>, over: seq<Property>): seq<Property>
    decreases |over|
  {
    if over == [] then ps else WithProps(WithProp(Tree([], ps, []), over[0].name, over[0].val).props, over[1..])
  }

  /** fdt_subnode_offset among siblings: index of the first match. */
  function Match(ts: seq<Tree>, name: seq<byte>): (r: Option<nat>)
    ensures r.Some? ==> r.value < |ts| && NodeNameEq(ts[r.value].name, name) && forall i | 0 <= i < r.value ::
            !NodeNameEq(ts[i].name, name)
    ensures r.None? ==> forall i | 0 <= i < |ts| :: !NodeNameEq(ts[i].name, name)
  {
    if ts == [] then None
    else if NodeNameEq(ts[0].name, name) then Some(0)
    else
      var r := Match(ts[1..], name);
      assert forall i | 0 <= i < |ts| - 1 :: ts[1..][i] == ts[i + 1];
      if r.None? then None else Some(r.value + 1)
  }

  lemma {:induction false} MatchIs(ts: seq<Tree>, name: seq<byte>)
    ensures var m := Match(ts, name);
            if m.None? then forall i | 0 <= i < |ts| :: !Called(ts[i].name, name)
            else Called(ts[m.value].name, name) && forall i | 0 <= i < m.value :: !Called(ts[i].name, name)
  {
    forall i | 0 <= i < |ts| ensures NodeNameEq(ts[i].name, name) <==> Called(ts[i].name, name) {
      NodeNameIs(ts[i].name, name);
    }
  }

  /** overlay_apply_node: t with the overlay node `over` applied. */
  function Merge(t: Tree, over: Tree): Tree
    decreases over, 1
  {
    Tree(t.name, WithProps(t.props, over.props), MergeKids(t.kids, over.kids))
  }

  function MergeKids(ks: seq<Tree>, over: seq<Tree>): seq<Tree>
    decreases over, 0
  {
    if over == [] then ks else MergeKids(MergeOne(ks, over[0]), over[1..])
  }

  /** One overlay subnode: applied to the child that matches, or to a new first child. */
  function MergeOne(ks: seq<Tree>, o: Tree): seq<Tree>
    decreases o, 2
  {
    var i := Match(ks, o.name);
    if i.Some? then ks[i.value := Merge(ks[i.value], o)] else [Merge(Tree(o.name, [], []), o)] + ks
  }

  lemma {:induction false} HasValue(ps: seq<Property>, name: seq<byte>)
    ensures HasProp(ps, name) <==> Value(ps, name).Some?
    decreases |ps|
  {
    if ps != [] {
      HasValue(ps[1..], name);
      if i :| 0 < i < |ps| && ps[i].name == name {
        assert ps[1..][i - 1].name == name;
      }
      if i :| 0 <= i < |ps| - 1 && ps[1..][i].name == name {
        assert ps[i + 1].name == name;
      }
    }
  }

  lemma {:induction false} ValueWith(ps: seq<Property>, name: seq<byte>, val: seq<byte>, other: seq<byte>)
    ensures Value(WithProp(Tree([], ps, []), name, val).props, other) == if other == name then Some(val)
            else Value(ps, other)
  {
    HasValue(ps, name);
    ValueSet(ps, name, val, other);
    assert ([Property(name, val)] + ps)[1..] == ps;
  }

  /** A property of the overlay wins, its last occurrence over earlier ones. */
  function Last(ps: seq<Property>, name: seq<byte>): Option<seq<byte>> {
    if ps == [] then None
    else if ps[|ps| - 1].name == name then Some(ps[|ps| - 1].val)
    else Last(ps[..|ps| - 1], name)
  }

  lemma {:induction false} WithPropsLast(ps: seq<Property>, over: seq<Property>)
    requires over != []
    ensures WithProps(ps, over) ==
            WithProp(Tree([], WithProps(ps, over[..|over| - 1]), []), over[|over| - 1].name, over[|over| - 1].val).props
    decreases |over|
  {
    if |over| == 1 {
      assert over[1..] == [] && over[..0] == [];
    } else {
      var qs := WithProp(Tree([], ps, []), over[0].name, over[0].val).props;
      WithPropsLast(qs, over[1..]);
      assert over[1..][..|over| - 2] == over[..|over| - 1][1..];
    }
  }

  lemma {:induction false} ValueWithProps(ps: seq<Property>, over: seq<Property>, name: seq<byte>)
    ensures Value(WithProps(ps, over), name) == if Last(over, name).Some? then Last(over, name) else Value(ps, name)
    decreases |over|
  {
    if over != [] {
      var init, p := over[..|over| - 1], over[|over| - 1];
      WithPropsLast(ps, over);
      ValueWithProps(ps, init, name);
      ValueWith(WithProps(ps, init), p.name, p.val, name);
    }
  }

  predicate UniqueNames(ps: seq<Property>) { forall i, j | 0 <= i < j < |ps| :: ps[i].name != ps[j].name }

  lemma {:induction false} LastIsValue(ps: seq<Property>, name: seq<byte>)
    requires UniqueNames(ps)
    ensures Last(ps, name) == Value(ps, name)
    decreases |ps|
  {
    if ps != [] {
      var init := ps[..|ps| - 1];
      LastIsValue(init, name);
      ValueAppend(init, ps[|ps| - 1], name);
      assert init + [ps[|ps| - 1]] == ps;
      if ps[|ps| - 1].name == name {
        HasValue(init, name);
      }
    }
  }

  lemma {:induction false} ValueAppend(ps: seq<Property>, p: Property, name: seq<byte>)
    ensures Value(ps + [p], name) == if Value(ps, name).Some? then Value(ps, name) else if p.name == name then
            Some(p.val) else None
    decreases |ps|
  {
    if ps != [] {
      ValueAppend(ps[1..], p, name);
      assert (ps + [p])[1..] == ps[1..] + [p];
    } else {
      assert ([p])[1..] == [];
    }
  }

  /** Property names are unique in every node, and every phandle property has four bytes. */
  ghost predicate Sound(t: Tree)
    decreases t, 1
  {
    UniqueNames(t.props) && (Value(t.props, PHANDLE).Some? ==> Cell(t.props, PHANDLE).Some?) &&
    (Value(t.props, LINUX_PHANDLE).Some? ==> Cell(t.props, LINUX_PHANDLE).Some?) && AllSound(t.kids)
  }

  ghost predicate AllSound(ts: seq<Tree>)
    decreases ts, 0
  {
    forall i | 0 <= i < |ts| :: Sound(ts[i])
  }

  /** The phandle of a merged node is that of the base node or that of the overlay node. */
  lemma {:induction false} MergedPhandle(ps: seq<Property>, over: seq<Property>)
    requires UniqueNames(over) && (Value(over, PHANDLE).Some? ==> Cell(over, PHANDLE).Some?)
    requires Value(over, LINUX_PHANDLE).Some? ==> Cell(over, LINUX_PHANDLE).Some?
    ensures Own(Phandle(WithProps(ps, over))) <= Own(Phandle(ps)) + Own(Phandle(over))
    ensures Value(over, PHANDLE).None? && Value(over, LINUX_PHANDLE).None? ==>
            Phandle(WithProps(ps, over)) == Phandle(ps)
  {
    ValueWithProps(ps, over, PHANDLE);
    ValueWithProps(ps, over, LINUX_PHANDLE);
    LastIsValue(over, PHANDLE);
    LastIsValue(over, LINUX_PHANDLE);
  }

  /** Merging invents no phandle: every one comes from one node of base or overlay. */
  lemma {:induction false} MergePhandles(t: Tree, over: Tree)
    requires Sound(over)
    ensures Phandles(Merge(t, over)) <= Phandles(t) + Phandles(over)
    decreases over, 1
  {
    MergedPhandle(t.props, over.props);
    MergeKidsPhandles(t.kids, over.kids);
  }

  lemma {:induction false} MergeKidsPhandles(ks: seq<Tree>, over: seq<Tree>)
    requires AllSound(over)
    ensures PhandlesOf(MergeKids(ks, over)) <= PhandlesOf(ks) + PhandlesOf(over)
    decreases over, 0
  {
    if over != [] {
      MergeOnePhandles(ks, over[0]);
      MergeKidsPhandles(MergeOne(ks, over[0]), over[1..]);
    }
  }

  lemma {:induction false} MergeOnePhandles(ks: seq<Tree>, o: Tree)
    requires Sound(o)
    ensures PhandlesOf(MergeOne(ks, o)) <= PhandlesOf(ks) + Phandles(o)
    decreases o, 2
  {
    var i := Match(ks, o.name);
    if i.Some? {
      var t := Merge(ks[i.value], o);
      MergePhandles(ks[i.value], o);
      PhandlesUpdate(ks, i.value, t);
      Rearrange(PhandlesOf(ks[i.value := t]), Phandles(ks[i.value]), PhandlesOf(ks), Phandles(t), Phandles(o));
    } else {
      MergePhandles(Tree(o.name, [], []), o);
      EmptyPhandles(o.name);
      assert ([Merge(Tree(o.name, [], []), o)] + ks)[1..] == ks;
    }
  }

  lemma {:induction false} EmptyPhandles(name: seq<byte>)
    ensures Phandles(Tree(name, [], [])) == multiset{}
  {
    assert PhandlesOf([]) == multiset{};
  }

  lemma {:induction false} Rearrange(a': multiset<int>, x: multiset<int>, a: multiset<int>, x': multiset<int>,
    o: multiset<int>)
    requires a' + x == a + x' && x' <= x + o
    ensures a' <= a + o
  {
    forall v ensures a'[v] <= (a + o)[v] {
      assert (a' + x)[v] == (a + x')[v] && x'[v] <= (x + o)[v];
    }
  }
}
