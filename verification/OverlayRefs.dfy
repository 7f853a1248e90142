/** fdt_overlay.c on device trees: the update of local references, the symbolic fixups, and
    what all steps together guarantee. */
module OverlayRefs {
  import opened Bytes
  import opened DeviceTree
  import opened Fdt
  import opened Walk
  import opened Lookup
  import opened Overlay

  // ---- overlay_update_local_node_references ----

  /** The inner loop from cell k of the fixup value on: delta is added to the big-endian
      cells of v at the listed offsets, one after the other.  The sum of offset and length is a
      32-bit one, so the last offsets pass the test although the cell is outside. */
  ghost function Bump(v: seq<byte>, offsets: seq<byte>, k: nat, delta: int): (r: Result<seq<byte>>)
    ensures r.Ok? ==> |r.value| == |v|
    decreases |offsets| - 4 * k
  {
    if 4 * k + 4 > |offsets| then Ok(v)
    else
      var o := Ld32(offsets, 4 * k);
      if |v| < U32(o + 4) then Err(BADOVERLAY)
      else if |v| < o + 4 then Err(STRAYS)
      else Bump(Put(v, o, Be32(U32(Ld32(v, o) + delta))), offsets, k + 1, delta)
  }

  ghost function UpdateProps(ps: seq<Property>, fs: seq<Property>, delta: int): Result<seq<Property>>
    decreases |fs|
  {
    if fs == [] then Ok(ps)
    else if |fs[0].val| % 4 != 0 then Err(BADOVERLAY)
    else
      var v := Value(ps, fs[0].name);
      if v.None? then Err(BADOVERLAY)
      else
        var r := Bump(v.value, fs[0].val, 0, delta);
        if r.Err? then Err(r.code) else UpdateProps(SetFirst(ps, fs[0].name, r.value), fs[1..], delta)
  }

  /** overlay_update_local_node_references for the node t and its fixup node. */
  ghost function Update(t: Tree, fix: Tree, delta: int): Result<Tree>
    decreases fix, 1
  {
    var ps := UpdateProps(t.props, fix.props, delta);
    if ps.Err? then Err(ps.code)
    else
      var ks := UpdateKids(t.kids, fix.kids, delta);
      if ks.Err? then Err(ks.code) else Ok(Tree(t.name, ps.value, ks.value))
  }

  ghost function UpdateKids(ks: seq<Tree>, fs: seq<Tree>, delta: int): Result<seq<Tree>>
    decreases fs, 0
  {
    if fs == [] then Ok(ks)
    else
      var i := Match(ks, fs[0].name);
      if i.None? then Err(BADOVERLAY)
      else
        var r := Update(ks[i.value], fs[0], delta);
        if r.Err? then Err(r.code) else UpdateKids(ks[i.value := r.value], fs[1..], delta)
  }

  // ---- the cells ----

  /** The listed cells do not overlap. */
  ghost predicate Apart(offsets: seq<byte>) {
    forall i: nat, j: nat | 4 * i + 4 <= |offsets| && 4 * j + 4 <= |offsets| && i != j ::
      var a, b := Ld32(offsets, 4 * i), Ld32(offsets, 4 * j); a + 4 <= b || b + 4 <= a
  }

  /** All cells listed from k on lie in a value of that length. */
  ghost predicate Reachable(n: nat, offsets: seq<byte>, k: nat)
    decreases |offsets| - 4 * k
  {
    4 * k + 4 <= |offsets| ==> Ld32(offsets, 4 * k) + 4 <= n && Reachable(n, offsets, k + 1)
  }

  /** The loop succeeds iff all listed cells lie in the value; it goes outside only at an offset of
      0xfffffffc or more. */
  lemma {:induction false} BumpExact(v: seq<byte>, offsets: seq<byte>, k: nat, delta: int)
    ensures Bump(v, offsets, k, delta).Ok? <==> Reachable(|v|, offsets, k)
    ensures Bump(v, offsets, k, delta) == Err(STRAYS) ==>
              exists i: nat :: k <= i && 4 * i + 4 <= |offsets| && Ld32(offsets, 4 * i) >= 0xffff_fffc
    decreases |offsets| - 4 * k
  {
    if 4 * k + 4 <= |offsets| {
      var o := Ld32(offsets, 4 * k);
      U32Small(o + 4);
      if o + 4 <= |v| {
        BumpExact(Put(v, o, Be32(U32(Ld32(v, o) + delta))), offsets, k + 1, delta);
      }
    }
  }

  /** Bytes outside the cells listed from k on do not change. */
  lemma {:induction false} BumpElsewhere(v: seq<byte>, offsets: seq<byte>, k: nat, delta: int, lo: nat, hi: nat)
    requires Bump(v, offsets, k, delta).Ok? && lo <= hi <= |v|
    requires forall i: nat | k <= i && 4 * i + 4 <= |offsets| ::
               hi <= Ld32(offsets, 4 * i) ||
               Ld32(offsets, 4 * i) + 4 <= lo
    ensures Bump(v, offsets, k, delta).value[lo..hi] == v[lo..hi]
    decreases |offsets| - 4 * k
  {
    if 4 * k + 4 <= |offsets| {
      var o := Ld32(offsets, 4 * k);
      var x := Be32(U32(Ld32(v, o) + delta));
      PutSlice(v, o, x, lo, hi);
      BumpElsewhere(Put(v, o, x), offsets, k + 1, delta, lo, hi);
    }
  }

  /** Every listed cell is raised by delta, modulo 2^32, exactly once. */
  lemma {:induction false} BumpListed(v: seq<byte>, offsets: seq<byte>, k: nat, delta: int, j: nat)
    requires Bump(v, offsets, k, delta).Ok? && Apart(offsets) && k <= j && 4 * j + 4 <= |offsets|
    ensures var o := Ld32(offsets, 4 * j);
            o + 4 <= |v| && Ld32(Bump(v, offsets, k, delta).value, o) == U32(Ld32(v, o) + delta)
    decreases |offsets| - 4 * k
  {
    var o, a := Ld32(offsets, 4 * k), Ld32(offsets, 4 * j);
    var x := Be32(U32(Ld32(v, o) + delta));
    var w := Put(v, o, x);
    if j == k {
      LdPutSame(v, o, U32(Ld32(v, o) + delta));
      BumpElsewhere(w, offsets, k + 1, delta, o, o + 4);
      var r := Bump(v, offsets, k, delta).value;
      SameDef(r, o, w, o, 4);
      LdSame(r, o, w, o);
    } else {
      BumpListed(w, offsets, k + 1, delta, j);
      LdPutOther(v, o, x, a);
    }
  }

  /** A property listed once has its listed cells raised; others are as before. */
  lemma {:induction false} UpdatePropsIs(ps: seq<Property>, fs: seq<Property>, delta: int, name: seq<byte>)
    requires UpdateProps(ps, fs, delta).Ok? && UniqueNames(fs)
    ensures var r := Value(UpdateProps(ps, fs, delta).value, name);
            var f := Value(fs, name);
            if f.None? then r == Value(ps, name)
            else Value(ps, name).Some? && Bump(Value(ps, name).value, f.value, 0, delta).Ok? &&
                 r == Some(Bump(Value(ps, name).value, f.value, 0, delta).value)
    decreases |fs|
  {
    if fs != [] {
      var b := Bump(Value(ps, fs[0].name).value, fs[0].val, 0, delta).value;
      var qs := SetFirst(ps, fs[0].name, b);
      ValueSet(ps, fs[0].name, b, name);
      UpdatePropsIs(qs, fs[1..], delta, name);
      if fs[0].name == name {
        HasValue(fs[1..], name);
      }
    }
  }

  // ---- following a path ----

  function Follow(t: Tree, p: seq<nat>): Option<Tree>
    decreases |p|
  {
    if p == [] then Some(t) else if p[0] < |t.kids| then Follow(t.kids[p[0]], p[1..]) else None
  }

  /** The fixup child that updates the i-th child. */
  function FixFor(ks: seq<Tree>, fs: seq<Tree>, i: nat): Option<Tree> {
    if fs == [] then None
    else if Match(ks, fs[0].name) == Some(i) then Some(fs[0])
    else FixFor(ks, fs[1..], i)
  }

  /** The fixup node that mirrors the node at path p. */
  function FixAt(t: Tree, fix: Tree, p: seq<nat>): Option<Tree>
    decreases |p|
  {
    if p == [] then Some(fix)
    else if p[0] >= |t.kids| then None
    else
      var f := FixFor(t.kids, fix.kids, p[0]);
      if f.None? then None else FixAt(t.kids[p[0]], f.value, p[1..])
  }

  /** Same names, in the same order. */
  predicate Homonyms(a: seq<Tree>, b: seq<Tree>) { |a| == |b| && forall i | 0 <= i < |a| :: a[i].name == b[i].name }

  lemma {:induction false} MatchHomonyms(a: seq<Tree>, b: seq<Tree>, name: seq<byte>)
    requires Homonyms(a, b)
    ensures Match(a, name) == Match(b, name)
    decreases |a|
  {
    if a != [] && !NodeNameEq(a[0].name, name) {
      assert forall i | 0 <= i < |a| - 1 :: a[1..][i] == a[i + 1] && b[1..][i] == b[i + 1];
      MatchHomonyms(a[1..], b[1..], name);
    }
  }

  lemma {:induction false} FixForHomonyms(a: seq<Tree>, b: seq<Tree>, fs: seq<Tree>, i: nat)
    requires Homonyms(a, b)
    ensures FixFor(a, fs, i) == FixFor(b, fs, i)
    decreases |fs|
  {
    if fs != [] {
      MatchHomonyms(a, b, fs[0].name);
      FixForHomonyms(a, b, fs[1..], i);
    }
  }

  /** No two fixup children of a node update the same child, and no fixup node lists a
      property twice. */
  ghost predicate Mirrors(t: Tree, fix: Tree)
    decreases fix, 1
  {
    UniqueNames(fix.props) && MirrorsAll(t.kids, fix.kids)
  }

  ghost predicate MirrorsAll(ks: seq<Tree>, fs: seq<Tree>)
    decreases fs, 0
  {
    fs == [] ||
    (MirrorsAll(ks, fs[1..]) &&
     var i := Match(ks, fs[0].name);
     i.Some? ==> FixFor(ks, fs[1..], i.value).None? && Mirrors(ks[i.value], fs[0]))
  }

  /** MirrorsAll depends only on the children that are updated. */
  lemma {:induction false} MirrorsOthers(a: seq<Tree>, b: seq<Tree>, fs: seq<Tree>, i: nat)
    requires Homonyms(a, b) && MirrorsAll(a, fs) && i < |a| && FixFor(a, fs, i).None?
    requires forall j | 0 <= j < |a| && j != i :: a[j] == b[j]
    ensures MirrorsAll(b, fs)
    decreases |fs|
  {
    if fs != [] {
      MatchHomonyms(a, b, fs[0].name);
      MirrorsOthers(a, b, fs[1..], i);
      var m := Match(a, fs[0].name);
      if m.Some? {
        FixForHomonyms(a, b, fs[1..], m.value);
      }
    }
  }

  /** The children after the update: each updated by its fixup child, if it has one. */
  lemma {:induction false} UpdateKidsIs(ks: seq<Tree>, fs: seq<Tree>, delta: int, i: nat)
    requires UpdateKids(ks, fs, delta).Ok? && MirrorsAll(ks, fs) && i < |ks|
    ensures var rs := UpdateKids(ks, fs, delta).value;
            Homonyms(ks, rs) &&
            var f := FixFor(ks, fs, i);
            if f.None? then rs[i] == ks[i]
            else Mirrors(ks[i], f.value) && Update(ks[i], f.value, delta) == Ok(rs[i])
    decreases |fs|
  {
    if fs != [] {
      var m := Match(ks, fs[0].name).value;
      var u := Update(ks[m], fs[0], delta).value;
      var ls := ks[m := u];
      assert Homonyms(ks, ls);
      MirrorsOthers(ks, ls, fs[1..], m);
      UpdateKidsIs(ls, fs[1..], delta, i);
      FixForHomonyms(ks, ls, fs[1..], i);
    }
  }

  /** Every node's properties after the update are those that its own fixup node describes. */
  lemma {:induction false} UpdateAt(t: Tree, fix: Tree, delta: int, p: seq<nat>)
    requires Update(t, fix, delta).Ok? && Mirrors(t, fix) && Follow(t, p).Some?
    ensures var r := Follow(Update(t, fix, delta).value, p);
            var f := FixAt(t, fix, p);
            r.Some? &&
            if f.None? then r.value.props == Follow(t, p).value.props
            else UniqueNames(f.value.props) &&
                 UpdateProps(Follow(t, p).value.props, f.value.props, delta) == Ok(r.value.props)
    decreases |p|
  {
    if p != [] {
      UpdateKidsIs(t.kids, fix.kids, delta, p[0]);
      var f := FixFor(t.kids, fix.kids, p[0]);
      if f.Some? {
        UpdateAt(t.kids[p[0]], f.value, delta, p[1..]);
      }
    }
  }

  lemma {:induction false} ShiftAllAt(ts: seq<Tree>, delta: int, i: nat)
    requires ShiftAll(ts, delta).Ok? && i < |ts|
    ensures var rs := ShiftAll(ts, delta).value; |rs| == |ts| && Shift(ts[i], delta) == Ok(rs[i])
    decreases |ts|
  {
    var rs := ShiftAll(ts[1..], delta).value;
    assert ShiftAll(ts, delta).value[1..] == rs;
    if i > 0 {
      ShiftAllAt(ts[1..], delta, i - 1);
      assert ShiftAll(ts, delta).value[i] == rs[i - 1];
    } else if |ts| > 1 {
      ShiftAllAt(ts[1..], delta, 0);
    }
  }

  lemma {:induction false} ShiftAt(t: Tree, delta: int, p: seq<nat>)
    requires Shift(t, delta).Ok? && Follow(t, p).Some?
    ensures var r := Follow(Shift(t, delta).value, p);
            r.Some? && ShiftProps(Follow(t, p).value.props, delta) == Ok(r.value.props)
    decreases |p|
  {
    if p != [] {
      ShiftAllAt(t.kids, delta, p[0]);
      ShiftAt(t.kids[p[0]], delta, p[1..]);
    }
  }

  predicate IsPhandleName(name: seq<byte>) { name == PHANDLE || name == LINUX_PHANDLE }

  /** No fixup node lists a phandle property. */
  predicate SparesPhandles(fix: Tree)
    decreases fix, 1
  {
    (forall i | 0 <= i < |fix.props| :: !IsPhandleName(fix.props[i].name)) && AllSpare(fix.kids)
  }

  predicate AllSpare(fs: seq<Tree>)
    decreases fs, 0
  {
    forall i | 0 <= i < |fs| :: SparesPhandles(fs[i])
  }

  lemma {:induction false} FixForSpares(ks: seq<Tree>, fs: seq<Tree>, i: nat)
    requires AllSpare(fs)
    ensures FixFor(ks, fs, i).Some? ==> SparesPhandles(FixFor(ks, fs, i).value)
    decreases |fs|
  {
    if fs != [] {
      FixForSpares(ks, fs[1..], i);
    }
  }

  lemma {:induction false} FixAtSpares(t: Tree, fix: Tree, p: seq<nat>)
    requires SparesPhandles(fix)
    ensures FixAt(t, fix, p).Some? ==> SparesPhandles(FixAt(t, fix, p).value)
    decreases |p|
  {
    if p != [] && p[0] < |t.kids| {
      FixForSpares(t.kids, fix.kids, p[0]);
      var f := FixFor(t.kids, fix.kids, p[0]);
      if f.Some? {
        FixAtSpares(t.kids[p[0]], f.value, p[1..]);
      }
    }
  }

  lemma {:induction false} UpdatedPhandle(ps: seq<Property>, fs: seq<Property>, delta: int)
    requires UpdateProps(ps, fs, delta).Ok? && UniqueNames(fs) && forall i | 0 <= i < |fs| :: !IsPhandleName(fs[i].name)
    ensures Phandle(UpdateProps(ps, fs, delta).value) == Phandle(ps)
  {
    HasValue(fs, PHANDLE);
    HasValue(fs, LINUX_PHANDLE);
    UpdatePropsIs(ps, fs, delta, PHANDLE);
    UpdatePropsIs(ps, fs, delta, LINUX_PHANDLE);
  }

  /** After shifting and updating, the node at path q has its old phandle plus delta, or none. */
  lemma {:induction false} PhandleMoves(over: Tree, fix: Tree, delta: int, q: seq<nat>)
    requires 0 <= delta < 0x1_0000_0000 && Shift(over, delta).Ok? && Follow(over, q).Some?
    requires var s := Shift(over, delta).value; Mirrors(s, fix) && SparesPhandles(fix) && Update(s, fix, delta).Ok?
    ensures var n := Follow(Update(Shift(over, delta).value, fix, delta).value, q);
            n.Some? && Phandle(n.value.props) < 0xffff_ffff &&
            (Phandle(Follow(over, q).value.props) > 0 ==>
              Phandle(n.value.props) == Phandle(Follow(over, q).value.props) + delta)
  {
    var s := Shift(over, delta).value;
    ShiftAt(over, delta, q);
    ShiftPropsIs(Follow(over, q).value.props, delta);
    UpdateAt(s, fix, delta, q);
    FixAtSpares(s, fix, q);
    var f := FixAt(s, fix, q);
    if f.Some? {
      UpdatedPhandle(Follow(s, q).value.props, f.value.props, delta);
    }
  }

  /** If the fixups list no phandle property: when the j-th listed cell of property `name` of the
      node at p held the phandle of the node at q, it holds the new phandle of the node at q after
      both steps. */
  lemma {:induction false} ReferenceMoves(over: Tree, fix: Tree, delta: int, p: seq<nat>, name: seq<byte>,
    j: nat, q: seq<nat>)
    requires 0 <= delta < 0x1_0000_0000 && Shift(over, delta).Ok? && Follow(over, p).Some? && Follow(over, q).Some?
    requires var s := Shift(over, delta).value; Mirrors(s, fix) && SparesPhandles(fix) && Update(s, fix, delta).Ok?
    requires !IsPhandleName(name) && Value(Follow(over, p).value.props, name).Some?
    requires var f := FixAt(Shift(over, delta).value, fix, p);
             f.Some? && Value(f.value.props, name).Some? &&
             var offsets, v := Value(f.value.props, name).value, Value(Follow(over, p).value.props, name).value;
             Apart(offsets) && 4 * j + 4 <= |offsets| && Ld32(offsets, 4 * j) + 4 <= |v| &&
             Ld32(v, Ld32(offsets, 4 * j)) == Phandle(Follow(over, q).value.props) > 0
    ensures var u := Update(Shift(over, delta).value, fix, delta).value;
            var o := Ld32(Value(FixAt(Shift(over, delta).value, fix, p).value.props, name).value, 4 * j);
            Follow(u, p).Some? && Follow(u, q).Some? && Value(Follow(u, p).value.props, name).Some? &&
            o + 4 <= |Value(Follow(u, p).value.props, name).value| &&
            Ld32(Value(Follow(u, p).value.props, name).value, o) == Phandle(Follow(u, q).value.props)
  {
    var s := Shift(over, delta).value;
    var f := FixAt(s, fix, p).value;
    PhandleMoves(over, fix, delta, q);
    ShiftAt(over, delta, p);
    ShiftPropsIs(Follow(over, p).value.props, delta);
    UpdateAt(s, fix, delta, p);
    UpdatePropsIs(Follow(s, p).value.props, f.props, delta, name);
    BumpListed(Value(Follow(over, p).value.props, name).value, Value(f.props, name).value, 0, delta, j);
    U32Small(Phandle(Follow(over, q).value.props) + delta);
  }
}
