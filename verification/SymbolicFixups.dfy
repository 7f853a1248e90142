/** fdt_overlay.c: what the symbolic fixups do to an overlay's phandles. */
module SymbolicFixups {
  import opened Bytes
  import opened DeviceTree
  import opened Fdt
  import opened Overlay
  import opened OverlayRefs
  import opened TreePaths
  import opened Fixups
  import opened OverlayApply
  import opened OverlayKeeps

  // ---- the entries, all at once ----

  /** An entry of the property of that name in /__fixups__. */
  datatype Labelled = Labelled(symbol: seq<byte>, entry: Entry)

  function LabelAll(symbol: seq<byte>, es: seq<Entry>): (ls: seq<Labelled>)
    ensures |ls| == |es| && forall i | 0 <= i < |es| :: ls[i] == Labelled(symbol, es[i])
  {
    if es == [] then [] else [Labelled(symbol, es[0])] + LabelAll(symbol, es[1..])
  }

  /** The entries of all properties, if they can be parsed. */
  function Entries(fs: seq<Property>): Option<seq<Labelled>> {
    if fs == [] then Some([])
    else
      var es, more := Parse(fs[0].val), Entries(fs[1..]);
      if es.None? || more.None? then None else Some(LabelAll(fs[0].name, es.value) + more.value)
  }

  ghost function FixList(base: Tree, t: Tree, ls: seq<Labelled>): Result<Tree>
    decreases |ls|
  {
    if ls == [] then Ok(t)
    else
      var r := FixEntry(base, t, ls[0].symbol, ls[0].entry);
      if r.Err? then r else FixList(base, r.value, ls[1..])
  }

  lemma {:induction false} FixListAppend(base: Tree, t: Tree, ls: seq<Labelled>, ms: seq<Labelled>)
    ensures var r := FixList(base, t, ls);
            FixList(base, t, ls + ms) == if r.Err? then r else FixList(base, r.value, ms)
    decreases |ls|
  {
    if ls == [] {
      assert ls + ms == ms;
    } else {
      assert (ls + ms)[1..] == ls[1..] + ms && (ls + ms)[0] == ls[0];
      var r := FixEntry(base, t, ls[0].symbol, ls[0].entry);
      if r.Ok? {
        FixListAppend(base, r.value, ls[1..], ms);
      }
    }
  }

  /** A successful loop over a value has parsed all of it, and has applied all entries. */
  lemma {:induction false} ValueFixed(base: Tree, t: Tree, symbol: seq<byte>, v: seq<byte>)
    requires FixValue(base, t, symbol, v).Ok?
    ensures Parse(v).Some? && FixValue(base, t, symbol, v) == FixList(base, t, LabelAll(symbol, Parse(v).value))
    decreases |v|
  {
    var end := Find(v, 0).value;
    var e := ParseEntry(v[..end]).value;
    var rest := v[end + 1..];
    var r := FixEntry(base, t, symbol, e).value;
    if rest == [] {
      assert LabelAll(symbol, [e])[1..] == [];
      assert FixList(base, r, []) == Ok(r);
    } else {
      ValueFixed(base, r, symbol, rest);
      var es := Parse(rest).value;
      assert ([e] + es)[1..] == es;
      assert LabelAll(symbol, [e] + es)[1..] == LabelAll(symbol, es);
    }
  }

  lemma {:induction false} PropsFixed(base: Tree, t: Tree, fs: seq<Property>)
    requires FixProps(base, t, fs).Ok?
    ensures Entries(fs).Some? && FixProps(base, t, fs) == FixList(base, t, Entries(fs).value)
    decreases |fs|
  {
    if fs != [] {
      ValueFixed(base, t, fs[0].name, fs[0].val);
      var r := FixValue(base, t, fs[0].name, fs[0].val).value;
      PropsFixed(base, r, fs[1..]);
      FixListAppend(base, t, LabelAll(fs[0].name, Parse(fs[0].val).value), Entries(fs[1..]).value);
    }
  }

  // ---- which nodes lose their own phandle ----

  /** The property that gives a node its phandle. */
  ghost function PhandleName(ps: seq<Property>): seq<byte> {
    if Cell(ps, PHANDLE).Some? then PHANDLE else LINUX_PHANDLE
  }

  /** The entry patches the phandle of the node at p. */
  ghost predicate HitBy(t: Tree, l: Labelled, p: seq<nat>) {
    FindPath(t, l.entry.path) == Ok(p) && Follow(t, p).Some? &&
    l.entry.name == PhandleName(Follow(t, p).value.props)
  }

  ghost predicate Hit(t: Tree, ls: seq<Labelled>, p: seq<nat>) { exists i :: 0 <= i < |ls| && HitBy(t, ls[i], p) }

  lemma {:induction false} HitFirst(t: Tree, ls: seq<Labelled>, p: seq<nat>)
    requires ls != []
    ensures Hit(t, ls, p) <==> HitBy(t, ls[0], p) || Hit(t, ls[1..], p)
  {
    if i :| 0 < i < |ls| && HitBy(t, ls[i], p) {
      assert ls[1..][i - 1] == ls[i];
    }
    if i :| 0 <= i < |ls| - 1 && HitBy(t, ls[1..][i], p) {
      assert ls[i + 1] == ls[1..][i];
    }
  }

  lemma {:induction false} LikeHit(t: Tree, u: Tree, l: Labelled, p: seq<nat>)
    requires Like(t, u, false)
    ensures HitBy(t, l, p) <==> HitBy(u, l, p)
  {
    LikeFindPath(t, u, l.entry.path);
    LikeFollow(t, u, p, false);
    if Follow(t, p).Some? {
      LayoutValue(Follow(t, p).value.props, Follow(u, p).value.props, PHANDLE);
    }
  }

  lemma {:induction false} LikeHits(t: Tree, u: Tree, ls: seq<Labelled>, p: seq<nat>)
    requires Like(t, u, false)
    ensures Hit(t, ls, p) <==> Hit(u, ls, p)
  {
    forall i | 0 <= i < |ls| ensures HitBy(t, ls[i], p) <==> HitBy(u, ls[i], p) {
      LikeHit(t, u, ls[i], p);
    }
  }

  // ---- one entry ----

  ghost function PhandleAt(t: Tree, p: seq<nat>): int
    requires Follow(t, p).Some?
  {
    Phandle(Follow(t, p).value.props)
  }

  lemma {:induction false} FollowOther(t: Tree, p: seq<nat>, ps: seq<Property>, q: seq<nat>)
    requires Follow(t, p).Some? && q != p
    ensures Follow(t, q).Some? <==> Follow(WithPropsAt(t, p, ps), q).Some?
    ensures Follow(t, q).Some? ==> Follow(WithPropsAt(t, p, ps), q).value.props == Follow(t, q).value.props
    decreases |p|
  {
    if p != [] && q != [] && p[0] == q[0] {
      assert p[1..] != q[1..] by { assert p == [p[0]] + p[1..] && q == [q[0]] + q[1..]; }
      FollowOther(t.kids[p[0]], p[1..], ps, q[1..]);
    }
  }

  lemma {:induction false} WithPropsLike(t: Tree, p: seq<nat>, ps: seq<Property>)
    requires Follow(t, p).Some? && SameLayout(Follow(t, p).value.props, ps)
    ensures Like(t, WithPropsAt(t, p, ps), false)
    decreases |p|
  {
    if p == [] {
      AllSelf(t.kids);
    } else {
      WithPropsLike(t.kids[p[0]], p[1..], ps);
      LikeOne(t.kids, p[0], WithPropsAt(t.kids[p[0]], p[1..], ps), false);
    }
  }

  /** Patching a property of a node whose phandle properties have four bytes. */
  lemma {:induction false} PatchedPhandle(ps: seq<Property>, name: seq<byte>, off: int, phandle: int)
    requires Value(ps, name).Some? && 0 <= off && off + 4 <= |Value(ps, name).value| && 0 < phandle < 0x1_0000_0000
    requires (Value(ps, PHANDLE).Some? ==> Cell(ps, PHANDLE).Some?) &&
             (Value(ps, LINUX_PHANDLE).Some? ==> Cell(ps, LINUX_PHANDLE).Some?)
    ensures Phandle(SetFirst(ps, name, Put(Value(ps, name).value, off, Be32(phandle)))) ==
            if name == PhandleName(ps) then phandle else Phandle(ps)
  {
    var v := Value(ps, name).value;
    var w := Put(v, off, Be32(phandle));
    assert PHANDLE[0] != LINUX_PHANDLE[0];
    ValueSet(ps, name, w, PHANDLE);
    ValueSet(ps, name, w, LINUX_PHANDLE);
    if IsPhandleName(name) {
      assert |v| == 4 && off == 0;
      LdPutSame(v, 0, phandle);
    }
  }

  lemma {:induction false} EntryFixed(base: Tree, t: Tree, l: Labelled, q: seq<nat>)
    requires FixEntry(base, t, l.symbol, l.entry).Ok? && Sound(t)
    ensures SymbolPhandle(base, l.symbol).Ok? && SymbolPhandle(base, l.symbol).value in Phandles(base)
    ensures var r := FixEntry(base, t, l.symbol, l.entry).value;
            Like(t, r, false) &&
            (Follow(t, q).Some? ==>
               Follow(r, q).Some? &&
               PhandleAt(r, q) == if HitBy(t, l, q) then SymbolPhandle(base, l.symbol).value else PhandleAt(t, q))
  {
    var e := l.entry;
    var p, ph := FindPath(t, e.path).value, SymbolPhandle(base, l.symbol).value;
    FindPathFollows(t, e.path);
    SymbolAmong(base, l.symbol);
    var ps := Follow(t, p).value.props;
    var v, o := Value(ps, e.name).value, Offset32(e.off);
    var qs := SetFirst(ps, e.name, Put(v, o, Be32(ph)));
    SetFirstLayout(ps, e.name, Put(v, o, Be32(ph)));
    WithPropsLike(t, p, qs);
    if q == p {
      SoundAt(t, p);
      PatchedPhandle(ps, e.name, o, ph);
      FollowWith(t, p, qs);
    } else {
      FollowOther(t, p, qs, q);
    }
  }

  lemma {:induction false} SymbolAmong(base: Tree, symbol: seq<byte>)
    requires SymbolPhandle(base, symbol).Ok?
    ensures SymbolPhandle(base, symbol).value in Phandles(base)
  {
    var text := CString(Value(base.kids[Match(base.kids, SYMBOLS).value].props, symbol).value).value;
    FindPathFollows(base, text);
    PhandleAmong(base, FindPath(base, text).value);
  }

  lemma {:induction false} SoundAt(t: Tree, p: seq<nat>)
    requires Sound(t) && Follow(t, p).Some?
    ensures Sound(Follow(t, p).value)
    decreases |p|
  {
    if p != [] {
      assert Sound(t.kids[p[0]]);
      SoundAt(t.kids[p[0]], p[1..]);
    }
  }

  // ---- all entries ----

  /** A node keeps its phandle unless an entry hits it; then it has a phandle of the base. */
  lemma {:induction false} ListFixed(base: Tree, t: Tree, ls: seq<Labelled>, q: seq<nat>)
    requires FixList(base, t, ls).Ok? && Sound(t)
    ensures var r := FixList(base, t, ls).value;
            Like(t, r, false) &&
            (Follow(t, q).Some? ==>
               Follow(r, q).Some? &&
               if Hit(t, ls, q) then PhandleAt(r, q) in Phandles(base) && PhandleAt(r, q) > 0
               else PhandleAt(r, q) == PhandleAt(t, q))
    decreases |ls|
  {
    if ls == [] {
      LikeSelf(t, false);
    } else {
      EntryFixed(base, t, ls[0], q);
      var t1 := FixEntry(base, t, ls[0].symbol, ls[0].entry).value;
      LikeSound(t, t1, false);
      ListFixed(base, t1, ls[1..], q);
      LikeTrans(t, t1, FixList(base, t, ls).value, false);
      HitFirst(t, ls, q);
      LikeHits(t, t1, ls[1..], q);
    }
  }

  /** The entries that FixAll applies. */
  ghost function FixupsOf(t: Tree): seq<Labelled> {
    var i := Match(t.kids, FIXUPS);
    if i.None? then [] else Entries(t.kids[i.value].props).GetOr([])
  }

  lemma {:induction false} AllFixed(base: Tree, t: Tree, q: seq<nat>)
    requires FixAll(base, t).Ok? && Sound(t)
    ensures var r := FixAll(base, t).value;
            Like(t, r, false) &&
            (Follow(t, q).Some? ==>
               Follow(r, q).Some? &&
               if Hit(t, FixupsOf(t), q) then PhandleAt(r, q) in Phandles(base) && PhandleAt(r, q) > 0
               else PhandleAt(r, q) == PhandleAt(t, q))
  {
    var i := Match(t.kids, FIXUPS);
    if i.None? {
      LikeSelf(t, false);
    } else {
      PropsFixed(base, t, t.kids[i.value].props);
      ListFixed(base, t, FixupsOf(t), q);
    }
  }

  // ---- the cells ----

  /** Four bytes at o of the property of that name of the node at p are the number v. */
  ghost predicate CellIs(t: Tree, p: seq<nat>, name: seq<byte>, o: int, v: int) {
    Follow(t, p).Some? &&
    var w := Value(Follow(t, p).value.props, name);
    w.Some? && 0 <= o && o + 4 <= |w.value| && Ld32(w.value, o) == v
  }

  /** The entry patches a byte of that cell. */
  ghost predicate Touches(t: Tree, l: Labelled, p: seq<nat>, name: seq<byte>, o: int) {
    FindPath(t, l.entry.path) == Ok(p) && l.entry.name == name && o - 4 < Offset32(l.entry.off) < o + 4
  }

  ghost predicate Touched(t: Tree, ls: seq<Labelled>, p: seq<nat>, name: seq<byte>, o: int) {
    exists i :: 0 <= i < |ls| && Touches(t, ls[i], p, name, o)
  }

  lemma {:induction false} TouchedFirst(t: Tree, ls: seq<Labelled>, p: seq<nat>, name: seq<byte>, o: int)
    requires ls != []
    ensures Touched(t, ls, p, name, o) <==> Touches(t, ls[0], p, name, o) || Touched(t, ls[1..], p, name, o)
  {
    if i :| 0 < i < |ls| && Touches(t, ls[i], p, name, o) {
      assert ls[1..][i - 1] == ls[i];
    }
    if i :| 0 <= i < |ls| - 1 && Touches(t, ls[1..][i], p, name, o) {
      assert ls[i + 1] == ls[1..][i];
    }
  }

  lemma {:induction false} TouchedLike(t: Tree, u: Tree, ls: seq<Labelled>, p: seq<nat>, name: seq<byte>, o: int)
    requires Like(t, u, false)
    ensures Touched(t, ls, p, name, o) <==> Touched(u, ls, p, name, o)
  {
    forall i | 0 <= i < |ls| ensures Touches(t, ls[i], p, name, o) <==> Touches(u, ls[i], p, name, o) {
      LikeFindPath(t, u, ls[i].entry.path);
    }
  }

  /** One entry leaves all trees alike, and all cells as they are but those it touches. */
  lemma {:induction false} EntryElsewhere(base: Tree, t: Tree, l: Labelled, p: seq<nat>, name: seq<byte>, o: int,
    v: int)
    requires FixEntry(base, t, l.symbol, l.entry).Ok?
    ensures Like(t, FixEntry(base, t, l.symbol, l.entry).value, false)
    ensures CellIs(t, p, name, o, v) && !Touches(t, l, p, name, o) ==>
              CellIs(FixEntry(base, t, l.symbol, l.entry).value, p, name, o, v)
  {
    var e := l.entry;
    var q, ph, k := FindPath(t, e.path).value, SymbolPhandle(base, l.symbol).value, Offset32(e.off);
    FindPathFollows(t, e.path);
    var ps := Follow(t, q).value.props;
    var w := Value(ps, e.name).value;
    var qs := SetFirst(ps, e.name, Put(w, k, Be32(ph)));
    SetFirstLayout(ps, e.name, Put(w, k, Be32(ph)));
    WithPropsLike(t, q, qs);
    if CellIs(t, p, name, o, v) && !Touches(t, l, p, name, o) {
      if p == q {
        FollowWith(t, q, qs);
        ValueSet(ps, e.name, Put(w, k, Be32(ph)), name);
        if name == e.name {
          LdPutOther(w, k, Be32(ph), o);
        }
      } else {
        FollowOther(t, q, qs, p);
      }
    }
  }

  lemma {:induction false} ListElsewhere(base: Tree, t: Tree, ls: seq<Labelled>, p: seq<nat>, name: seq<byte>, o: int,
    v: int)
    requires FixList(base, t, ls).Ok?
    ensures Like(t, FixList(base, t, ls).value, false)
    ensures CellIs(t, p, name, o, v) && !Touched(t, ls, p, name, o) ==>
              CellIs(FixList(base, t, ls).value, p, name, o, v)
    decreases |ls|
  {
    if ls == [] {
      LikeSelf(t, false);
    } else {
      var t1 := FixEntry(base, t, ls[0].symbol, ls[0].entry).value;
      EntryElsewhere(base, t, ls[0], p, name, o, v);
      ListElsewhere(base, t1, ls[1..], p, name, o, v);
      LikeTrans(t, t1, FixList(base, t, ls).value, false);
      TouchedFirst(t, ls, p, name, o);
      TouchedLike(t, t1, ls[1..], p, name, o);
    }
  }

  /** An entry that no later one overwrites holds in the end. */
  lemma {:induction false} ListHolds(base: Tree, t: Tree, ls: seq<Labelled>, i: nat)
    requires FixList(base, t, ls).Ok? && i < |ls|
    ensures SymbolPhandle(base, ls[i].symbol).Ok? && FindPath(t, ls[i].entry.path).Ok?
    ensures var p, o := FindPath(t, ls[i].entry.path).value, Offset32(ls[i].entry.off);
            !Touched(t, ls[i + 1..], p, ls[i].entry.name, o) ==>
              CellIs(FixList(base, t, ls).value, p, ls[i].entry.name, o, SymbolPhandle(base, ls[i].symbol).value)
    decreases i
  {
    var l := ls[0];
    var t1 := FixEntry(base, t, l.symbol, l.entry).value;
    EntryElsewhere(base, t, l, [], [], 0, 0);
    if i == 0 {
      FixEntryIs(base, t, l.symbol, l.entry);
      var p, o, v := FindPath(t, l.entry.path).value, Offset32(l.entry.off), SymbolPhandle(base, l.symbol).value;
      ListElsewhere(base, t1, ls[1..], p, l.entry.name, o, v);
      TouchedLike(t, t1, ls[1..], p, l.entry.name, o);
    } else {
      assert ls[1..][i - 1] == ls[i] && ls[1..][i..] == ls[i + 1..];
      ListHolds(base, t1, ls[1..], i - 1);
      LikeFindPath(t, t1, ls[i].entry.path);
      TouchedLike(t, t1, ls[i + 1..], FindPath(t, ls[i].entry.path).value, ls[i].entry.name,
        Offset32(ls[i].entry.off));
    }
  }

  /** The main result on symbolic fixups: in the end every cell listed holds the phandle that its label
      stands for, unless a later entry overwrites it, and every cell that no entry touches is as it
      was. */
  lemma {:induction false} FixupsHold(base: Tree, t: Tree)
    requires FixAll(base, t).Ok?
    ensures var ls, r := FixupsOf(t), FixAll(base, t).value;
            (forall i | 0 <= i < |ls| ::
               SymbolPhandle(base, ls[i].symbol).Ok? && FindPath(t, ls[i].entry.path).Ok? &&
               var p, o := FindPath(t, ls[i].entry.path).value, Offset32(ls[i].entry.off);
               !Touched(t, ls[i + 1..], p, ls[i].entry.name, o) ==>
                 CellIs(r, p, ls[i].entry.name, o, SymbolPhandle(base, ls[i].symbol).value)) &&
            forall p, name, o, v :: CellIs(t, p, name, o, v) && !Touched(t, ls, p, name, o) ==> CellIs(r, p, name, o, v)
  {
    var m := Match(t.kids, FIXUPS);
    if m.Some? {
      var ls := FixupsOf(t);
      PropsFixed(base, t, t.kids[m.value].props);
      forall i | 0 <= i < |ls|
        ensures SymbolPhandle(base, ls[i].symbol).Ok? && FindPath(t, ls[i].entry.path).Ok?
        ensures var p, o := FindPath(t, ls[i].entry.path).value, Offset32(ls[i].entry.off);
                !Touched(t, ls[i + 1..], p, ls[i].entry.name, o) ==>
                  CellIs(FixList(base, t, ls).value, p, ls[i].entry.name, o, SymbolPhandle(base, ls[i].symbol).value)
      {
        ListHolds(base, t, ls, i);
      }
      forall p, name, o, v | CellIs(t, p, name, o, v) && !Touched(t, ls, p, name, o)
        ensures CellIs(FixList(base, t, ls).value, p, name, o, v)
      {
        ListElsewhere(base, t, ls, p, name, o, v);
      }
    }
  }

  // ---- when all fixups succeed ----

  /** Entries that parse are applied one after the other, up to the first that fails. */
  lemma {:induction false} ValueFixes(base: Tree, t: Tree, symbol: seq<byte>, v: seq<byte>)
    requires Parse(v).Some?
    ensures FixValue(base, t, symbol, v) == FixList(base, t, LabelAll(symbol, Parse(v).value))
    decreases |v|
  {
    var end := Find(v, 0).value;
    var e := ParseEntry(v[..end]).value;
    var rest := v[end + 1..];
    var r := FixEntry(base, t, symbol, e);
    if rest == [] {
      assert LabelAll(symbol, [e])[1..] == [];
      if r.Ok? {
        assert FixList(base, r.value, []) == Ok(r.value);
      }
    } else {
      var es := Parse(rest).value;
      assert ([e] + es)[1..] == es;
      assert LabelAll(symbol, [e] + es)[1..] == LabelAll(symbol, es);
      if r.Ok? {
        ValueFixes(base, r.value, symbol, rest);
      }
    }
  }

  lemma {:induction false} PropsFix(base: Tree, t: Tree, fs: seq<Property>)
    requires Entries(fs).Some?
    ensures FixProps(base, t, fs) == FixList(base, t, Entries(fs).value)
    decreases |fs|
  {
    if fs != [] {
      ValueFixes(base, t, fs[0].name, fs[0].val);
      var r := FixValue(base, t, fs[0].name, fs[0].val);
      FixListAppend(base, t, LabelAll(fs[0].name, Parse(fs[0].val).value), Entries(fs[1..]).value);
      if r.Ok? {
        PropsFix(base, r.value, fs[1..]);
      }
    }
  }

  /** The cell of the entry is there. */
  ghost predicate Standing(t: Tree, l: Labelled) {
    FindPath(t, l.entry.path).Ok? && Follow(t, FindPath(t, l.entry.path).value).Some? &&
    var w := Value(Follow(t, FindPath(t, l.entry.path).value).value.props, l.entry.name);
    w.Some? && Offset32(l.entry.off) + 4 <= |w.value| && |w.value| < 0x1_0000_0000
  }

  lemma {:induction false} StandingLike(t: Tree, u: Tree, l: Labelled)
    requires Like(t, u, false) && Standing(t, l)
    ensures Standing(u, l)
  {
    LikeFindPath(t, u, l.entry.path);
    var p := FindPath(t, l.entry.path).value;
    LikeFollow(t, u, p, false);
    LayoutValue(Follow(t, p).value.props, Follow(u, p).value.props, l.entry.name);
  }

  lemma {:induction false} EntrySucceeds(base: Tree, t: Tree, l: Labelled)
    requires Standing(t, l)
    ensures FixEntry(base, t, l.symbol, l.entry).Ok? <==> SymbolPhandle(base, l.symbol).Ok?
  {
    U32Small(Offset32(l.entry.off) + 4);
  }

  /** If all cells are there, the fixups succeed iff all labels stand for a phandle. */
  lemma {:induction false} ListSucceeds(base: Tree, t: Tree, ls: seq<Labelled>)
    requires forall i | 0 <= i < |ls| :: Standing(t, ls[i])
    ensures FixList(base, t, ls).Ok? <==> forall i | 0 <= i < |ls| :: SymbolPhandle(base, ls[i].symbol).Ok?
    decreases |ls|
  {
    if ls != [] {
      EntrySucceeds(base, t, ls[0]);
      if FixEntry(base, t, ls[0].symbol, ls[0].entry).Ok? {
        var t1 := FixEntry(base, t, ls[0].symbol, ls[0].entry).value;
        EntryElsewhere(base, t, ls[0], [], [], 0, 0);
        forall i | 0 <= i < |ls| - 1 ensures Standing(t1, ls[1..][i]) {
          StandingLike(t, t1, ls[i + 1]);
        }
        ListSucceeds(base, t1, ls[1..]);
        assert forall i | 0 <= i < |ls| - 1 :: ls[1..][i] == ls[i + 1];
      }
    }
  }
}
