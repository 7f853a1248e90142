/** fdt_overlay.c on device trees: fdt_overlay_apply up to overlay_symbol_update. */
module OverlayApply {
  import opened Bytes
  import opened Syntax
  import opened DeviceTree
  import opened Fdt
  import opened Lookup
  import opened Paths
  import opened Walk
  import opened Overlay
  import opened OverlayRefs
  import opened TreePaths
  import opened Fixups

  /** "__local_fixups__" */
  const LOCAL_FIXUPS: seq<byte> := [95, 95, 108, 111, 99, 97, 108, 95, 102, 105, 120, 117, 112, 115, 95, 95]

  /** "__fixups__" */
  const FIXUPS: seq<byte> := [95, 95, 102, 105, 120, 117, 112, 115, 95, 95]

  /** "__symbols__" */
  const SYMBOLS: seq<byte> := [95, 95, 115, 121, 109, 98, 111, 108, 115, 95, 95]

  /** "__overlay__" */
  const OVERLAY: seq<byte> := [95, 95, 111, 118, 101, 114, 108, 97, 121, 95, 95]

  /** "target" */
  const TARGET: seq<byte> := [116, 97, 114, 103, 101, 116]

  /** "target-path" */
  const TARGET_PATH: seq<byte> := [116, 97, 114, 103, 101, 116, 45, 112, 97, 116, 104]

  // ---- overlay_update_local_references ----

  /** The fixup tree is read before anything is updated. */
  ghost function UpdateLocal(s: Tree, delta: int): Result<Tree> {
    var i := Match(s.kids, LOCAL_FIXUPS);
    if i.None? then Ok(s) else Update(s, s.kids[i.value], delta)
  }

  // ---- overlay_fixup_one_phandle ----

  /** t with the properties of the node at p replaced. */
  function WithPropsAt(t: Tree, p: seq<nat>, ps: seq<Property>): Tree
    requires Follow(t, p).Some?
    decreases |p|
  {
    if p == [] then t.(props := ps) else t.(kids := t.kids[p[0] := WithPropsAt(t.kids[p[0]], p[1..], ps)])
  }

  lemma {:induction false} FollowWith(t: Tree, p: seq<nat>, ps: seq<Property>)
    requires Follow(t, p).Some?
    ensures Follow(WithPropsAt(t, p, ps), p) == Some(Follow(t, p).value.(props := ps))
    decreases |p|
  {
    if p != [] {
      FollowWith(t.kids[p[0]], p[1..], ps);
    }
  }

  /** The C string at the start of a value; without a NUL the code reads on behind it. */
  function CString(v: seq<byte>): Result<seq<byte>> {
    var z := NulIndex(v, 0);
    if z.None? then Err(STRAYS) else Ok(v[..z.value])
  }

  /** The phandle that a label stands for: that of the node of the base whose path the property of
      that name in /__symbols__ holds. */
  ghost function SymbolPhandle(base: Tree, symbol: seq<byte>): (r: Result<int>)
    ensures r.Ok? ==> 0 < r.value < 0x1_0000_0000
  {
    var i := Match(base.kids, SYMBOLS);
    var v := if i.None? then None else Value(base.kids[i.value].props, symbol);
    if v.None? then Err(NOTFOUND)
    else
      var text := CString(v.value);
      if text.Err? then Err(text.code)
      else
        var p := FindPath(base, text.value);
        if p.Err? then Err(p.code)
        else
          FindPathFollows(base, text.value);
          var ph := Phandle(Follow(base, p.value).value.props);
          if ph == 0 then Err(NOTFOUND) else Ok(ph)
  }

  /** A number that strtoul has read, as an offset: of its 64 bits 32 are passed on. */
  function Offset32(n: nat): (r: int)
    ensures 0 <= r < 0x1_0000_0000
  {
    U32(n)
  }

  /** Four bytes of the property e.name of the node at p become the phandle. */
  ghost function PatchAt(t: Tree, p: seq<nat>, e: Entry, phandle: int): Result<Tree>
    requires Follow(t, p).Some?
  {
    var ps := Follow(t, p).value.props;
    var v, o := Value(ps, e.name), Offset32(e.off);
    if v.None? then Err(NOTFOUND)
    else if |v.value| < U32(o + 4) then Err(NOSPACE)
    else if |v.value| < o + 4 then Err(STRAYS)
    else Ok(WithPropsAt(t, p, SetFirst(ps, e.name, Put(v.value, o, Be32(phandle)))))
  }

  /** overlay_fixup_one_phandle for one entry of the property `symbol`. */
  ghost function FixEntry(base: Tree, t: Tree, symbol: seq<byte>, e: Entry): Result<Tree> {
    var ph := SymbolPhandle(base, symbol);
    if ph.Err? then Err(ph.code)
    else
      var p := FindPath(t, e.path);
      if p.Err? then Err(if p.code == NOTFOUND then BADOVERLAY else p.code)
      else
        FindPathFollows(t, e.path);
        PatchAt(t, p.value, e, ph.value)
  }

  /** A fixup makes its cell hold the phandle of the node that the label names in the base. */
  lemma {:induction false} FixEntryIs(base: Tree, t: Tree, symbol: seq<byte>, e: Entry)
    requires FixEntry(base, t, symbol, e).Ok?
    ensures FindPath(t, e.path).Ok? && SymbolPhandle(base, symbol).Ok?
    ensures var n := Follow(FixEntry(base, t, symbol, e).value, FindPath(t, e.path).value);
            var o := Offset32(e.off);
            n.Some? && Value(n.value.props, e.name).Some? && o + 4 <= |Value(n.value.props, e.name).value| &&
            Ld32(Value(n.value.props, e.name).value, o) == SymbolPhandle(base, symbol).value
  {
    var p, ph, o := FindPath(t, e.path).value, SymbolPhandle(base, symbol).value, Offset32(e.off);
    FindPathFollows(t, e.path);
    var ps := Follow(t, p).value.props;
    var v := Value(ps, e.name).value;
    var w := Put(v, o, Be32(ph));
    FollowWith(t, p, SetFirst(ps, e.name, w));
    ValueSet(ps, e.name, w, e.name);
    LdPutSame(v, o, ph);
  }

  // ---- overlay_fixup_phandle, overlay_fixup_phandles ----

  /** The do-while loop over the value of one property of /__fixups__. */
  ghost function FixValue(base: Tree, t: Tree, symbol: seq<byte>, v: seq<byte>): Result<Tree>
    decreases |v|
  {
    var end := Find(v, 0);
    if end.None? then Err(BADOVERLAY)
    else
      var e := ParseEntry(v[..end.value]);
      if e.None? then Err(BADOVERLAY)
      else
        var r := FixEntry(base, t, symbol, e.value);
        var rest := v[end.value + 1..];
        if r.Err? || rest == [] then r else FixValue(base, r.value, symbol, rest)
  }

  ghost function FixProps(base: Tree, t: Tree, fs: seq<Property>): Result<Tree>
    decreases |fs|
  {
    if fs == [] then Ok(t)
    else
      var r := FixValue(base, t, fs[0].name, fs[0].val);
      if r.Err? then r else FixProps(base, r.value, fs[1..])
  }

  /** All symbolic fixups; the fixups are read before anything is patched. */
  ghost function FixAll(base: Tree, t: Tree): Result<Tree> {
    var i := Match(t.kids, FIXUPS);
    if i.None? then Ok(t) else FixProps(base, t, t.kids[i.value].props)
  }

  // ---- overlay_get_target ----

  ghost function Target(base: Tree, fragment: Tree): Result<seq<nat>> {
    var v := Value(fragment.props, TARGET);
    if v.Some? && (|v.value| != 4 || Ld32(v.value, 0) == 0xffff_ffff) then Err(BADPHANDLE)
    else if v.Some? && Ld32(v.value, 0) != 0 then
      var p := WithPhandle(base, Ld32(v.value, 0));
      if p.None? then Err(NOTFOUND) else Ok(p.value)
    else
      var s := Value(fragment.props, TARGET_PATH);
      if s.None? then Err(BADOVERLAY)
      else
        var text := CString(s.value);
        if text.Err? then Err(text.code) else FindPath(base, text.value)
  }

  lemma {:induction false} TargetFollows(base: Tree, fragment: Tree)
    requires Target(base, fragment).Ok?
    ensures Follow(base, Target(base, fragment).value).Some?
  {
    var v := Value(fragment.props, TARGET);
    if v.Some? && Ld32(v.value, 0) != 0 {
      WithPhandleIs(base, Ld32(v.value, 0));
    } else {
      FindPathFollows(base, CString(Value(fragment.props, TARGET_PATH).value).value);
    }
  }

  // ---- what symbols and targets mean ----

  /** The first property of that name holds val. */
  predicate Says(ps: seq<Property>, name: seq<byte>, val: seq<byte>) {
    exists i :: 0 <= i < |ps| && ps[i].name == name && ps[i].val == val && forall j | 0 <= j < i :: ps[j].name != name
  }

  lemma {:induction false} ValueSays(ps: seq<Property>, name: seq<byte>)
    ensures Value(ps, name).Some? ==> Says(ps, name, Value(ps, name).value)
    ensures Value(ps, name).None? ==> forall i | 0 <= i < |ps| :: ps[i].name != name
    decreases |ps|
  {
    if ps != [] {
      if ps[0].name == name {
        assert ps[0].val == Value(ps, name).value;
      } else {
        ValueSays(ps[1..], name);
        assert forall i | 0 <= i < |ps| - 1 :: ps[1..][i] == ps[i + 1];
        if i :| 0 <= i < |ps| - 1 && ps[1..][i].name == name && ps[1..][i].val == Value(ps, name).GetOr([]) &&
                forall j | 0 <= j < i :: ps[1..][j].name != name {
          assert forall j | 0 < j < i + 1 :: ps[j] == ps[1..][j - 1];
          assert ps[i + 1] == ps[1..][i];
        }
      }
    }
  }

  /** The first is the only first. */
  lemma {:induction false} SaysValue(ps: seq<Property>, name: seq<byte>, val: seq<byte>)
    ensures Says(ps, name, val) <==> Value(ps, name) == Some(val)
  {
    ValueSays(ps, name);
    if Says(ps, name, val) {
      var i :| 0 <= i < |ps| && ps[i].name == name && ps[i].val == val && forall j | 0 <= j < i :: ps[j].name != name;
      assert Value(ps, name).Some?;
      var k :| 0 <= k < |ps| && ps[k].name == name && ps[k].val == Value(ps, name).value &&
        forall j | 0 <= j < k :: ps[j].name != name;
      assert i == k;
    }
  }

  /** The value starts with a string that is the path of the node at q: its words pick the children on
      the way. */
  ghost predicate HoldsPath(t: Tree, val: seq<byte>, q: seq<nat>) {
    exists text, names :: text + [0] <= val && 0 !in text && text != [] && text[0] == SLASH && Words(text, names) &&
      Picks(t, q, names)
  }

  lemma {:induction false} PathHeld(t: Tree, val: seq<byte>, q: seq<nat>)
    ensures HoldsPath(t, val, q) <==> CString(val).Ok? && FindPath(t, CString(val).value) == Ok(q)
  {
    if CString(val).Ok? && FindPath(t, CString(val).value) == Ok(q) {
      var text := CString(val).value;
      FindPathExact(t, text, q);
      assert text + [0] == val[..|text| + 1];
    }
    if HoldsPath(t, val, q) {
      var text, names :| text + [0] <= val && 0 !in text && text != [] && text[0] == SLASH && Words(text, names) &&
        Picks(t, q, names);
      StringHeld(val, text);
      PickedFound(t, text, q, names);
    }
  }

  lemma {:induction false} PickedFound(t: Tree, text: seq<byte>, q: seq<nat>, names: seq<seq<byte>>)
    requires text != [] && text[0] == SLASH && Words(text, names) && Picks(t, q, names)
    ensures FindPath(t, text) == Ok(q)
  {
    assert text[0..] == text;
    LeadsTreeFrom(t, text, 0, q, names);
  }

  lemma {:induction false} StringHeld(val: seq<byte>, text: seq<byte>)
    requires text + [0] <= val && 0 !in text
    ensures CString(val) == Ok(text)
  {
    assert val[|text|] == (text + [0])[|text|] == 0;
    assert forall i | 0 <= i < |text| :: val[i] == text[i] && text[i] in text;
    assert val[..|text|] == text;
  }

  /** A label stands for the phandle of the node at q of the base: the first child that is called
      "__symbols__" has a property of that name, and it holds the path of the node. */
  ghost predicate Symbol(base: Tree, symbol: seq<byte>, q: seq<nat>) {
    exists i, val :: 0 <= i < |base.kids| && Called(base.kids[i].name, SYMBOLS) &&
      (forall j | 0 <= j < i :: !Called(base.kids[j].name, SYMBOLS)) &&
      Says(base.kids[i].props, symbol, val) && HoldsPath(base, val, q)
  }

  lemma {:induction false} SymbolIs(base: Tree, symbol: seq<byte>, v: int)
    ensures SymbolPhandle(base, symbol) == Ok(v) <==>
            v > 0 && exists q :: Symbol(base, symbol, q) && HasPhandle(base, q, v)
  {
    MatchIs(base.kids, SYMBOLS);
    var i := Match(base.kids, SYMBOLS);
    if SymbolPhandle(base, symbol) == Ok(v) {
      var val := Value(base.kids[i.value].props, symbol).value;
      var q := FindPath(base, CString(val).value).value;
      FindPathFollows(base, CString(val).value);
      SaysValue(base.kids[i.value].props, symbol, val);
      PathHeld(base, val, q);
      assert Symbol(base, symbol, q) && HasPhandle(base, q, v);
    }
    if q :| v > 0 && Symbol(base, symbol, q) && HasPhandle(base, q, v) {
      SymbolHeld(base, symbol, q, v);
    }
  }

  lemma {:induction false} SymbolHeld(base: Tree, symbol: seq<byte>, q: seq<nat>, v: int)
    requires v > 0 && Symbol(base, symbol, q) && HasPhandle(base, q, v)
    ensures SymbolPhandle(base, symbol) == Ok(v)
  {
    MatchIs(base.kids, SYMBOLS);
    var i, val :| 0 <= i < |base.kids| && Called(base.kids[i].name, SYMBOLS) &&
      (forall j | 0 <= j < i :: !Called(base.kids[j].name, SYMBOLS)) &&
      Says(base.kids[i].props, symbol, val) && HoldsPath(base, val, q);
    assert Match(base.kids, SYMBOLS) == Some(i);
    SaysValue(base.kids[i].props, symbol, val);
    PathHeld(base, val, q);
  }

  /** The target of a fragment is the node at q.  A property "target" that is not 0 is the phandle of
      that node, which is the first to have it; without one, or with 0, "target-path" is its path. */
  ghost predicate Aims(base: Tree, f: Tree, q: seq<nat>) {
    if exists v :: 0 < v < 0xffff_ffff && Says(f.props, TARGET, Be32(v)) then
      exists v :: 0 < v < 0xffff_ffff && Says(f.props, TARGET, Be32(v)) && HasPhandle(base, q, v) &&
        forall p :: HasPhandle(base, p, v) && p != q ==> Before(q, p)
    else
      (Says(f.props, TARGET, Be32(0)) || forall i | 0 <= i < |f.props| :: f.props[i].name != TARGET) &&
      exists val :: Says(f.props, TARGET_PATH, val) && HoldsPath(base, val, q)
  }

  /** The lookup of the target finds it, if there is one. */
  lemma {:induction false} TargetIs(base: Tree, f: Tree, q: seq<nat>)
    ensures Target(base, f) == Ok(q) <==> Aims(base, f, q)
  {
    var w := Value(f.props, TARGET);
    ValueSays(f.props, TARGET);
    forall v: int ensures Says(f.props, TARGET, Be32(v)) <==> w == Some(Be32(v)) {
      SaysValue(f.props, TARGET, Be32(v));
    }
    if w.Some? && |w.value| == 4 {
      CellValue(w.value);
    }
    if w.Some? && |w.value| == 4 && 0 < Ld32(w.value, 0) < 0xffff_ffff {
      AimedByPhandle(base, f, q, Ld32(w.value, 0));
    } else {
      forall v: int | 0 < v < 0xffff_ffff ensures !Says(f.props, TARGET, Be32(v)) {
        if w == Some(Be32(v)) {
          Be32RoundTrip(v);
        }
      }
      if w.None? || w == Some(Be32(0)) {
        if w.Some? {
          Be32RoundTrip(0);
        }
        AimedByPath(base, f, q);
      }
    }
  }

  /** With distinct phandles it is the one node that has the phandle. */
  lemma {:induction false} TargetByPhandle(base: Tree, f: Tree, v: int, q: seq<nat>)
    requires Distinct(Phandles(base)) && 0 < v < 0xffff_ffff && Says(f.props, TARGET, Be32(v))
    ensures Target(base, f) == Ok(q) <==> HasPhandle(base, q, v)
  {
    SaysValue(f.props, TARGET, Be32(v));
    AimedByPhandle(base, f, q, v);
    if HasPhandle(base, q, v) {
      PhandleFinds(base, q);
      WithPhandleExact(base, v);
    }
  }

  lemma {:induction false} AimedByPhandle(base: Tree, f: Tree, q: seq<nat>, v: int)
    requires 0 < v < 0xffff_ffff && Value(f.props, TARGET) == Some(Be32(v))
    ensures Target(base, f) == Ok(q) <==>
            HasPhandle(base, q, v) && forall p :: HasPhandle(base, p, v) && p != q ==> Before(q, p)
    ensures Aims(base, f, q) <==>
            HasPhandle(base, q, v) && forall p :: HasPhandle(base, p, v) && p != q ==> Before(q, p)
  {
    Be32RoundTrip(v);
    SaysValue(f.props, TARGET, Be32(v));
    WithPhandleExact(base, v);
    var r := WithPhandle(base, v);
    if r.Some? && HasPhandle(base, q, v) && q != r.value {
      BeforeOnce(r.value, q);
    }
    forall u | 0 < u < 0xffff_ffff && Says(f.props, TARGET, Be32(u)) ensures u == v {
      SaysValue(f.props, TARGET, Be32(u));
      Be32RoundTrip(u);
    }
  }

  lemma {:induction false} BeforeOnce(p: seq<nat>, q: seq<nat>)
    requires Before(p, q)
    ensures !Before(q, p) && p != q
    decreases |q|
  {
    if p != [] && p[0] == q[0] {
      BeforeOnce(p[1..], q[1..]);
    }
  }

  lemma {:induction false} AimedByPath(base: Tree, f: Tree, q: seq<nat>)
    requires Value(f.props, TARGET).None? || (Value(f.props, TARGET) == Some(Be32(0)) && Ld32(Be32(0), 0) == 0)
    ensures Target(base, f) == Ok(q) <==> exists val :: Says(f.props, TARGET_PATH, val) && HoldsPath(base, val, q)
  {
    if Target(base, f) == Ok(q) {
      var val := Value(f.props, TARGET_PATH).value;
      SaysValue(f.props, TARGET_PATH, val);
      PathHeld(base, val, q);
    }
    if val :| Says(f.props, TARGET_PATH, val) && HoldsPath(base, val, q) {
      SaysValue(f.props, TARGET_PATH, val);
      PathHeld(base, val, q);
    }
  }

  // ---- overlay_merge ----

  /** t with the node at p replaced by x. */
  function Graft(t: Tree, p: seq<nat>, x: Tree): Tree
    requires Follow(t, p).Some?
    decreases |p|
  {
    if p == [] then x else t.(kids := t.kids[p[0] := Graft(t.kids[p[0]], p[1..], x)])
  }

  /** The part of a fragment that is merged. */
  function Part(fragment: Tree): Option<Tree> {
    var i := Match(fragment.kids, OVERLAY);
    if i.None? then None else Some(fragment.kids[i.value])
  }

  /** overlay_merge: fragment after fragment, each target looked up in the base as it is by then. */
  ghost function MergeFragments(base: Tree, fs: seq<Tree>): Result<Tree>
    decreases |fs|
  {
    if fs == [] then Ok(base)
    else if Part(fs[0]).None? then MergeFragments(base, fs[1..])
    else
      var p := Target(base, fs[0]);
      if p.Err? then Err(p.code) else MergeFragments(MergeAt(base, fs[0]), fs[1..])
  }

  ghost function MergeAt(base: Tree, f: Tree): Tree
    requires Part(f).Some? && Target(base, f).Ok?
  {
    TargetFollows(base, f);
    var p := Target(base, f).value;
    Graft(base, p, Merge(Follow(base, p).value, Part(f).value))
  }

  // ---- fdt_overlay_apply ----

  /** The overlay as it is when overlay_merge is called. */
  ghost function Prepared(base: Tree, over: Tree): Result<Tree> {
    var delta := MaxPhandle([base]);
    var s := Shift(over, delta);
    if s.Err? then s
    else
      var u := UpdateLocal(s.value, delta);
      if u.Err? then u else FixAll(base, u.value)
  }

  /** fdt_overlay_apply without overlay_symbol_update; base and over are the root nodes. */
  ghost function Apply(base: Tree, over: Tree): Result<Tree> {
    var x := Prepared(base, over);
    if x.Err? then x else MergeFragments(base, x.value.kids)
  }

  // ---- what the shift keeps ----

  /** No fixup node lists a phandle property: see SparesPhandles. */
  lemma {:induction false} ShiftSpares(t: Tree, delta: int)
    requires SparesPhandles(t)
    ensures Shift(t, delta) == Ok(t)
    decreases t, 1
  {
    HasValue(t.props, PHANDLE);
    HasValue(t.props, LINUX_PHANDLE);
    ShiftAllSpares(t.kids, delta);
  }

  lemma {:induction false} ShiftAllSpares(ts: seq<Tree>, delta: int)
    requires AllSpare(ts)
    ensures ShiftAll(ts, delta) == Ok(ts)
    decreases ts, 0
  {
    if ts != [] {
      ShiftSpares(ts[0], delta);
      ShiftAllSpares(ts[1..], delta);
      assert [ts[0]] + ts[1..] == ts;
    }
  }

  lemma {:induction false} ShiftHomonyms(ts: seq<Tree>, delta: int)
    requires ShiftAll(ts, delta).Ok?
    ensures Homonyms(ts, ShiftAll(ts, delta).value)
    decreases |ts|
  {
    if ts != [] {
      ShiftHomonyms(ts[1..], delta);
      var rs := ShiftAll(ts, delta).value;
      assert rs[1..] == ShiftAll(ts[1..], delta).value;
      forall i | 0 <= i < |ts| ensures ts[i].name == rs[i].name {
        if i > 0 {
          assert ts[1..][i - 1].name == rs[1..][i - 1].name;
        }
      }
    }
  }

  lemma {:induction false} ShiftAllLength(ts: seq<Tree>, delta: int)
    requires ShiftAll(ts, delta).Ok?
    ensures |ShiftAll(ts, delta).value| == |ts|
    decreases |ts|
  {
    if ts != [] {
      ShiftAllLength(ts[1..], delta);
    }
  }

  /** Property names are unique in every node. */
  predicate UniqueProps(t: Tree)
    decreases t, 1
  {
    UniqueNames(t.props) && AllUniqueProps(t.kids)
  }

  predicate AllUniqueProps(ts: seq<Tree>)
    decreases ts, 0
  {
    forall i | 0 <= i < |ts| :: UniqueProps(ts[i])
  }
}
