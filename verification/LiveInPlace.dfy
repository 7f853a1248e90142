/** checks.c and livetree.c: the two checks with the loops and the fields of the compiler. */
module LiveInPlace {
  import opened Bytes
  import opened Overlay
  import opened LivePhandles
  import opened LiveReferences
  import opened LiveChecks

  lemma {:induction false} CheckAppend(s: Shape, props: seq<seq<LivePhandles.Prop>>, ph: seq<int>, a: seq<nat>,
    b: seq<nat>)
    requires |props| == |ph| && Below(a, |ph|) && Below(b, |ph|)
    ensures Below(a + b, |ph|)
    ensures var (ph1, f) := CheckFrom(s, props, ph, a);
            var (ph2, g) := CheckFrom(s, props, ph1, b);
            CheckFrom(s, props, ph, a + b) == (ph2, f || g)
    decreases |a|
  {
    BelowParts(a, b, |ph|);
    if a == [] {
      assert a + b == b;
    } else {
      assert (a + b)[1..] == a[1..] + b && (a + b)[0] == a[0];
      assert a == [a[0]] + a[1..];
      BelowParts([a[0]], a[1..], |ph|);
      CheckAppend(s, props, CheckNode(s, props, ph, a[0]).0, a[1..], b);
    }
  }

  lemma {:induction false} FixAppend(s: Shape, st: State, a: seq<nat>, b: seq<nat>, opt: Options)
    requires AllFit(st) && Numbered(s, |st.ph|) && Below(a, |st.ph|) && Below(b, |st.ph|)
    ensures Below(a + b, |st.ph|)
    ensures FixNodes(s, st, a + b, opt) == FixNodes(s, FixNodes(s, st, a, opt), b, opt)
    decreases |a|
  {
    BelowParts(a, b, |st.ph|);
    if a == [] {
      assert a + b == b;
    } else {
      assert (a + b)[1..] == a[1..] + b && (a + b)[0] == a[0];
      assert a == [a[0]] + a[1..];
      BelowParts([a[0]], a[1..], |st.ph|);
      FixAppend(s, FixProps(s, st, a[0], 0, |st.props[a[0]]|, opt), a[1..], b, opt);
    }
  }

  /** The nodes, as the compiler has them. */
  class Nodes {
    const s: Shape
    const opt: Options
    var ph: seq<int>
    var props: seq<seq<LivePhandles.Prop>>
    var next: int

    constructor (s: Shape, props: seq<seq<LivePhandles.Prop>>, opt: Options)
      ensures this.s == s && this.opt == opt && Now() == State(Zero(|props|), props, 1)
    {
      this.s, this.opt := s, opt;
      this.ph := seq(|props|, i => 0);
      this.props := props;
      next := 1;
    }

    ghost function Now(): State
      reads this
    {
      State(ph, props, next)
    }

    /** get_node_by_phandle. */
    method FindPhandle(v: int) returns (found: bool)
      ensures found == InUse(ph, v)
    {
      var i := 0;
      while i < |ph|
        invariant 0 <= i <= |ph| && forall j | 0 <= j < i :: ph[j] != v
      {
        if ph[i] == v {
          return true;
        }
        i := i + 1;
      }
      return false;
    }

    /** check_phandle_prop. */
    method CheckPhandleProp(id: nat, name: seq<byte>) returns (v: int, failed: bool)
      requires id < |props|
      ensures (v, failed) == Explicit(s, props[id], id, name)
    {
      var i := LivePhandles.Find(props[id], name);
      if i.None? {
        return 0, false;
      }
      var p := props[id][i.value];
      if |p.val| != 4 {
        return 0, true;
      }
      if p.refs != [] {
        var node := ByRef(s, p.refs[0].target);
        return 0, node != Some(id);
      }
      LdDef(p.val, 0);
      v := Load(p.val, 0);
      if v == 0 || v == 0xffff_ffff {
        return 0, true;
      }
      failed := false;
    }

    /** check_explicit_phandles for one node. */
    method CheckOne(id: nat) returns (failed: bool)
      requires id < |props| == |ph|
      modifies this`ph
      ensures (ph, failed) == CheckNode(s, props, old(ph), id)
    {
      var phandle, a := CheckPhandleProp(id, PHANDLE);
      var linux, b := CheckPhandleProp(id, LINUX_PHANDLE);
      failed := a || b;
      if phandle == 0 && linux == 0 {
        return;
      }
      if linux != 0 && phandle != 0 && phandle != linux {
        failed := true;
      }
      var v := if linux != 0 && phandle == 0 then linux else phandle;
      var other := FindPhandle(v);
      if other {
        return true;
      }
      ph := ph[id := v];
    }

    /** check_nodes_props with check_explicit_phandles, for a node and all below it. */
    method CheckExplicit(t: Shape) returns (failed: bool)
      requires |props| == |ph| && Below(Ids(t), |ph|)
      modifies this`ph
      ensures (ph, failed) == CheckFrom(s, props, old(ph), Ids(t))
      decreases t, 1
    {
      ghost var ph0 := ph;
      BelowParts([t.id], IdsOf(t.kids), |ph|);
      assert [t.id][0] == t.id;
      failed := CheckOne(t.id);
      OneChecked(s, props, ph0, t.id);
      var f := CheckKids(t.kids);
      CheckAppend(s, props, ph0, [t.id], IdsOf(t.kids));
      failed := failed || f;
    }

    method CheckKids(ts: seq<Shape>) returns (failed: bool)
      requires |props| == |ph| && Below(IdsOf(ts), |ph|)
      modifies this`ph
      ensures (ph, failed) == CheckFrom(s, props, old(ph), IdsOf(ts))
      decreases ts, 0
    {
      ghost var ph0 := ph;
      failed := false;
      if ts != [] {
        BelowParts(Ids(ts[0]), IdsOf(ts[1..]), |ph|);
        failed := CheckExplicit(ts[0]);
        var f := CheckKids(ts[1..]);
        CheckAppend(s, props, ph0, Ids(ts[0]), IdsOf(ts[1..]));
        failed := failed || f;
      }
    }

    /** get_node_phandle. */
    method GetPhandleOf(t: nat) returns (v: int)
      requires t < |ph| == |props|
      modifies this
      ensures Now() == GetPhandle(old(Now()), t, opt) && v == ph[t]
    {
      if ph[t] != 0 {
        return ph[t];
      }
      var used := FindPhandle(next);
      while used
        invariant ph == old(ph) && props == old(props) && used == InUse(ph, next)
        invariant NextFree(ph, next) == NextFree(ph, old(next))
        decreases NextFree(ph, next) - next
      {
        next := next + 1;
        used := FindPhandle(next);
      }
      v := next;
      ph := ph[t := v];
      BeDef(v);
      var ps := props[t];
      if opt.legacy && LivePhandles.Find(ps, LINUX_PHANDLE).None? {
        ps := ps + [LivePhandles.Prop(LINUX_PHANDLE, Bytes32(v), [])];
      }
      if opt.epapr && LivePhandles.Find(ps, PHANDLE).None? {
        ps := ps + [LivePhandles.Prop(PHANDLE, Bytes32(v), [])];
      }
      props := props[t := ps];
    }

    /** Four bytes of a value. */
    method StoreCell(id: nat, i: nat, off: nat, v: int)
      requires id < |props| == |ph| && i < |props[id]| && off + 4 <= |props[id][i].val|
      modifies this`props
      ensures Now() == SetCell(old(Now()), id, i, off, v)
    {
      var p := props[id][i];
      BeDef(v);
      PutDef(p.val, off, Be32(v));
      var val := p.val[..off] + Bytes32(v) + p.val[off + 4..];
      props := props[id := props[id][i := p.(val := val)]];
    }

    /** The body of the loop over the markers; the check fails for a reference without a target. */
    method FixMarker(id: nat, i: nat, r: Ref) returns (failed: bool)
      requires AllFit(Now()) && Numbered(s, |ph|) && id < |props| && i < |props[id]|
      requires r in props[id][i].refs && RefFits(props[id][i], r)
      modifies this
      ensures Now() == FixRef(s, old(Now()), id, i, r, opt)
      ensures failed == (!opt.plugin && Dangling(s, r.target))
    {
      ByRefExact(s, r.target);
      ByRefIs(s, r.target, |ph|);
      var node := ByRef(s, r.target);
      if node.None? {
        if opt.plugin {
          StoreCell(id, i, r.off, 0xffff_ffff);
        }
        return !opt.plugin;
      }
      Grown(Now(), node.value, opt);
      var v := GetPhandleOf(node.value);
      assert PropsGrow(old(props)[id], props[id]);
      assert SameFrame(old(props)[id][i], props[id][i]);
      StoreCell(id, i, r.off, v);
      failed := false;
    }

    /** The loop over the markers of a property. */
    method FixMarkers(id: nat, i: nat) returns (failed: bool)
      requires AllFit(Now()) && Numbered(s, |ph|) && id < |props| && i < |props[id]|
      modifies this
      ensures Left(old(Now()), id, i, old(props)[id][i].refs)
      ensures Now() == FixRefs(s, old(Now()), id, i, old(props)[id][i].refs, opt)
      ensures failed == (!opt.plugin && Unresolved(s, old(props)[id][i].refs))
    {
      ghost var st0 := Now();
      var rs := props[id][i].refs;
      assert rs[0..] == rs && rs[..0] == [];
      var k := 0;
      failed := false;
      while k < |rs|
        invariant k <= |rs| && Numbered(s, |ph|) && Fixing(s, st0, Now(), id, i, rs, k, opt)
        invariant failed == (!opt.plugin && Unresolved(s, rs[..k]))
      {
        FixingNext(s, st0, Now(), id, i, rs, k, opt);
        var f := FixMarker(id, i, rs[k]);
        UnresolvedMore(s, rs, k);
        failed := failed || f;
        k := k + 1;
      }
      assert rs[..|rs|] == rs;
      FixingEnd(s, st0, Now(), id, i, rs, opt);
    }

    /** fixup_phandle_references for one node. */
    method FixNode(id: nat) returns (failed: bool)
      requires AllFit(Now()) && Numbered(s, |ph|) && id < |props|
      modifies this
      ensures Now() == FixProps(s, old(Now()), id, 0, |old(props)[id]|, opt)
      ensures failed == (!opt.plugin && UnresolvedIn(s, old(props)[id]))
    {
      ghost var st0 := Now();
      var n := |props[id]|;
      var i := 0;
      failed := false;
      WalkingFirst(s, st0, id, opt);
      assert st0.props[id][..0] == [];
      while i < n
        invariant i <= n && Walking(s, st0, Now(), id, i, n, opt)
        invariant failed == (!opt.plugin && UnresolvedIn(s, st0.props[id][..i]))
      {
        WalkingNext(s, st0, Now(), id, i, n, opt);
        var f := FixMarkers(id, i);
        UnresolvedInMore(s, st0.props[id], i);
        failed := failed || f;
        i := i + 1;
      }
      assert st0.props[id][..n] == st0.props[id];
      WalkingLast(s, st0, Now(), id, n, opt);
    }

    /** check_nodes_props with fixup_phandle_references; the check fails iff some reference of these
        nodes has no target and the tree is no plugin. */
    method FixReferences(t: Shape) returns (failed: bool)
      requires AllFit(Now()) && Numbered(s, |ph|) && Below(Ids(t), |ph|)
      modifies this
      ensures Now() == FixNodes(s, old(Now()), Ids(t), opt)
      ensures failed == (!opt.plugin && UnresolvedAmong(s, old(props), Ids(t)))
      decreases t, 1
    {
      ghost var st0 := Now();
      BelowParts([t.id], IdsOf(t.kids), |ph|);
      assert [t.id][0] == t.id;
      failed := FixNode(t.id);
      OneFixed(s, st0, t.id, opt);
      var f := FixKids(t.kids);
      FixAppend(s, st0, [t.id], IdsOf(t.kids), opt);
      AmongGrows(s, st0, [t.id], IdsOf(t.kids), opt);
      failed := failed || f;
    }

    method FixKids(ts: seq<Shape>) returns (failed: bool)
      requires AllFit(Now()) && Numbered(s, |ph|) && Below(IdsOf(ts), |ph|)
      modifies this
      ensures Now() == FixNodes(s, old(Now()), IdsOf(ts), opt)
      ensures failed == (!opt.plugin && UnresolvedAmong(s, old(props), IdsOf(ts)))
      decreases ts, 0
    {
      ghost var st0 := Now();
      failed := false;
      if ts != [] {
        BelowParts(Ids(ts[0]), IdsOf(ts[1..]), |ph|);
        failed := FixReferences(ts[0]);
        var f := FixKids(ts[1..]);
        FixAppend(s, st0, Ids(ts[0]), IdsOf(ts[1..]), opt);
        AmongGrows(s, st0, Ids(ts[0]), IdsOf(ts[1..]), opt);
        failed := failed || f;
      }
    }

    /** explicit_phandles and, if it passes, phandle_references, which needs it.  The first fails iff
        something is wrong with the phandles asked for, the second iff a reference has no target and
        the tree is no plugin; what holds after both is the result of BothChecks. */
    method RunChecks() returns (explicitFailed: bool, referencesFailed: bool)
      requires Now() == State(Zero(|props|), props, next) && Numbered(s, |props|) && AllFit(Now())
      requires 0 < next && next + |props| < 0xffff_ffff && (opt.legacy || opt.epapr)
      modifies this
      ensures |props| == |old(props)| == |ph| && Below(Ids(s), |props|)
      ensures explicitFailed <==> Wrong(s, old(props), Ids(s))
      ensures !explicitFailed ==>
                referencesFailed == (!opt.plugin && UnresolvedAmong(s, old(props), Ids(s))) &&
                Distinct(Phandles(Build(s, props))) &&
                (forall x: nat | x < |props| :: Phandle(Strip(props[x])) == ph[x]) &&
                (forall x: nat | x < |props| && Asked(s, old(props)[x], x) != 0 ::
                  ph[x] == Asked(s, old(props)[x], x)) &&
                (forall x: nat | x < |props| :: PropsGrow(old(props)[x], props[x]) && WholeDone(s, Now(), x, opt))
    {
      NumberedDef(s, |props|);
      BothChecks(s, props, next, opt);
      referencesFailed := false;
      explicitFailed := CheckExplicit(s);
      if !explicitFailed {
        assert AllFit(Now());
        referencesFailed := FixReferences(s);
      }
    }
  }

  // ---- the loop over the properties ----

  ghost predicate WalkingBody(s: Shape, st0: State, st: State, id: nat, i: nat, n: nat, opt: Options) {
    AllFit(st0) && Numbered(s, |st0.ph|) && AllFit(st) && Numbered(s, |st.ph|) && id < |st0.props| && id < |st.props| &&
    i <= n == |st0.props[id]| <= |st.props[id]| && Grows(st0, st) &&
    FixProps(s, st, id, i, n, opt) == FixProps(s, st0, id, 0, n, opt)
  }

  ghost predicate IsWalking(s: Shape, st0: State, st: State, id: nat, i: nat, n: nat, opt: Options, r: bool) {
    forall z :: Unseal(z) ==> r == WalkingBody(s, st0, st, id, i, n, opt)
  }

  /** After i properties, from st0 to st; sealed. */
  ghost predicate Walking(s: Shape, st0: State, st: State, id: nat, i: nat, n: nat, opt: Options) {
    assert IsWalking(s, st0, st, id, i, n, opt, WalkingBody(s, st0, st, id, i, n, opt));
    var r :| IsWalking(s, st0, st, id, i, n, opt, r);
    r
  }

  lemma {:induction false} WalkingDef(s: Shape, st0: State, st: State, id: nat, i: nat, n: nat, opt: Options)
    ensures Walking(s, st0, st, id, i, n, opt) == WalkingBody(s, st0, st, id, i, n, opt)
  {
    assert Unseal(0);
  }

  lemma {:induction false} WalkingFirst(s: Shape, st: State, id: nat, opt: Options)
    requires AllFit(st) && Numbered(s, |st.ph|) && id < |st.props|
    ensures Walking(s, st, st, id, 0, |st.props[id]|, opt)
  {
    WalkingDef(s, st, st, id, 0, |st.props[id]|, opt);
  }

  lemma {:induction false} WalkingLast(s: Shape, st0: State, st: State, id: nat, n: nat, opt: Options)
    requires Walking(s, st0, st, id, n, n, opt) && AllFit(st0) && Numbered(s, |st0.ph|) && id < |st0.props| &&
             n == |st0.props[id]|
    ensures st == FixProps(s, st0, id, 0, n, opt)
  {
    WalkingDef(s, st0, st, id, n, n, opt);
  }

  lemma {:induction false} WalkingNext(s: Shape, st0: State, st: State, id: nat, i: nat, n: nat, opt: Options)
    requires Walking(s, st0, st, id, i, n, opt) && i < n
    ensures AllFit(st) && Numbered(s, |st.ph|) && id < |st0.props| && id < |st.props| && i < |st0.props[id]| &&
            i < |st.props[id]|
    ensures st.props[id][i].refs == st0.props[id][i].refs && Left(st, id, i, st.props[id][i].refs)
    ensures Walking(s, st0, FixRefs(s, st, id, i, st.props[id][i].refs, opt), id, i + 1, n, opt)
  {
    WalkingDef(s, st0, st, id, i, n, opt);
    assert PropsGrow(st0.props[id], st.props[id]);
    assert SameFrame(st0.props[id][i], st.props[id][i]);
    var rs := st.props[id][i].refs;
    assert rs[0..] == rs;
    var st1 := FixRefs(s, st, id, i, rs, opt);
    GrowsTrans(st0, st, st1);
    assert PropsGrow(st0.props[id], st1.props[id]);
    WalkingDef(s, st0, st1, id, i + 1, n, opt);
  }

  // ---- the loop over the markers ----

  /** After k markers, from st0 to st. */
  ghost predicate Fixing(s: Shape, st0: State, st: State, id: nat, i: nat, rs: seq<Ref>, k: nat, opt: Options) {
    Left(st0, id, i, rs) && Numbered(s, |st0.ph|) && k <= |rs| && Left(st, id, i, rs[k..]) && |st.ph| == |st0.ph| &&
    st.props[id][i].refs == rs && FixRefs(s, st, id, i, rs[k..], opt) == FixRefs(s, st0, id, i, rs, opt)
  }

  lemma {:induction false} FixingNext(s: Shape, st0: State, st: State, id: nat, i: nat, rs: seq<Ref>, k: nat,
    opt: Options)
    requires Fixing(s, st0, st, id, i, rs, k, opt) && k < |rs|
    ensures RefFits(st.props[id][i], rs[k]) && Fixing(s, st0, FixRef(s, st, id, i, rs[k], opt), id, i, rs, k + 1, opt)
  {
    LeftNext(s, st, id, i, rs[k..], opt);
    assert rs[k..][0] == rs[k] && rs[k..][1..] == rs[k + 1..];
    var st1 := FixRef(s, st, id, i, rs[k], opt);
    assert PropsGrow(st.props[id], st1.props[id]);
    assert SameFrame(st.props[id][i], st1.props[id][i]);
  }

  lemma {:induction false} FixingEnd(s: Shape, st0: State, st: State, id: nat, i: nat, rs: seq<Ref>, opt: Options)
    requires Fixing(s, st0, st, id, i, rs, |rs|, opt)
    ensures st == FixRefs(s, st0, id, i, rs, opt)
  {
    assert rs[|rs|..] == [];
  }

  /** Some marker means no node. */
  ghost predicate Unresolved(s: Shape, rs: seq<Ref>) { exists k :: 0 <= k < |rs| && Dangling(s, rs[k].target) }

  ghost predicate UnresolvedIn(s: Shape, ps: seq<LivePhandles.Prop>) {
    exists i :: 0 <= i < |ps| && Unresolved(s, ps[i].refs)
  }

  lemma {:induction false} UnresolvedMore(s: Shape, rs: seq<Ref>, k: nat)
    requires k < |rs|
    ensures Unresolved(s, rs[..k + 1]) <==> Unresolved(s, rs[..k]) || Dangling(s, rs[k].target)
  {
    var a, b := rs[..k], rs[..k + 1];
    assert forall j | 0 <= j < k :: a[j] == b[j];
    if Dangling(s, rs[k].target) {
      assert b[k] == rs[k];
    }
  }

  lemma {:induction false} UnresolvedInMore(s: Shape, ps: seq<LivePhandles.Prop>, i: nat)
    requires i < |ps|
    ensures UnresolvedIn(s, ps[..i + 1]) <==> UnresolvedIn(s, ps[..i]) || Unresolved(s, ps[i].refs)
  {
    var a, b := ps[..i], ps[..i + 1];
    assert forall j | 0 <= j < i :: a[j] == b[j];
    if Unresolved(s, ps[i].refs) {
      assert b[i] == ps[i];
    }
  }

  /** So for some of the nodes. */
  ghost predicate UnresolvedAmong(s: Shape, props: seq<seq<LivePhandles.Prop>>, ids: seq<nat>)
    requires Below(ids, |props|)
  {
    exists j :: 0 <= j < |ids| && UnresolvedIn(s, props[ids[j]])
  }

  /** Added properties have no markers. */
  lemma {:induction false} UnresolvedGrows(s: Shape, ps: seq<LivePhandles.Prop>, qs: seq<LivePhandles.Prop>)
    requires PropsGrow(ps, qs)
    ensures UnresolvedIn(s, ps) <==> UnresolvedIn(s, qs)
  {
    assert forall i | 0 <= i < |ps| :: SameFrame(ps[i], qs[i]);
    if i :| 0 <= i < |ps| && Unresolved(s, ps[i].refs) {
      assert Unresolved(s, qs[i].refs);
    }
    if i :| 0 <= i < |qs| && Unresolved(s, qs[i].refs) {
      assert i < |ps|;
      assert Unresolved(s, ps[i].refs);
    }
  }

  lemma {:induction false} AmongAppend(s: Shape, props: seq<seq<LivePhandles.Prop>>, a: seq<nat>, b: seq<nat>)
    requires Below(a, |props|) && Below(b, |props|)
    ensures Below(a + b, |props|)
    ensures UnresolvedAmong(s, props, a + b) <==> UnresolvedAmong(s, props, a) || UnresolvedAmong(s, props, b)
  {
    BelowParts(a, b, |props|);
    var c := a + b;
    if j :| 0 <= j < |a| && UnresolvedIn(s, props[a[j]]) {
      assert c[j] == a[j];
    }
    if j :| 0 <= j < |b| && UnresolvedIn(s, props[b[j]]) {
      assert c[|a| + j] == b[j];
    }
    if j :| 0 <= j < |c| && UnresolvedIn(s, props[c[j]]) {
      assert c[j] == if j < |a| then a[j] else b[j - |a|];
    }
  }

  lemma {:induction false} AmongSame(s: Shape, st: State, st1: State, ids: seq<nat>)
    requires Grows(st, st1) && Below(ids, |st.props|)
    ensures UnresolvedAmong(s, st.props, ids) <==> UnresolvedAmong(s, st1.props, ids)
  {
    forall j | 0 <= j < |ids| ensures UnresolvedIn(s, st.props[ids[j]]) <==> UnresolvedIn(s, st1.props[ids[j]]) {
      assert PropsGrow(st.props[ids[j]], st1.props[ids[j]]);
      UnresolvedGrows(s, st.props[ids[j]], st1.props[ids[j]]);
    }
  }

  /** The nodes b are looked at after the nodes a have been dealt with. */
  lemma {:induction false} AmongGrows(s: Shape, st: State, a: seq<nat>, b: seq<nat>, opt: Options)
    requires AllFit(st) && Numbered(s, |st.ph|) && Below(a, |st.ph|) && Below(b, |st.ph|)
    ensures Below(a + b, |st.ph|) && |FixNodes(s, st, a, opt).props| == |st.props|
    ensures UnresolvedAmong(s, st.props, a + b) <==>
            UnresolvedAmong(s, st.props, a) || UnresolvedAmong(s, FixNodes(s, st, a, opt).props, b)
  {
    AmongAppend(s, st.props, a, b);
    AmongSame(s, st, FixNodes(s, st, a, opt), b);
  }

  lemma {:induction false} OneChecked(s: Shape, props: seq<seq<LivePhandles.Prop>>, ph: seq<int>, id: nat)
    requires |props| == |ph| && id < |ph|
    ensures Below([id], |ph|) && CheckFrom(s, props, ph, [id]) == CheckNode(s, props, ph, id)
    ensures [id] + [] == [id]
  {
    assert [id][1..] == [];
  }

  lemma {:induction false} OneFixed(s: Shape, st: State, id: nat, opt: Options)
    requires AllFit(st) && Numbered(s, |st.ph|) && id < |st.ph|
    ensures Below([id], |st.ph|) && FixNodes(s, st, [id], opt) == FixProps(s, st, id, 0, |st.props[id]|, opt)
    ensures [id] + [] == [id]
  {
    assert [id][1..] == [];
  }
}
