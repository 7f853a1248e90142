/** checks.c: explicit_phandles and phandle_references in sequence, and what the flattened tree then
    says. */
module LiveChecks {
  import opened Bytes
  import opened DeviceTree
  import opened Overlay
  import opened OverlayKeeps
  import opened LivePhandles
  import opened LiveReferences

  // ---- a node and its own phandle property ----

  /** The property of that name, if there is one, has four bytes, and they are the node's phandle or a
      reference to the node itself. */
  ghost predicate OwnProp(s: Shape, st: State, x: nat, name: seq<byte>) {
    x < |st.props| == |st.ph| &&
    var i := LivePhandles.Find(st.props[x], name);
    i.Some? ==>
      var p := st.props[x][i.value];
      |p.val| == 4 &&
      if p.refs == [] then st.ph[x] != 0 && p.val == Be32(st.ph[x]) else Means(s, p.refs[0].target, x)
  }

  ghost predicate HasPhandleProp(ps: seq<LivePhandles.Prop>) {
    LivePhandles.Find(ps, PHANDLE).Some? || LivePhandles.Find(ps, LINUX_PHANDLE).Some?
  }

  /** So for both names, and a node with a phandle has a property for it. */
  ghost predicate OwnProps(s: Shape, st: State, x: nat) {
    OwnProp(s, st, x, PHANDLE) && OwnProp(s, st, x, LINUX_PHANDLE) && (st.ph[x] != 0 ==> HasPhandleProp(st.props[x]))
  }

  ghost predicate AllOwnBody(s: Shape, st: State) {
    |st.props| == |st.ph| && forall x: nat | x < |st.props| :: OwnProps(s, st, x)
  }

  ghost predicate IsAllOwn(s: Shape, st: State, r: bool) { forall z :: Unseal(z) ==> r == AllOwnBody(s, st) }

  /** So for all nodes; sealed. */
  ghost predicate AllOwn(s: Shape, st: State) {
    assert IsAllOwn(s, st, AllOwnBody(s, st));
    var r :| IsAllOwn(s, st, r);
    r
  }

  lemma {:induction false} AllOwnDef(s: Shape, st: State)
    ensures AllOwn(s, st) == AllOwnBody(s, st)
  {
    assert Unseal(0);
  }

  /** When explicit_phandles has found nothing wrong. */
  lemma {:induction false} OwnFirst(s: Shape, st: State, x: nat)
    requires x < |st.props| == |st.ph| && !Faulty(s, st.props[x], x) && st.ph[x] == Asked(s, st.props[x], x)
    ensures OwnProps(s, st, x)
  {
    OwnExplicit(s, st, x, PHANDLE);
    OwnExplicit(s, st, x, LINUX_PHANDLE);
  }

  lemma {:induction false} OwnExplicit(s: Shape, st: State, x: nat, name: seq<byte>)
    requires x < |st.props| == |st.ph| && !Explicit(s, st.props[x], x, name).1
    requires Explicit(s, st.props[x], x, name).0 != 0 ==> st.ph[x] == Explicit(s, st.props[x], x, name).0
    ensures OwnProp(s, st, x, name)
  {
    var i := LivePhandles.Find(st.props[x], name);
    if i.Some? && st.props[x][i.value].refs == [] {
      WordBack(st.props[x][i.value].val);
    } else if i.Some? {
      ByRefExact(s, st.props[x][i.value].refs[0].target);
    }
  }

  lemma {:induction false} FindMore(ps: seq<LivePhandles.Prop>, more: seq<LivePhandles.Prop>, name: seq<byte>)
    ensures LivePhandles.Find(ps + more, name) ==
            if LivePhandles.Find(ps, name).Some? then LivePhandles.Find(ps, name)
            else if LivePhandles.Find(more, name).Some? then Some(|ps| + LivePhandles.Find(more, name).value) else None
    decreases |ps|
  {
    if ps == [] {
      assert ps + more == more;
    } else {
      assert (ps + more)[1..] == ps[1..] + more && (ps + more)[0] == ps[0];
      FindMore(ps[1..], more, name);
    }
  }

  /** The properties that get_node_phandle leaves. */
  lemma {:induction false} AddedProps(ps: seq<LivePhandles.Prop>, v: int, opt: Options, name: seq<byte>)
    requires name == PHANDLE || name == LINUX_PHANDLE
    ensures var qs := WithPhandleProps(ps, v, opt);
            var i, j := LivePhandles.Find(ps, name), LivePhandles.Find(qs, name);
            ps <= qs && (i.Some? ==> j == i) &&
            (i.None? ==> (j.Some? <==> (if name == PHANDLE then opt.epapr else opt.legacy)) &&
                         (j.Some? ==> qs[j.value] == LivePhandles.Prop(name, Be32(v), [])))
  {
    assert PHANDLE[0] != LINUX_PHANDLE[0];
    var l, p := [LivePhandles.Prop(LINUX_PHANDLE, Be32(v), [])], [LivePhandles.Prop(PHANDLE, Be32(v), [])];
    assert l[1..] == [] && p[1..] == [];
    var rs := if opt.legacy && LivePhandles.Find(ps, LINUX_PHANDLE).None? then ps + l else ps;
    FindMore(ps, l, name);
    FindMore(ps, l, PHANDLE);
    FindMore(rs, p, name);
  }

  lemma {:induction false} OwnGot(s: Shape, st: State, t: nat, opt: Options)
    requires AllOwn(s, st) && t < |st.ph| == |st.props| && (opt.legacy || opt.epapr) && 0 < st.next
    ensures AllOwn(s, GetPhandle(st, t, opt))
  {
    AllOwnDef(s, st);
    AllOwnDef(s, GetPhandle(st, t, opt));
    var st' := GetPhandle(st, t, opt);
    if st.ph[t] == 0 {
      AddedProps(st.props[t], st'.ph[t], opt, PHANDLE);
      AddedProps(st.props[t], st'.ph[t], opt, LINUX_PHANDLE);
      forall x: nat | x < |st'.props| ensures OwnProps(s, st', x) {
        assert OwnProps(s, st, x);
        if x == t {
          assert OwnProp(s, st', x, PHANDLE);
          assert OwnProp(s, st', x, LINUX_PHANDLE);
        }
      }
    }
  }

  lemma {:induction false} FindSame(ps: seq<LivePhandles.Prop>, qs: seq<LivePhandles.Prop>, name: seq<byte>)
    requires |ps| == |qs| && forall i | 0 <= i < |ps| :: ps[i].name == qs[i].name
    ensures LivePhandles.Find(ps, name) == LivePhandles.Find(qs, name)
    decreases |ps|
  {
    if ps != [] {
      assert forall i | 0 <= i < |ps| - 1 :: ps[1..][i] == ps[i + 1] && qs[1..][i] == qs[i + 1];
      FindSame(ps[1..], qs[1..], name);
    }
  }

  lemma {:induction false} OwnSet(s: Shape, st: State, id: nat, i: nat, off: nat, v: int)
    requires AllOwn(s, st) && |st.ph| == |st.props| && id < |st.props| && i < |st.props[id]| &&
             off + 4 <= |st.props[id][i].val|
    requires st.props[id][i].refs != []
    ensures AllOwn(s, SetCell(st, id, i, off, v))
  {
    var st' := SetCell(st, id, i, off, v);
    AllOwnDef(s, st);
    AllOwnDef(s, st');
    forall x: nat | x < |st'.props| ensures OwnProps(s, st', x) {
      assert OwnProps(s, st, x);
      FindSame(st.props[x], st'.props[x], PHANDLE);
      FindSame(st.props[x], st'.props[x], LINUX_PHANDLE);
      OwnSame(s, st, st', x, PHANDLE);
      OwnSame(s, st, st', x, LINUX_PHANDLE);
    }
  }

  lemma {:induction false} OwnSame(s: Shape, st: State, st': State, x: nat, name: seq<byte>)
    requires OwnProp(s, st, x, name) && x < |st'.props| == |st'.ph| && st'.ph[x] == st.ph[x]
    requires LivePhandles.Find(st.props[x], name) == LivePhandles.Find(st'.props[x], name)
    requires |st.props[x]| == |st'.props[x]| && forall j | 0 <= j < |st.props[x]| ::
             SameFrame(st.props[x][j], st'.props[x][j])
    ensures OwnProp(s, st', x, name)
  {
    var i := LivePhandles.Find(st.props[x], name);
    if i.Some? {
      assert SameFrame(st.props[x][i.value], st'.props[x][i.value]);
    }
  }

  lemma {:induction false} OwnRef(s: Shape, st: State, id: nat, i: nat, r: Ref, opt: Options)
    requires AllFit(st) && Numbered(s, |st.ph|) && id < |st.props| && i < |st.props[id]|
    requires r in st.props[id][i].refs && RefFits(st.props[id][i], r)
    requires AllOwn(s, st) && (opt.legacy || opt.epapr) && 0 < st.next
    ensures AllOwn(s, FixRef(s, st, id, i, r, opt))
  {
    ByRefIs(s, r.target, |st.ph|);
    var t := ByRef(s, r.target);
    if t.Some? {
      var st1 := GetPhandle(st, t.value, opt);
      Grown(st, t.value, opt);
      OwnGot(s, st, t.value, opt);
      assert PropsGrow(st.props[id], st1.props[id]);
      assert SameFrame(st.props[id][i], st1.props[id][i]);
      OwnSet(s, st1, id, i, r.off, st1.ph[t.value]);
    } else if opt.plugin {
      OwnSet(s, st, id, i, r.off, 0xffff_ffff);
    }
  }

  lemma {:induction false} OwnRefs(s: Shape, st: State, id: nat, i: nat, rs: seq<Ref>, opt: Options)
    requires Left(st, id, i, rs) && Numbered(s, |st.ph|) && AllOwn(s, st) && (opt.legacy || opt.epapr) && 0 < st.next
    ensures AllOwn(s, FixRefs(s, st, id, i, rs, opt))
    decreases |rs|
  {
    if rs != [] {
      LeftNext(s, st, id, i, rs, opt);
      OwnRef(s, st, id, i, rs[0], opt);
      OwnRefs(s, FixRef(s, st, id, i, rs[0], opt), id, i, rs[1..], opt);
    }
  }

  lemma {:induction false} OwnNode(s: Shape, st: State, id: nat, i: nat, n: nat, opt: Options)
    requires AllFit(st) && Numbered(s, |st.ph|) && id < |st.props| && i <= n <= |st.props[id]|
    requires AllOwn(s, st) && (opt.legacy || opt.epapr) && 0 < st.next
    ensures AllOwn(s, FixProps(s, st, id, i, n, opt))
    decreases n - i
  {
    if i < n {
      OneOwn(s, st, id, i, opt);
      OwnNode(s, FixRefs(s, st, id, i, st.props[id][i].refs, opt), id, i + 1, n, opt);
    }
  }

  lemma {:induction false} OneOwn(s: Shape, st: State, id: nat, i: nat, opt: Options)
    requires AllFit(st) && Numbered(s, |st.ph|) && id < |st.props| && i < |st.props[id]|
    requires AllOwn(s, st) && (opt.legacy || opt.epapr) && 0 < st.next
    ensures Left(st, id, i, st.props[id][i].refs)
    ensures var st1 := FixRefs(s, st, id, i, st.props[id][i].refs, opt);
            AllFit(st1) && |st1.ph| == |st.ph| && |st1.props| == |st.props| && |st.props[id]| <= |st1.props[id]| &&
            AllOwn(s, st1) && 0 < st1.next
  {
    var rs := st.props[id][i].refs;
    assert rs[0..] == rs;
    OwnRefs(s, st, id, i, rs, opt);
    assert PropsGrow(st.props[id], FixRefs(s, st, id, i, rs, opt).props[id]);
  }

  lemma {:induction false} OwnNodes(s: Shape, st: State, ids: seq<nat>, opt: Options)
    requires AllFit(st) && Numbered(s, |st.ph|) && forall i | 0 <= i < |ids| :: ids[i] < |st.ph|
    requires AllOwn(s, st) && (opt.legacy || opt.epapr) && 0 < st.next
    ensures AllOwn(s, FixNodes(s, st, ids, opt))
    decreases |ids|
  {
    if ids != [] {
      assert forall i | 0 <= i < |ids| - 1 :: ids[1..][i] == ids[i + 1];
      var st1 := FixProps(s, st, ids[0], 0, |st.props[ids[0]]|, opt);
      OwnNode(s, st, ids[0], 0, |st.props[ids[0]]|, opt);
      OwnNodes(s, st1, ids[1..], opt);
    }
  }

  // ---- the flattened node ----

  /** Once all markers are dealt with, a property for the phandle holds it. */
  lemma {:induction false} OwnCell(s: Shape, st: State, x: nat, name: seq<byte>, opt: Options)
    requires AllFit(st) && Sane(st) && OwnProp(s, st, x, name) && WholeDone(s, st, x, opt)
    ensures LivePhandles.Find(st.props[x], name).Some? ==>
              Overlay.Cell(Strip(st.props[x]), name) == Some(st.ph[x]) && st.ph[x] > 0
    ensures LivePhandles.Find(st.props[x], name).None? ==> Overlay.Cell(Strip(st.props[x]), name) == None
  {
    StripValue(st.props[x], name);
    var i := LivePhandles.Find(st.props[x], name);
    if i.Some? {
      var p := st.props[x][i.value];
      if p.refs == [] {
        Be32RoundTrip(st.ph[x]);
      } else {
        assert PropDone(s, st, x, i.value, p.refs, opt);
        assert Done(s, st, x, i.value, p.refs[0], opt);
      }
    }
  }

  /** The phandle that the flattened node shows is the node's phandle. */
  lemma {:induction false} ShownPhandle(s: Shape, st: State, x: nat, opt: Options)
    requires AllFit(st) && Sane(st) && AllOwn(s, st) && x < |st.props| && WholeDone(s, st, x, opt)
    ensures Phandle(Strip(st.props[x])) == st.ph[x]
  {
    AllOwnDef(s, st);
    assert OwnProps(s, st, x);
    OwnCell(s, st, x, PHANDLE, opt);
    OwnCell(s, st, x, LINUX_PHANDLE, opt);
  }

  // ---- the flattened tree ----

  ghost function Build(s: Shape, props: seq<seq<LivePhandles.Prop>>): Tree
    requires Below(Ids(s), |props|)
    decreases s, 1
  {
    assert forall i | 0 <= i < |IdsOf(s.kids)| :: IdsOf(s.kids)[i] == Ids(s)[i + 1];
    assert Ids(s)[0] == s.id;
    Tree(s.name, Strip(props[s.id]), BuildAll(s.kids, props))
  }

  ghost function BuildAll(ss: seq<Shape>, props: seq<seq<LivePhandles.Prop>>): seq<Tree>
    requires Below(IdsOf(ss), |props|)
    decreases ss, 0
  {
    if ss == [] then []
    else
      BelowParts(Ids(ss[0]), IdsOf(ss[1..]), |props|);
      [Build(ss[0], props)] + BuildAll(ss[1..], props)
  }

  predicate Below(ids: seq<nat>, n: nat) { forall i | 0 <= i < |ids| :: ids[i] < n }

  lemma {:induction false} BelowParts(a: seq<nat>, b: seq<nat>, n: nat)
    ensures Below(a + b, n) <==> Below(a, n) && Below(b, n)
  {
    assert forall i | 0 <= i < |a| :: (a + b)[i] == a[i];
    assert forall i | 0 <= i < |b| :: (a + b)[|a| + i] == b[i];
  }

  /** The phandles of the nodes with these numbers. */
  ghost function Shown(props: seq<seq<LivePhandles.Prop>>, ids: seq<nat>): multiset<int>
    requires Below(ids, |props|)
  {
    if ids == [] then multiset{}
    else
      assert ids == [ids[0]] + ids[1..];
      BelowParts([ids[0]], ids[1..], |props|);
      Own(Phandle(Strip(props[ids[0]]))) + Shown(props, ids[1..])
  }

  lemma {:induction false} ShownAppend(props: seq<seq<LivePhandles.Prop>>, a: seq<nat>, b: seq<nat>)
    requires Below(a, |props|) && Below(b, |props|)
    ensures Below(a + b, |props|) && Shown(props, a + b) == Shown(props, a) + Shown(props, b)
    decreases |a|
  {
    BelowParts(a, b, |props|);
    if a == [] {
      assert a + b == b;
    } else {
      assert (a + b)[1..] == a[1..] + b && (a + b)[0] == a[0];
      assert a == [a[0]] + a[1..];
      BelowParts([a[0]], a[1..], |props|);
      ShownAppend(props, a[1..], b);
    }
  }

  lemma {:induction false} BuildShown(s: Shape, props: seq<seq<LivePhandles.Prop>>)
    requires Below(Ids(s), |props|)
    ensures Phandles(Build(s, props)) == Shown(props, Ids(s))
    decreases s, 1
  {
    BelowParts([s.id], IdsOf(s.kids), |props|);
    BuildAllShown(s.kids, props);
    assert Ids(s)[1..] == IdsOf(s.kids) && Ids(s)[0] == s.id;
  }

  lemma {:induction false} BuildAllShown(ss: seq<Shape>, props: seq<seq<LivePhandles.Prop>>)
    requires Below(IdsOf(ss), |props|)
    ensures PhandlesOf(BuildAll(ss, props)) == Shown(props, IdsOf(ss))
    decreases ss, 0
  {
    if ss != [] {
      BelowParts(Ids(ss[0]), IdsOf(ss[1..]), |props|);
      BuildShown(ss[0], props);
      BuildAllShown(ss[1..], props);
      ShownAppend(props, Ids(ss[0]), IdsOf(ss[1..]));
      assert BuildAll(ss, props)[1..] == BuildAll(ss[1..], props);
    }
  }

  /** Every phandle shown is that of one of the nodes. */
  lemma {:induction false} ShownFrom(ph: seq<int>, props: seq<seq<LivePhandles.Prop>>, ids: seq<nat>, v: int)
    requires |ph| == |props| && Below(ids, |props|) && v in Shown(props, ids)
    requires forall x: nat | x < |props| :: Phandle(Strip(props[x])) == ph[x]
    ensures exists i :: 0 <= i < |ids| && ph[ids[i]] == v != 0
    decreases |ids|
  {
    if ids != [] {
      assert ids == [ids[0]] + ids[1..];
      BelowParts([ids[0]], ids[1..], |props|);
      if v in Shown(props, ids[1..]) {
        ShownFrom(ph, props, ids[1..], v);
        var i :| 0 <= i < |ids| - 1 && ph[ids[1..][i]] == v != 0;
        assert ids[1..][i] == ids[i + 1];
      } else {
        assert v in Own(ph[ids[0]]);
      }
    }
  }

  lemma {:induction false} ShownDistinct(ph: seq<int>, props: seq<seq<LivePhandles.Prop>>, ids: seq<nat>)
    requires |ph| == |props| && DistinctPhandles(ph) && Below(ids, |props|)
    requires forall i, j | 0 <= i < j < |ids| :: ids[i] != ids[j]
    requires forall x: nat | x < |props| :: Phandle(Strip(props[x])) == ph[x]
    ensures Distinct(Shown(props, ids))
    decreases |ids|
  {
    if ids != [] {
      assert ids == [ids[0]] + ids[1..];
      BelowParts([ids[0]], ids[1..], |props|);
      ShownDistinct(ph, props, ids[1..]);
      var own, rest := Own(ph[ids[0]]), Shown(props, ids[1..]);
      forall v | v in rest ensures v !in own {
        ShownFrom(ph, props, ids[1..], v);
        var i :| 0 <= i < |ids| - 1 && ph[ids[1..][i]] == v != 0;
        assert ids[1..][i] == ids[i + 1];
        assert ids[0] != ids[i + 1];
      }
      DistinctParts(own, rest);
    }
  }

  // ---- both checks ----

  ghost function Zero(n: nat): seq<int> { seq(n, i => 0) }

  /** explicit_phandles: the phandles, and whether it fails. */
  ghost function ExplicitPhandles(s: Shape, props: seq<seq<LivePhandles.Prop>>): (r: (seq<int>, bool))
    requires Numbered(s, |props|)
    ensures |r.0| == |props|
  {
    NumberedDef(s, |props|);
    CheckFrom(s, props, Zero(|props|), Ids(s))
  }

  /** phandle_references after explicit_phandles has passed; `start` is the counter. */
  ghost function PhandleReferences(s: Shape, props: seq<seq<LivePhandles.Prop>>, start: int, opt: Options): (st: State)
    requires Numbered(s, |props|) && AllFit(State(Zero(|props|), props, start))
    ensures |st.ph| == |st.props| == |props|
  {
    var st0 := State(ExplicitPhandles(s, props).0, props, start);
    assert AllFit(st0);
    NumberedDef(s, |props|);
    FixNodes(s, st0, Ids(s), opt)
  }

  lemma {:induction false} ExplicitExact(s: Shape, props: seq<seq<LivePhandles.Prop>>)
    requires Numbered(s, |props|)
    ensures ExplicitPhandles(s, props).1 <==> Wrong(s, props, Ids(s))
    ensures !ExplicitPhandles(s, props).1 ==>
              forall id: nat | id < |props| :: ExplicitPhandles(s, props).0[id] == Asked(s, props[id], id)
  {
    NumberedDef(s, |props|);
    assert [] + Ids(s) == Ids(s);
    AllChecked(s, props, Zero(|props|), [], Ids(s));
  }

  /** What holds in between. */
  lemma {:induction false} Between(s: Shape, props: seq<seq<LivePhandles.Prop>>, start: int)
    requires Numbered(s, |props|) && !ExplicitPhandles(s, props).1 && 0 < start && start + |props| < 0xffff_ffff
    ensures var st0 := State(ExplicitPhandles(s, props).0, props, start);
            Sane(st0) && Counts(st0, start) && AllOwn(s, st0)
  {
    ExplicitExact(s, props);
    var st0 := State(ExplicitPhandles(s, props).0, props, start);
    forall x: nat | x < |props| ensures 0 <= st0.ph[x] < 0xffff_ffff && OwnProps(s, st0, x) {
      NotFaulty(s, props, x);
      OwnFirst(s, st0, x);
    }
    AskedOnce(s, props, st0.ph);
    AllOwnDef(s, st0);
  }

  lemma {:induction false} NotFaulty(s: Shape, props: seq<seq<LivePhandles.Prop>>, x: nat)
    requires Numbered(s, |props|) && !Wrong(s, props, Ids(s)) && x < |props|
    ensures !Faulty(s, props[x], x) && 0 <= Asked(s, props[x], x) < 0xffff_ffff
  {
    var ids := Ids(s);
    NumberedDef(s, |props|);
    assert x in ids;
    var i :| 0 <= i < |ids| && ids[i] == x;
    assert !Faulty(s, props[ids[i]], ids[i]);
  }

  lemma {:induction false} AskedOnce(s: Shape, props: seq<seq<LivePhandles.Prop>>, ph: seq<int>)
    requires Numbered(s, |props|) && !Wrong(s, props, Ids(s)) && |ph| == |props|
    requires forall id: nat | id < |props| :: ph[id] == Asked(s, props[id], id)
    ensures DistinctPhandles(ph)
  {
    var ids := Ids(s);
    NumberedDef(s, |props|);
    forall a, b | 0 <= a < b < |ph| && ph[a] != 0 ensures ph[a] != ph[b] {
      assert a in ids && b in ids;
      var i :| 0 <= i < |ids| && ids[i] == a;
      var j :| 0 <= j < |ids| && ids[j] == b;
      assert !Twice(s, props, ids[i], ids[j]) && !Twice(s, props, ids[j], ids[i]);
    }
  }

  /** The main result on the two checks.  explicit_phandles fails iff some node has a bad phandle
      property or two that differ, or two nodes ask for the same phandle.  Otherwise, after
      phandle_references, every node shows its phandle in the flattened tree, phandles are distinct
      there, explicit ones are as given, and every cell with a reference holds the phandle of the node
      that its label or path leads to, or, in a plugin, 0xffffffff if there is none. */
  lemma {:induction false} BothChecks(s: Shape, props: seq<seq<LivePhandles.Prop>>, start: int, opt: Options)
    requires Numbered(s, |props|) && AllFit(State(Zero(|props|), props, start))
    requires 0 < start && start + |props| < 0xffff_ffff && (opt.legacy || opt.epapr)
    ensures ExplicitPhandles(s, props).1 <==> Wrong(s, props, Ids(s))
    ensures var st := PhandleReferences(s, props, start, opt);
            !ExplicitPhandles(s, props).1 ==>
              Below(Ids(s), |st.props|) && Distinct(Phandles(Build(s, st.props))) &&
              (forall x: nat | x < |props| :: Phandle(Strip(st.props[x])) == st.ph[x]) &&
              (forall x: nat | x < |props| && Asked(s, props[x], x) != 0 :: st.ph[x] == Asked(s, props[x], x)) &&
              (forall x: nat | x < |props| :: PropsGrow(props[x], st.props[x]) && WholeDone(s, st, x, opt))
  {
    ExplicitExact(s, props);
    if !ExplicitPhandles(s, props).1 {
      Between(s, props, start);
      var ids := Ids(s);
      NumberedDef(s, |props|);
      var st0 := State(ExplicitPhandles(s, props).0, props, start);
      assert [] + ids == ids;
      assert AllFit(st0);
      NodesFixed(s, st0, [], ids, start, opt);
      OwnNodes(s, st0, ids, opt);
      var st := FixNodes(s, st0, ids, opt);
      forall x: nat | x < |props| ensures WholeDone(s, st, x, opt) && Phandle(Strip(st.props[x])) == st.ph[x] {
        assert x in ids;
        var i :| 0 <= i < |ids| && ids[i] == x;
        assert WholeDone(s, st, ([] + ids)[i], opt);
        ShownPhandle(s, st, x, opt);
      }
      ShownDistinct(st.ph, st.props, ids);
      BuildShown(s, st.props);
    }
  }
}
