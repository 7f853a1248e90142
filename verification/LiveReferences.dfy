/** checks.c and livetree.c: phandle references, after the explicit phandles; the two checks in
    sequence. */
module LiveReferences {
  import opened Bytes
  import opened Overlay
  import opened LivePhandles

  /** What the command line decides: phandle_format, and whether the tree is a plugin. */
  datatype Options = Options(legacy: bool, epapr: bool, plugin: bool)

  predicate DistinctPhandles(ph: seq<int>) { forall i, j | 0 <= i < j < |ph| && ph[i] != 0 :: ph[i] != ph[j] }

  // ---- get_node_phandle ----

  /** Numbers from lo up to hi that are all in use are at most as many as there are nodes. */
  lemma {:induction false} UsedAtMost(ph: seq<int>, lo: int, hi: int)
    requires 0 < lo <= hi && DistinctPhandles(ph) && forall v | lo <= v < hi :: InUse(ph, v)
    ensures hi - lo <= |ph|
    decreases hi - lo
  {
    if lo < hi {
      assert InUse(ph, hi - 1);
      var i :| 0 <= i < |ph| && ph[i] == hi - 1;
      var qs := ph[..i] + ph[i + 1..];
      forall v | lo <= v < hi - 1 ensures InUse(qs, v) {
        assert InUse(ph, v);
        var j :| 0 <= j < |ph| && ph[j] == v;
        assert qs[if j < i then j else j - 1] == v;
      }
      assert DistinctPhandles(qs) by {
        forall a, b | 0 <= a < b < |qs| && qs[a] != 0 ensures qs[a] != qs[b] {
          var a', b' := if a < i then a else a + 1, if b < i then b else b + 1;
          assert qs[a] == ph[a'] && qs[b] == ph[b'];
        }
      }
      UsedAtMost(qs, lo, hi - 1);
    }
  }

  /** The phandles from v on. */
  function From(ph: seq<int>, v: int): set<int> { set i | 0 <= i < |ph| && ph[i] >= v :: ph[i] }

  lemma {:induction false} FromNext(ph: seq<int>, v: int)
    requires InUse(ph, v)
    ensures |From(ph, v + 1)| < |From(ph, v)|
  {
    var i :| 0 <= i < |ph| && ph[i] == v;
    assert v in From(ph, v) && v !in From(ph, v + 1);
    assert From(ph, v + 1) <= From(ph, v) - {v};
    Smaller(From(ph, v + 1), From(ph, v) - {v});
  }

  lemma {:induction false} Smaller(a: set<int>, b: set<int>)
    requires a <= b
    ensures |a| <= |b|
  {
    assert b == a + (b - a);
  }

  /** The search for a phandle that no node has. */
  function NextFree(ph: seq<int>, v: int): (r: int)
    ensures v <= r && !InUse(ph, r) && forall w | v <= w < r :: InUse(ph, w)
    decreases |From(ph, v)|
  {
    if InUse(ph, v) then
      FromNext(ph, v);
      NextFree(ph, v + 1)
    else v
  }

  /** The properties that get_node_phandle adds. */
  ghost function WithPhandleProps(ps: seq<Prop>, v: int, opt: Options): seq<Prop> {
    var qs := if opt.legacy && Find(ps, LINUX_PHANDLE).None? then
      ps + [LivePhandles.Prop(LINUX_PHANDLE, Be32(v), [])] else ps;
    if opt.epapr && Find(qs, PHANDLE).None? then qs + [LivePhandles.Prop(PHANDLE, Be32(v), [])] else qs
  }

  ghost function GetPhandle(st: State, t: nat, opt: Options): (r: State)
    requires t < |st.ph| == |st.props|
    ensures |r.ph| == |st.ph| && |r.props| == |st.props|
  {
    if st.ph[t] != 0 then st
    else
      var v := NextFree(st.ph, st.next);
      State(st.ph[t := v], st.props[t := WithPhandleProps(st.props[t], v, opt)], v)
  }

  // ---- fixup_phandle_references ----

  /** The cell at off of the i-th property of a node. */
  ghost function Cell4(st: State, id: nat, i: nat, off: nat): int
    requires id < |st.props| && i < |st.props[id]| && off + 4 <= |st.props[id][i].val|
  {
    Ld32(st.props[id][i].val, off)
  }

  ghost function SetCell(st: State, id: nat, i: nat, off: nat, v: int): (r: State)
    requires id < |st.props| && i < |st.props[id]| && off + 4 <= |st.props[id][i].val|
    ensures r.ph == st.ph && r.next == st.next && |r.props| == |st.props|
  {
    var p := st.props[id][i];
    st.(props := st.props[id := st.props[id][i := p.(val := Put(p.val, off, Be32(v)))]])
  }

  /** The cell of a marker is there. */
  predicate RefFits(p: Prop, r: Ref) { r.off + 4 <= |p.val| }

  predicate RefsFitBody(p: Prop) {
    (forall k | 0 <= k < |p.refs| :: RefFits(p, p.refs[k])) &&
    forall k, l | 0 <= k < |p.refs| && 0 <= l < |p.refs| && k != l :: Apart(p.refs[k], p.refs[l])
  }

  ghost predicate IsRefsFit(p: Prop, r: bool) { forall z :: Unseal(z) ==> r == RefsFitBody(p) }

  /** Markers stand at cells of their values, and these do not overlap; sealed. */
  ghost predicate RefsFit(p: Prop) {
    assert IsRefsFit(p, RefsFitBody(p));
    var r :| IsRefsFit(p, r);
    r
  }

  lemma {:induction false} RefsFitDef(p: Prop)
    ensures RefsFit(p) == RefsFitBody(p)
  {
    assert Unseal(0);
  }

  predicate Apart(a: Ref, b: Ref) { a.off + 4 <= b.off || b.off + 4 <= a.off }

  ghost predicate AllFit(st: State) {
    |st.props| == |st.ph| && forall id, i | 0 <= id < |st.props| && 0 <= i < |st.props[id]| :: RefsFit(st.props[id][i])
  }

  /** The body of the loop over the markers. */
  ghost function FixRef(s: Shape, st: State, id: nat, i: nat, r: Ref, opt: Options): (st': State)
    requires AllFit(st) && Numbered(s, |st.ph|) && id < |st.props| && i < |st.props[id]| && RefFits(st.props[id][i], r)
    ensures |st'.ph| == |st.ph| && |st'.props| == |st.props|
  {
    ByRefIs(s, r.target, |st.ph|);
    var t := ByRef(s, r.target);
    if t.None? then (if opt.plugin then SetCell(st, id, i, r.off, 0xffff_ffff) else st)
    else
      var st1 := GetPhandle(st, t.value, opt);
      Grown(st, t.value, opt);
      SetCell(st1, id, i, r.off, st1.ph[t.value])
  }

  /** st' has the nodes and properties of st, and perhaps more properties without markers. */
  ghost predicate Grows(st: State, st': State) {
    |st'.ph| == |st.ph| && |st'.props| == |st.props| && st.next <= st'.next &&
    (forall x | 0 <= x < |st.ph| && st.ph[x] != 0 :: st'.ph[x] == st.ph[x]) &&
    forall x | 0 <= x < |st.props| :: PropsGrow(st.props[x], st'.props[x])
  }

  predicate PropsGrow(ps: seq<Prop>, qs: seq<Prop>) {
    |ps| <= |qs| && (forall i | 0 <= i < |ps| :: SameFrame(ps[i], qs[i])) && forall i | |ps| <= i < |qs| ::
      qs[i].refs == []
  }

  /** Same name and markers, a value of the same length, and the same value if there is no marker. */
  predicate SameFrame(p: Prop, q: Prop) {
    q.name == p.name && q.refs == p.refs && |q.val| == |p.val| && (p.refs == [] ==> q.val == p.val)
  }

  lemma {:induction false} GrowsTrans(a: State, b: State, c: State)
    requires Grows(a, b) && Grows(b, c)
    ensures Grows(a, c)
  {
    forall x | 0 <= x < |a.props| ensures PropsGrow(a.props[x], c.props[x]) {
      assert PropsGrow(a.props[x], b.props[x]) && PropsGrow(b.props[x], c.props[x]);
      assert forall i | 0 <= i < |a.props[x]| :: SameFrame(a.props[x][i], b.props[x][i]);
      assert forall i | 0 <= i < |b.props[x]| :: SameFrame(b.props[x][i], c.props[x][i]);
    }
  }

  lemma {:induction false} GrowsFit(a: State, b: State)
    requires Grows(a, b) && AllFit(a)
    ensures AllFit(b)
  {
    forall id, i | 0 <= id < |b.props| && 0 <= i < |b.props[id]| ensures RefsFit(b.props[id][i]) {
      assert PropsGrow(a.props[id], b.props[id]);
      if i < |a.props[id]| {
        assert SameFrame(a.props[id][i], b.props[id][i]) && RefsFit(a.props[id][i]);
        RefsFitDef(a.props[id][i]);
        RefsFitDef(b.props[id][i]);
      } else {
        assert b.props[id][i].refs == [];
        RefsFitDef(b.props[id][i]);
      }
    }
  }

  lemma {:induction false} Grown(st: State, t: nat, opt: Options)
    requires t < |st.ph| == |st.props|
    ensures Grows(st, GetPhandle(st, t, opt))
    ensures forall x | 0 <= x < |st.props| :: st.props[x] <= GetPhandle(st, t, opt).props[x]
  {
  }

  // ---- one marker ----

  /** The marker r of the i-th property of a node is dealt with: its cell holds the phandle of the node
      it means, which has one, or, in a plugin, 0xffffffff if it means none. */
  ghost predicate Done(s: Shape, st: State, id: nat, i: nat, r: Ref, opt: Options) {
    Numbered(s, |st.ph|) && |st.props| == |st.ph| && id < |st.props| && i < |st.props[id]| &&
    RefFits(st.props[id][i], r) &&
    (forall t: nat | Means(s, r.target, t) :: t < |st.ph| && 0 < st.ph[t] == Cell4(st, id, i, r.off)) &&
    (Dangling(s, r.target) && opt.plugin ==> Cell4(st, id, i, r.off) == 0xffff_ffff)
  }

  /** Phandles are unsigned and not -1. */
  predicate Sane(st: State) {
    |st.props| == |st.ph| && DistinctPhandles(st.ph) && (forall x | 0 <= x < |st.ph| :: 0 <= st.ph[x] < 0xffff_ffff)
  }

  /** The counter has passed only numbers in use since it was at `start`, so it cannot wrap. */
  predicate Counts(st: State, start: int) {
    0 < start <= st.next && start + |st.ph| < 0xffff_ffff && forall v | start <= v < st.next :: InUse(st.ph, v)
  }

  lemma {:induction false} PhandleGot(st: State, t: nat, start: int, opt: Options)
    requires Sane(st) && Counts(st, start) && t < |st.ph|
    ensures var st' := GetPhandle(st, t, opt);
            Sane(st') && Counts(st', start) && st'.ph[t] > 0
  {
    if st.ph[t] == 0 {
      var v := NextFree(st.ph, st.next);
      assert forall w | start <= w < v :: InUse(st.ph, w);
      UsedAtMost(st.ph, start, v);
      var ph := st.ph[t := v];
      forall w | start <= w < v ensures InUse(ph, w) {
        assert InUse(st.ph, w);
        var i :| 0 <= i < |st.ph| && st.ph[i] == w;
        assert ph[i] == w;
      }
      assert forall i | 0 <= i < |ph| && i != t :: ph[i] != v by {
        assert !InUse(st.ph, v);
        assert forall i | 0 <= i < |ph| && i != t :: ph[i] == st.ph[i];
      }
    }
  }

  /** What was dealt with stays so: phandles that are there stay, and so do cells that are not
      written. */
  lemma {:induction false} DoneStays(s: Shape, st: State, st': State, id: nat, i: nat, r: Ref, opt: Options)
    requires Done(s, st, id, i, r, opt) && Grows(st, st')
    requires SameCell(st, st', id, i, r.off)
    ensures Done(s, st', id, i, r, opt)
  {
    assert PropsGrow(st.props[id], st'.props[id]);
    assert SameFrame(st.props[id][i], st'.props[id][i]);
  }

  ghost predicate SameCell(st: State, st': State, id: nat, i: nat, off: nat) {
    id < |st.props| && i < |st.props[id]| && off + 4 <= |st.props[id][i].val| &&
    id < |st'.props| && i < |st'.props[id]| && off + 4 <= |st'.props[id][i].val| &&
    Cell4(st', id, i, off) == Cell4(st, id, i, off)
  }

  lemma {:induction false} CellSet(st: State, id: nat, i: nat, off: nat, v: int)
    requires id < |st.props| == |st.ph| && i < |st.props[id]| && off + 4 <= |st.props[id][i].val|
    requires 0 <= v < 0x1_0000_0000 && st.props[id][i].refs != []
    ensures var st' := SetCell(st, id, i, off, v);
            Grows(st, st') && |st'.props[id]| == |st.props[id]| && off + 4 <= |st'.props[id][i].val| &&
            Cell4(st', id, i, off) == v &&
            forall x: nat, j: nat, o: nat | x < |st.props| && j < |st.props[x]| && o + 4 <= |st.props[x][j].val| &&
              (x != id || j != i || o + 4 <= off || off + 4 <= o) :: SameCell(st, st', x, j, o)
  {
    var p := st.props[id][i];
    LdPutSame(p.val, off, v);
    forall x: nat, j: nat, o: nat | x < |st.props| && j < |st.props[x]| && o + 4 <= |st.props[x][j].val| &&
      (x != id || j != i || o + 4 <= off || off + 4 <= o)
      ensures SameCell(st, SetCell(st, id, i, off, v), x, j, o)
    {
      if x == id && j == i {
        LdPutOther(p.val, off, Be32(v), o);
      }
    }
  }

  /** Other markers: of another property, or at a cell that does not overlap. */
  predicate Other(id: nat, i: nat, r: Ref, x: nat, j: nat, o: nat) { x != id || j != i || o + 4 <= r.off ||
    r.off + 4 <= o }

  /** All cells but that of the marker are as before. */
  ghost predicate Spares(st: State, st': State, id: nat, i: nat, r: Ref) {
    forall x: nat, j: nat, o: nat | x < |st.props| && j < |st.props[x]| && o + 4 <= |st.props[x][j].val| &&
      Other(id, i, r, x, j, o) :: SameCell(st, st', x, j, o)
  }

  lemma {:induction false} GrownCells(st: State, t: nat, opt: Options)
    requires t < |st.ph| == |st.props|
    ensures forall x: nat, j: nat, o: nat | x < |st.props| && j < |st.props[x]| && o + 4 <= |st.props[x][j].val| ::
              SameCell(st, GetPhandle(st, t, opt), x, j, o)
  {
    Grown(st, t, opt);
    var st' := GetPhandle(st, t, opt);
    forall x: nat, j: nat, o: nat | x < |st.props| && j < |st.props[x]| && o + 4 <= |st.props[x][j].val|
      ensures SameCell(st, st', x, j, o)
    {
      assert st.props[x] <= st'.props[x];
      assert st'.props[x][j] == st.props[x][j];
    }
  }

  /** One marker. */
  lemma {:induction false} RefFixed(s: Shape, st: State, id: nat, i: nat, r: Ref, start: int, opt: Options)
    requires AllFit(st) && Numbered(s, |st.ph|) && Sane(st) && Counts(st, start)
    requires id < |st.props| && i < |st.props[id]| && r in st.props[id][i].refs && RefFits(st.props[id][i], r)
    ensures var st' := FixRef(s, st, id, i, r, opt);
            Grows(st, st') && Sane(st') && Counts(st', start) && Spares(st, st', id, i, r) &&
              Done(s, st', id, i, r, opt)
  {
    ByRefIs(s, r.target, |st.ph|);
    ByRefExact(s, r.target);
    var t := ByRef(s, r.target);
    if t.None? {
      if opt.plugin {
        CellSet(st, id, i, r.off, 0xffff_ffff);
      }
    } else {
      var st1 := GetPhandle(st, t.value, opt);
      Grown(st, t.value, opt);
      GrownCells(st, t.value, opt);
      PhandleGot(st, t.value, start, opt);
      assert PropsGrow(st.props[id], st1.props[id]);
      assert SameFrame(st.props[id][i], st1.props[id][i]);
      CellSet(st1, id, i, r.off, st1.ph[t.value]);
      GrowsTrans(st, st1, SetCell(st1, id, i, r.off, st1.ph[t.value]));
      SparesBoth(st, st1, SetCell(st1, id, i, r.off, st1.ph[t.value]), id, i, r);
    }
  }

  lemma {:induction false} SparesBoth(a: State, b: State, c: State, id: nat, i: nat, r: Ref)
    requires forall x: nat, j: nat, o: nat | x < |a.props| && j < |a.props[x]| && o + 4 <= |a.props[x][j].val| ::
               SameCell(a, b, x, j, o)
    requires Spares(b, c, id, i, r)
    ensures Spares(a, c, id, i, r)
  {
    forall x: nat, j: nat, o: nat | x < |a.props| && j < |a.props[x]| && o + 4 <= |a.props[x][j].val| &&
      Other(id, i, r, x, j, o)
      ensures SameCell(a, c, x, j, o)
    {
      assert SameCell(a, b, x, j, o);
      assert SameCell(b, c, x, j, o);
    }
  }

  // ---- all markers ----

  lemma {:induction false} RefGrows(s: Shape, st: State, id: nat, i: nat, r: Ref, opt: Options)
    requires AllFit(st) && Numbered(s, |st.ph|) && id < |st.props| && i < |st.props[id]|
    requires r in st.props[id][i].refs && RefFits(st.props[id][i], r)
    ensures Grows(st, FixRef(s, st, id, i, r, opt)) && AllFit(FixRef(s, st, id, i, r, opt))
  {
    var st' := FixRef(s, st, id, i, r, opt);
    ByRefIs(s, r.target, |st.ph|);
    var t := ByRef(s, r.target);
    var st1 := if t.None? then st else GetPhandle(st, t.value, opt);
    if t.Some? {
      Grown(st, t.value, opt);
    }
    assert PropsGrow(st.props[id], st1.props[id]);
    assert SameFrame(st.props[id][i], st1.props[id][i]);
    forall x | 0 <= x < |st1.props| ensures PropsGrow(st1.props[x], st'.props[x]) {
      assert forall j | 0 <= j < |st1.props[x]| :: SameFrame(st1.props[x][j], st'.props[x][j]);
    }
    GrowsTrans(st, st1, st');
    GrowsFit(st, st');
  }

  /** rs are the markers of the property that are left. */
  ghost predicate Left(st: State, id: nat, i: nat, rs: seq<Ref>) {
    AllFit(st) && id < |st.props| && i < |st.props[id]| && |rs| <= |st.props[id][i].refs| &&
    rs == st.props[id][i].refs[|st.props[id][i].refs| - |rs|..]
  }

  lemma {:induction false} LeftNext(s: Shape, st: State, id: nat, i: nat, rs: seq<Ref>, opt: Options)
    requires Left(st, id, i, rs) && rs != [] && Numbered(s, |st.ph|)
    ensures rs[0] in st.props[id][i].refs && RefFits(st.props[id][i], rs[0])
    ensures Grows(st, FixRef(s, st, id, i, rs[0], opt)) && Left(FixRef(s, st, id, i, rs[0], opt), id, i, rs[1..])
  {
    var p := st.props[id][i];
    var k := |p.refs| - |rs|;
    assert rs[0] == p.refs[k] && rs[1..] == p.refs[k + 1..];
    assert RefsFit(p);
    RefsFitDef(p);
    RefGrows(s, st, id, i, rs[0], opt);
    var st' := FixRef(s, st, id, i, rs[0], opt);
    assert PropsGrow(st.props[id], st'.props[id]);
    assert SameFrame(p, st'.props[id][i]);
  }

  ghost function FixRefs(s: Shape, st: State, id: nat, i: nat, rs: seq<Ref>, opt: Options): (st': State)
    requires Left(st, id, i, rs) && Numbered(s, |st.ph|)
    ensures Grows(st, st') && AllFit(st')
    decreases |rs|
  {
    if rs == [] then st
    else
      LeftNext(s, st, id, i, rs, opt);
      var st1 := FixRef(s, st, id, i, rs[0], opt);
      var st2 := FixRefs(s, st1, id, i, rs[1..], opt);
      GrowsTrans(st, st1, st2);
      st2
  }

  /** The loop over the first n properties.  Those that get_node_phandle adds meanwhile have no
      REF_PHANDLE markers, so nothing is done for them. */
  ghost function FixProps(s: Shape, st: State, id: nat, i: nat, n: nat, opt: Options): (st': State)
    requires AllFit(st) && Numbered(s, |st.ph|) && id < |st.props| && i <= n <= |st.props[id]|
    ensures Grows(st, st') && AllFit(st')
    decreases n - i
  {
    if i == n then st
    else
      assert st.props[id][i].refs[0..] == st.props[id][i].refs;
      var st1 := FixRefs(s, st, id, i, st.props[id][i].refs, opt);
      assert PropsGrow(st.props[id], st1.props[id]);
      var st2 := FixProps(s, st1, id, i + 1, n, opt);
      GrowsTrans(st, st1, st2);
      st2
  }

  /** fixup_phandle_references for the given nodes. */
  ghost function FixNodes(s: Shape, st: State, ids: seq<nat>, opt: Options): (st': State)
    requires AllFit(st) && Numbered(s, |st.ph|) && forall i | 0 <= i < |ids| :: ids[i] < |st.ph|
    ensures Grows(st, st') && AllFit(st')
    decreases |ids|
  {
    if ids == [] then st
    else
      assert forall i | 0 <= i < |ids| - 1 :: ids[1..][i] == ids[i + 1];
      var st1 := FixProps(s, st, ids[0], 0, |st.props[ids[0]]|, opt);
      var st2 := FixNodes(s, st1, ids[1..], opt);
      GrowsTrans(st, st1, st2);
      st2
  }

  // ---- every marker is dealt with ----

  ghost predicate PropDone(s: Shape, st: State, id: nat, i: nat, rs: seq<Ref>, opt: Options) {
    forall k | 0 <= k < |rs| :: Done(s, st, id, i, rs[k], opt)
  }

  /** All markers of a node. */
  ghost predicate NodeDone(s: Shape, st: State, id: nat, n: nat, opt: Options) {
    id < |st.props| && n <= |st.props[id]| && forall i | 0 <= i < n :: PropDone(s, st, id, i, st.props[id][i].refs, opt)
  }

  /** Cells of other properties are as before. */
  ghost predicate SparesProp(st: State, st': State, id: nat, i: nat) {
    forall x: nat, j: nat, o: nat | x < |st.props| && j < |st.props[x]| && o + 4 <= |st.props[x][j].val| &&
      (x != id || j != i) :: SameCell(st, st', x, j, o)
  }

  /** Cells of other nodes are as before. */
  ghost predicate SparesNode(st: State, st': State, id: nat) {
    forall x: nat, j: nat, o: nat | x < |st.props| && j < |st.props[x]| && o + 4 <= |st.props[x][j].val| && x != id ::
      SameCell(st, st', x, j, o)
  }

  lemma {:induction false} SparesPropTrans(a: State, b: State, c: State, id: nat, i: nat)
    requires SparesProp(a, b, id, i) && SparesProp(b, c, id, i)
    ensures SparesProp(a, c, id, i)
  {
    forall x: nat, j: nat, o: nat | x < |a.props| && j < |a.props[x]| && o + 4 <= |a.props[x][j].val| &&
      (x != id || j != i)
      ensures SameCell(a, c, x, j, o)
    {
      assert SameCell(a, b, x, j, o);
      assert SameCell(b, c, x, j, o);
    }
  }

  lemma {:induction false} SparesNodeTrans(a: State, b: State, c: State, id: nat)
    requires SparesNode(a, b, id) && SparesNode(b, c, id)
    ensures SparesNode(a, c, id)
  {
    forall x: nat, j: nat, o: nat | x < |a.props| && j < |a.props[x]| && o + 4 <= |a.props[x][j].val| && x != id
      ensures SameCell(a, c, x, j, o)
    {
      assert SameCell(a, b, x, j, o);
      assert SameCell(b, c, x, j, o);
    }
  }

  /** The markers of a property, one after the other. */
  lemma {:induction false} RefsFixed(s: Shape, st: State, id: nat, i: nat, rs: seq<Ref>, start: int, opt: Options)
    requires Left(st, id, i, rs) && Numbered(s, |st.ph|) && Sane(st) && Counts(st, start)
    requires PropDone(s, st, id, i, st.props[id][i].refs[..|st.props[id][i].refs| - |rs|], opt)
    ensures var st' := FixRefs(s, st, id, i, rs, opt);
            Sane(st') && Counts(st', start) && SparesProp(st, st', id, i) && id < |st'.props| && i < |st'.props[id]| &&
            PropDone(s, st', id, i, st'.props[id][i].refs, opt)
    decreases |rs|
  {
    var refs := st.props[id][i].refs;
    var n := |refs| - |rs|;
    if rs == [] {
      assert refs[..n] == refs;
      SparesSelf(st, id, i);
    } else {
      LeftNext(s, st, id, i, rs, opt);
      assert rs[0] == refs[n];
      RefFixed(s, st, id, i, rs[0], start, opt);
      var st1 := FixRef(s, st, id, i, rs[0], opt);
      assert PropsGrow(st.props[id], st1.props[id]);
      assert SameFrame(st.props[id][i], st1.props[id][i]);
      MoreDone(s, st, st1, id, i, n, opt);
      RefsFixed(s, st1, id, i, rs[1..], start, opt);
      SparesWeaker(st, st1, id, i, rs[0]);
      SparesPropTrans(st, st1, FixRefs(s, st1, id, i, rs[1..], opt), id, i);
    }
  }

  lemma {:induction false} SparesSelf(st: State, id: nat, i: nat)
    ensures SparesProp(st, st, id, i) && SparesNode(st, st, id)
  {
  }

  lemma {:induction false} SparesWeaker(st: State, st': State, id: nat, i: nat, r: Ref)
    requires Spares(st, st', id, i, r)
    ensures SparesProp(st, st', id, i)
  {
    forall x: nat, j: nat, o: nat | x < |st.props| && j < |st.props[x]| && o + 4 <= |st.props[x][j].val| &&
      (x != id || j != i)
      ensures SameCell(st, st', x, j, o)
    {
      assert Other(id, i, r, x, j, o);
    }
  }

  /** The markers before the n-th stay dealt with, and the n-th now is. */
  lemma {:induction false} MoreDone(s: Shape, st: State, st1: State, id: nat, i: nat, n: nat, opt: Options)
    requires AllFit(st) && Numbered(s, |st.ph|) && id < |st.props| && i < |st.props[id]| && n < |st.props[id][i].refs|
    requires PropDone(s, st, id, i, st.props[id][i].refs[..n], opt) && Grows(st, st1)
    requires Spares(st, st1, id, i, st.props[id][i].refs[n]) && Done(s, st1, id, i, st.props[id][i].refs[n], opt)
    ensures PropDone(s, st1, id, i, st.props[id][i].refs[..n + 1], opt)
  {
    var p := st.props[id][i];
    var qs := p.refs[..n + 1];
    forall k | 0 <= k < |qs| ensures Done(s, st1, id, i, qs[k], opt) {
      assert qs[k] == p.refs[k];
      if k < n {
        assert p.refs[..n][k] == p.refs[k];
        RefsFitDef(p);
        assert RefsFit(p) && Apart(p.refs[k], p.refs[n]) && RefFits(p, p.refs[k]);
        assert Other(id, i, p.refs[n], id, i, p.refs[k].off);
        DoneStays(s, st, st1, id, i, p.refs[k], opt);
      }
    }
  }

  /** A property whose markers are dealt with, and that is not written. */
  lemma {:induction false} PropStays(s: Shape, st: State, st': State, x: nat, j: nat, opt: Options)
    requires AllFit(st) && x < |st.props| && j < |st.props[x]| && Grows(st, st')
    requires PropDone(s, st, x, j, st.props[x][j].refs, opt)
    requires forall o: nat | o + 4 <= |st.props[x][j].val| :: SameCell(st, st', x, j, o)
    ensures x < |st'.props| && j < |st'.props[x]| && PropDone(s, st', x, j, st'.props[x][j].refs, opt)
  {
    assert PropsGrow(st.props[x], st'.props[x]);
    assert SameFrame(st.props[x][j], st'.props[x][j]);
    forall k | 0 <= k < |st.props[x][j].refs| ensures Done(s, st', x, j, st.props[x][j].refs[k], opt) {
      assert Done(s, st, x, j, st.props[x][j].refs[k], opt);
      DoneStays(s, st, st', x, j, st.props[x][j].refs[k], opt);
    }
  }

  /** The properties of a node from the i-th on. */
  lemma {:induction false} PropsFixed(s: Shape, st: State, id: nat, i: nat, n: nat, start: int, opt: Options)
    requires AllFit(st) && Numbered(s, |st.ph|) && id < |st.props| && i <= n <= |st.props[id]|
    requires Sane(st) && Counts(st, start) && NodeDone(s, st, id, i, opt)
    ensures var st' := FixProps(s, st, id, i, n, opt);
            Sane(st') && Counts(st', start) && SparesNode(st, st', id) && NodeDone(s, st', id, n, opt)
    decreases n - i
  {
    if i == n {
      SparesSelf(st, id, i);
    } else {
      var rs := st.props[id][i].refs;
      assert rs[0..] == rs && rs[..0] == [];
      RefsFixed(s, st, id, i, rs, start, opt);
      var st1 := FixRefs(s, st, id, i, rs, opt);
      assert PropsGrow(st.props[id], st1.props[id]);
      forall j | 0 <= j < i ensures PropDone(s, st1, id, j, st1.props[id][j].refs, opt) {
        PropStays(s, st, st1, id, j, opt);
      }
      PropsFixed(s, st1, id, i + 1, n, start, opt);
      PropToNode(st, st1, id, i);
      SparesNodeTrans(st, st1, FixProps(s, st1, id, i + 1, n, opt), id);
    }
  }

  lemma {:induction false} PropToNode(st: State, st': State, id: nat, i: nat)
    requires SparesProp(st, st', id, i)
    ensures SparesNode(st, st', id)
  {
    forall x: nat, j: nat, o: nat | x < |st.props| && j < |st.props[x]| && o + 4 <= |st.props[x][j].val| && x != id
      ensures SameCell(st, st', x, j, o)
    {
    }
  }

  /** All properties, those added included. */
  ghost predicate WholeDone(s: Shape, st: State, id: nat, opt: Options) {
    id < |st.props| && NodeDone(s, st, id, |st.props[id]|, opt)
  }

  lemma {:induction false} WholeStays(s: Shape, st: State, st': State, id: nat, y: nat, opt: Options)
    requires AllFit(st) && Grows(st, st') && SparesNode(st, st', id) && y != id && WholeDone(s, st, y, opt)
    ensures WholeDone(s, st', y, opt)
  {
    assert PropsGrow(st.props[y], st'.props[y]);
    forall j | 0 <= j < |st'.props[y]| ensures PropDone(s, st', y, j, st'.props[y][j].refs, opt) {
      if j < |st.props[y]| {
        PropStays(s, st, st', y, j, opt);
      }
    }
  }

  /** All nodes: every marker is dealt with. */
  lemma {:induction false} NodesFixed(s: Shape, st: State, done: seq<nat>, ids: seq<nat>, start: int, opt: Options)
    requires AllFit(st) && Numbered(s, |st.ph|) && Sane(st) && Counts(st, start)
    requires forall i | 0 <= i < |done + ids| :: (done + ids)[i] < |st.ph|
    requires forall i, j | 0 <= i < j < |done + ids| :: (done + ids)[i] != (done + ids)[j]
    requires forall i | 0 <= i < |done| :: WholeDone(s, st, done[i], opt)
    ensures forall i | 0 <= i < |ids| :: ids[i] < |st.ph|
    ensures var st' := FixNodes(s, st, ids, opt);
            Sane(st') && Counts(st', start) && forall i | 0 <= i < |done + ids| ::
              WholeDone(s, st', (done + ids)[i], opt)
    decreases |ids|
  {
    assert forall i | 0 <= i < |ids| :: ids[i] == (done + ids)[|done| + i];
    if ids == [] {
      assert done + ids == done;
    } else {
      var id := ids[0];
      Splits(done, ids);
      var n := |st.props[id]|;
      PropsFixed(s, st, id, 0, n, start, opt);
      var st1 := FixProps(s, st, id, 0, n, opt);
      assert PropsGrow(st.props[id], st1.props[id]);
      forall j | 0 <= j < |st1.props[id]| ensures PropDone(s, st1, id, j, st1.props[id][j].refs, opt) {
      }
      var more := done + [id];
      forall i | 0 <= i < |more| ensures WholeDone(s, st1, more[i], opt) {
        if i < |done| {
          assert more[i] == done[i];
          WholeStays(s, st, st1, id, done[i], opt);
        }
      }
      NodesFixed(s, st1, more, ids[1..], start, opt);
    }
  }
}
