/** flattree.c, versions 16 and 17: flattening a live tree into structure and strings
    block, and reading blocks back.  Offsets count from the start of the block. */
module FlatTree {
  import opened Bytes
  import opened Syntax
  import opened DeviceTree
  import opened Refine
  import opened Edit
  import opened Stream
  import opened SeqRuns

  // ---- stringtable_insert ----

  /** The loop of stringtable_insert: first index from i on at which the string str, with
      its NUL, lies in the table; |tab| if there is none. */
  function FindStringAt(tab: seq<byte>, str: seq<byte>, i: nat): (r: nat)
    requires i <= |tab|
    ensures i <= r <= |tab| && (r < |tab| ==> StringHere(tab, r, str))
    ensures forall j | i <= j < r :: !StringHere(tab, j, str)
    decreases |tab| - i
  {
    if i == |tab| || StringHere(tab, i, str) then i else FindStringAt(tab, str, i + 1)
  }

  /** stringtable_insert: the offset of the string and the table afterwards. */
  function Insert(tab: seq<byte>, str: seq<byte>): (nat, seq<byte>) {
    var i := FindStringAt(tab, str, 0);
    if i < |tab| then (i, tab) else (i, tab + str + [0])
  }

  /** The offset names the string, and all strings in the table stay where they are; the table grows, by
      the string and its NUL, iff no offset named the string before, and else the first that did is
      taken. */
  lemma {:induction false} InsertIs(tab: seq<byte>, str: seq<byte>)
    requires NulFree(str)
    ensures var (i, tab') := Insert(tab, str);
            StrAt(tab', i) == Some(str) && (exists more :: tab' == tab + more) &&
            if exists j :: StrAt(tab, j) == Some(str) then
              tab' == tab && forall j: nat | j < i :: StrAt(tab, j) != Some(str)
            else tab' == tab + str + [0] && i == |tab|
  {
    var (i, tab') := Insert(tab, str);
    forall j: int ensures StrAt(tab, j) == Some(str) <==> StringHere(tab, j, str) {
      StrIs(tab, j, str);
    }
    if i < |tab| {
      StrIs(tab, i, str);
      assert tab' == tab + [];
    } else {
      assert tab' == tab + (str + [0]);
      assert tab'[i..i + |str|] == str && tab'[i + |str|] == 0;
      StrIs(tab', i, str);
    }
  }

  // ---- flatten_tree ----

  /** dtbuf and strbuf. */
  datatype Out = Out(dt: seq<byte>, strs: seq<byte>)

  /** data_append_align. */
  ghost function PadTo4(s: seq<byte>): (r: seq<byte>) { s + Zeros(Align4(|s|) - |s|) }

  ghost function EmitBegin(out: Out, name: seq<byte>): Out {
    out.(dt := PadTo4(out.dt + Be32(FDT_BEGIN_NODE) + (name + [0])))
  }

  ghost function EmitProp(out: Out, p: Property): Out {
    var (i, strs) := Insert(out.strs, p.name);
    Out(PadTo4(out.dt + Be32(FDT_PROP) + Be32(|p.val|) + Be32(i) + p.val), strs)
  }

  ghost function EmitEnd(out: Out): Out { out.(dt := out.dt + Be32(FDT_END_NODE)) }

  ghost function EmitProps(out: Out, ps: seq<Property>): Out
    decreases |ps|
  {
    if ps == [] then out else EmitProps(EmitProp(out, ps[0]), ps[1..])
  }

  /** flatten_tree without FTF_FULLPATH, FTF_VARALIGN and FTF_NAMEPROPS. */
  ghost function Flatten(t: Tree, out: Out): Out
    decreases t, 1
  {
    EmitEnd(FlattenAll(t.kids, EmitProps(EmitBegin(out, t.name), t.props)))
  }

  ghost function FlattenAll(ts: seq<Tree>, out: Out): Out
    decreases ts, 0
  {
    if ts == [] then out else FlattenAll(ts[1..], Flatten(ts[0], out))
  }

  // ---- what the buffers hold ----

  /** The calls of the emitter for a tree, as events of the sequential writer. */
  function PropEvents(ps: seq<Property>): seq<Event> {
    if ps == [] then [] else [AddProp(ps[0].name, ps[0].val)] + PropEvents(ps[1..])
  }

  function TreeEvents(t: Tree): seq<Event>
    decreases t, 1
  {
    [BeginNode(t.name)] + PropEvents(t.props) + ForestEvents(t.kids) + [EndNode]
  }

  function ForestEvents(ts: seq<Tree>): seq<Event>
    decreases ts, 0
  {
    if ts == [] then [] else TreeEvents(ts[0]) + ForestEvents(ts[1..])
  }

  /** The buffers hold the tokens of the calls es; 32-bit offsets suffice. */
  ghost predicate Holding(out: Out, es: seq<Event>) {
    exists ks :: Spelt(out.dt, ks) && Transcribes(ks, es, out.strs, 0)
  }

  /** Names are C strings; sizes stay below 2^32 as long as the buffers do. */
  predicate Nameable(t: Tree)
    decreases t, 1
  {
    NulFree(t.name) && (forall i | 0 <= i < |t.props| :: NulFree(t.props[i].name)) && AllNameable(t.kids)
  }

  predicate AllNameable(ts: seq<Tree>)
    decreases ts, 0
  {
    forall i | 0 <= i < |ts| :: Nameable(ts[i])
  }

  lemma {:induction false} TranscribesMore(ks: seq<Tok>, es: seq<Event>, strs: seq<byte>, more: seq<byte>)
    requires Transcribes(ks, es, strs, 0)
    ensures Transcribes(ks, es, strs + more, 0)
  {
    forall i | 0 <= i < |ks| ensures Writes(ks[i], es[i], strs + more, 0) {
      assert Writes(ks[i], es[i], strs, 0);
      if es[i].AddProp? {
        StrAppend(strs, more, ks[i].nameoff);
      }
    }
  }

  /** One more token at the end of the block. */
  lemma {:induction false} Appended(out: Out, es: seq<Event>, out': Out, k: Tok, e: Event)
    requires Holding(out, es) && Readable(k) && |out'.dt| == |out.dt| + TokSize(k) && out'.dt[..|out.dt|] == out.dt
    requires TokAt(out'.dt, |out.dt|) == k && Writes(k, e, out'.strs, 0) && exists more :: out'.strs == out.strs + more
    ensures Holding(out', es + [e])
  {
    var ks :| Spelt(out.dt, ks) && Transcribes(ks, es, out.strs, 0);
    var more :| out'.strs == out.strs + more;
    TranscribesMore(ks, es, out.strs, more);
    SameDef(out.dt, 0, out'.dt, 0, |out.dt|);
    SpeltAppend(out.dt, out'.dt, ks, k);
    assert Transcribes(ks + [k], es + [e], out'.strs, 0);
  }

  /** The length of a block of tokens is a multiple of four. */
  lemma {:induction false} HoldingAligned(out: Out, es: seq<Event>)
    requires Holding(out, es)
    ensures Aligned(|out.dt|)
  {
    var ks :| Spelt(out.dt, ks) && Transcribes(ks, es, out.strs, 0);
    SpeltDef(out.dt, ks);
    OffAligned(ks, |ks|);
  }

  lemma {:induction false} PadIs(s: seq<byte>, x: seq<byte>, n: int)
    requires Aligned(|s|) && n == Align4(|x|)
    ensures |PadTo4(s + x)| == |s| + n && PadTo4(s + x)[..|s|] == s && PadTo4(s + x)[|s|..|s| + |x|] == x
  {
    AlignedAdd(|s|, |x|);
  }

  lemma {:induction false} BeginHolds(out: Out, es: seq<Event>, name: seq<byte>)
    requires Holding(out, es) && NulFree(name)
    ensures Holding(EmitBegin(out, name), es + [BeginNode(name)])
  {
    HoldingAligned(out, es);
    var x := Be32(FDT_BEGIN_NODE) + name + [0];
    AlignedConst();
    AlignedAdd(4, |name| + 1);
    PadIs(out.dt, x, OpenSize(|name|));
    assert out.dt + Be32(FDT_BEGIN_NODE) + (name + [0]) == out.dt + x;
    var out' := EmitBegin(out, name);
    OpenEmitted(out'.dt, |out.dt|, name, x);
    assert out'.strs == out.strs + [];
    Appended(out, es, out', Open(name), BeginNode(name));
  }

  lemma {:induction false} PropHolds(out: Out, es: seq<Event>, p: Property)
    requires Holding(out, es) && NulFree(p.name) && |p.val| < 0x1_0000_0000 && |EmitProp(out, p).strs| <= 0x1_0000_0000
    ensures Holding(EmitProp(out, p), es + [AddProp(p.name, p.val)])
  {
    HoldingAligned(out, es);
    InsertIs(out.strs, p.name);
    var (i, strs) := Insert(out.strs, p.name);
    StrIs(strs, i, p.name);
    var x := PropBytes(i, p.val);
    AlignedConst();
    AlignedAdd(12, |p.val|);
    PadIs(out.dt, x, PropSize(|p.val|));
    assert out.dt + Be32(FDT_PROP) + Be32(|p.val|) + Be32(i) + p.val == out.dt + x;
    var out' := EmitProp(out, p);
    PropSpelled(out'.dt, |out.dt|, i, p.val);
    TokIs(out'.dt, |out.dt|, Prop(i, p.val));
    Appended(out, es, out', Prop(i, p.val), AddProp(p.name, p.val));
  }

  lemma {:induction false} EndHolds(out: Out, es: seq<Event>)
    requires Holding(out, es)
    ensures Holding(EmitEnd(out), es + [EndNode])
  {
    var out' := EmitEnd(out);
    assert out'.dt[|out.dt|..|out.dt| + 4] == Be32(FDT_END_NODE);
    LdBe32(out'.dt, |out.dt|, FDT_END_NODE);
    TokIs(out'.dt, |out.dt|, Close);
    assert out'.strs == out.strs + [];
    Appended(out, es, out', Close, EndNode);
  }

  // ---- buffers only grow ----

  ghost predicate Grows(a: Out, b: Out) { |a.dt| <= |b.dt| && |a.strs| <= |b.strs| }

  lemma {:induction false} EmitPropsGrows(out: Out, ps: seq<Property>)
    ensures Grows(out, EmitProps(out, ps))
    decreases |ps|
  {
    if ps != [] {
      EmitPropsGrows(EmitProp(out, ps[0]), ps[1..]);
    }
  }

  lemma {:induction false} FlattenGrows(t: Tree, out: Out)
    ensures Grows(out, Flatten(t, out))
    decreases t, 1
  {
    EmitPropsGrows(EmitBegin(out, t.name), t.props);
    FlattenAllGrows(t.kids, EmitProps(EmitBegin(out, t.name), t.props));
  }

  lemma {:induction false} FlattenAllGrows(ts: seq<Tree>, out: Out)
    ensures Grows(out, FlattenAll(ts, out))
    decreases ts, 0
  {
    if ts != [] {
      FlattenGrows(ts[0], out);
      FlattenAllGrows(ts[1..], Flatten(ts[0], out));
    }
  }

  /** The buffers fit in 32 bits. */
  ghost predicate Fits(out: Out) { |out.dt| < 0x1_0000_0000 && |out.strs| < 0x1_0000_0000 }

  lemma {:induction false} EmitPropsHolds(out: Out, es: seq<Event>, ps: seq<Property>)
    requires Holding(out, es) && (forall i | 0 <= i < |ps| :: NulFree(ps[i].name)) && Fits(EmitProps(out, ps))
    ensures Holding(EmitProps(out, ps), es + PropEvents(ps))
    decreases |ps|
  {
    if ps == [] {
      assert es + [] == es;
    } else {
      var e := AddProp(ps[0].name, ps[0].val);
      EmitPropsGrows(EmitProp(out, ps[0]), ps[1..]);
      PropHolds(out, es, ps[0]);
      EmitPropsHolds(EmitProp(out, ps[0]), es + [e], ps[1..]);
      assert es + [e] + PropEvents(ps[1..]) == es + ([e] + PropEvents(ps[1..]));
    }
  }

  /** flatten_tree appends exactly the tokens of the tree. */
  lemma {:induction false} FlattenHolds(t: Tree, out: Out, es: seq<Event>)
    requires Holding(out, es) && Nameable(t) && Fits(Flatten(t, out))
    ensures Holding(Flatten(t, out), es + TreeEvents(t))
    decreases t, 1
  {
    var out1 := EmitBegin(out, t.name);
    var out2 := EmitProps(out1, t.props);
    var out3 := FlattenAll(t.kids, out2);
    FlattenAllGrows(t.kids, out2);
    EmitPropsGrows(out1, t.props);
    BeginHolds(out, es, t.name);
    var es1 := es + [BeginNode(t.name)];
    EmitPropsHolds(out1, es1, t.props);
    var es2 := es1 + PropEvents(t.props);
    FlattenAllHolds(t.kids, out2, es2);
    var es3 := es2 + ForestEvents(t.kids);
    EndHolds(out3, es3);
    Flattened(es, [BeginNode(t.name)], PropEvents(t.props), ForestEvents(t.kids), [EndNode]);
  }

  lemma {:induction false} Flattened(es: seq<Event>, a: seq<Event>, b: seq<Event>, c: seq<Event>, d: seq<Event>)
    ensures es + a + b + c + d == es + (a + b + c + d)
  {
  }

  lemma {:induction false} FlattenAllHolds(ts: seq<Tree>, out: Out, es: seq<Event>)
    requires Holding(out, es) && AllNameable(ts) && Fits(FlattenAll(ts, out))
    ensures Holding(FlattenAll(ts, out), es + ForestEvents(ts))
    decreases ts, 0
  {
    if ts == [] {
      assert es + [] == es;
    } else {
      FlattenAllGrows(ts[1..], Flatten(ts[0], out));
      FlattenHolds(ts[0], out, es);
      FlattenAllHolds(ts[1..], Flatten(ts[0], out), es + TreeEvents(ts[0]));
      assert es + TreeEvents(ts[0]) + ForestEvents(ts[1..]) == es + (TreeEvents(ts[0]) + ForestEvents(ts[1..]));
    }
  }

  // ---- the events of a tree describe the tree ----

  /** Properties, then subnodes. */
  function PropsDesc(ps: seq<Property>, d: Desc): Desc {
    if ps == [] then d else PropThen(ps[0].name, ps[0].val, PropsDesc(ps[1..], d))
  }

  function ForestDesc(ts: seq<Tree>): Desc
    decreases ts
  {
    if ts == [] then Done else NodeThen(ts[0].name, PropsDesc(ts[0].props, ForestDesc(ts[0].kids)), ForestDesc(ts[1..]))
  }

  lemma {:induction false} PropsDescIs(ps: seq<Property>, d: Desc)
    ensures Events(PropsDesc(ps, d)) == PropEvents(ps) + Events(d)
    ensures PropsOf(PropsDesc(ps, d)) == ps + PropsOf(d) && ForestOf(PropsDesc(ps, d)) == ForestOf(d)
    ensures OrderedDesc(d) ==> OrderedDesc(PropsDesc(ps, d))
    decreases |ps|
  {
    if ps != [] {
      PropsDescIs(ps[1..], d);
      OneProp([AddProp(ps[0].name, ps[0].val)], PropEvents(ps[1..]), Events(d));
      OneProp([ps[0]], ps[1..], PropsOf(d));
      assert ps == [ps[0]] + ps[1..];
    }
  }

  lemma {:induction false} OneProp<T>(a: seq<T>, b: seq<T>, c: seq<T>)
    ensures a + (b + c) == a + b + c
  {
  }

  lemma {:induction false} ForestDescIs(ts: seq<Tree>)
    ensures Events(ForestDesc(ts)) == ForestEvents(ts) && ForestOf(ForestDesc(ts)) == ts &&
            PropsOf(ForestDesc(ts)) == []
    ensures OrderedDesc(ForestDesc(ts)) && NoPropsIn(ForestDesc(ts))
    decreases ts
  {
    if ts != [] {
      ForestDescIs(ts[0].kids);
      ForestDescIs(ts[1..]);
      PropsDescIs(ts[0].props, ForestDesc(ts[0].kids));
      assert ts[0].props + [] == ts[0].props;
      assert ts == [ts[0]] + ts[1..];
      Grouped([BeginNode(ts[0].name)], PropEvents(ts[0].props), ForestEvents(ts[0].kids), [EndNode],
        ForestEvents(ts[1..]));
    }
  }

  lemma {:induction false} Grouped(a: seq<Event>, b: seq<Event>, c: seq<Event>, d: seq<Event>, e: seq<Event>)
    ensures a + (b + c) + d + e == (a + b + c + d) + e
  {
  }

  /** What dt_to_blob writes into the two blocks for a tree. */
  ghost function Blocks(t: Tree): Out {
    var out := Flatten(t, Out([], []));
    out.(dt := out.dt + Be32(FDT_END))
  }

  /** The blocks hold exactly the tree, in the sense of libfdt: one root item and FDT_END. */
  lemma {:induction false} BlocksHold(t: Tree)
    requires Nameable(t) && Fits(Blocks(t))
    ensures exists x ::
              Spells1(Blocks(t), x) && x.Node? && x.next == Nil && Proper(x, Blocks(t).strs) &&
              Forest(x, Blocks(t).strs) == [t]
  {
    var out := Flatten(t, Out([], []));
    var d := ForestDesc([t]);
    ForestDescIs([t]);
    assert [t][1..] == [];
    assert TreeEvents(t) + [] == TreeEvents(t) && [] + TreeEvents(t) == TreeEvents(t);
    SpeltDef([], []);
    OffDef([], 0);
    assert Spelt([], []) && Transcribes([], [], [], 0);
    FlattenHolds(t, Out([], []), []);
    var ks :| Spelt(out.dt, ks) && Transcribes(ks, TreeEvents(t), out.strs, 0);
    TreeBuilt(t, out, ks, d);
  }

  /** The items x and FDT_END are the whole block. */
  ghost predicate Spells1(out: Out, x: Items) {
    Lies(out.dt, 0, x) && TokAt(out.dt, Size(x)) == End && Size(x) + 4 == |out.dt|
  }

  lemma {:induction false} TreeBuilt(t: Tree, out: Out, ks: seq<Tok>, d: Desc)
    requires Spelt(out.dt, ks) && Transcribes(ks, TreeEvents(t), out.strs, 0) && Events(d) == TreeEvents(t)
    requires d.NodeThen? && d.next == Done && ForestOf(d) == [t] && OrderedDesc(d)
    ensures |ks| == Count(d)
    ensures var x := Build(ks, 0, d); var dt := out.dt + Be32(FDT_END);
            Spells1(Out(dt, out.strs), x) && x.Node? && x.next == Nil && Proper(x, out.strs) &&
              Forest(x, out.strs) == [t]
  {
    assert TreeEvents(t) == [] + Events(d) + [];
    EventsPart(TreeEvents(t), [], d, []);
    BuildDenotes(ks, TreeEvents(t), out.strs, 0, d);
    var x, dt := Build(ks, 0, d), out.dt + Be32(FDT_END);
    ProperDef(x, out.strs);
    SpeltDef(out.dt, ks);
    OffDef(ks, 0);
    BuildLies(out.dt, ks, TreeEvents(t), out.strs, 0, d);
    EndAppended(out.dt, x);
  }

  lemma {:induction false} EndAppended(s: seq<byte>, x: Items)
    requires Lies(s, 0, x) && Size(x) == |s|
    ensures var dt := s + Be32(FDT_END); Lies(dt, 0, x) && TokAt(dt, Size(x)) == End
  {
    var dt := s + Be32(FDT_END);
    assert dt[|s|..|s| + 4] == Be32(FDT_END) && dt[0..|s|] == s[0..|s|];
    LdBe32(dt, |s|, FDT_END);
    TokIs(dt, |s|, End);
    SameDef(s, 0, dt, 0, |s|);
    TailMoved(s, 0, dt, 0, |s|, x);
  }
}
