/** flattree.c, versions 1 to 3: nodes carry their full path, values of eight or more bytes
    are aligned to eight, and every node has a "name" property. */
module FlatOld {
  import opened Bytes
  import opened Syntax
  import opened DeviceTree
  import opened Edit
  import opened FlatTree
  import opened FlatBlob

  const SLASH: byte := 47
  const AT: byte := 64

  /** "name" */
  const NAME: seq<byte> := [110, 97, 109, 101]

  /** join_path of util.c. */
  function JoinPath(path: seq<byte>, name: seq<byte>): seq<byte> {
    if path != [] && path[|path| - 1] == SLASH then path + name else path + [SLASH] + name
  }

  /** basenamelen: length of the name up to the first '@'. */
  function BaseLen(name: seq<byte>): (n: nat)
    ensures n <= |name| && AT !in name[..n] && (n < |name| ==> name[n] == AT)
  {
    if name == [] || name[0] == AT then 0
    else
      var n := BaseLen(name[1..]);
      assert name[..n + 1] == [name[0]] + name[1..][..n];
      n + 1
  }

  function Align8(n: nat): (r: nat)
    ensures n <= r < n + 8 && r % 8 == 0
  {
    8 * ((n + 7) / 8)
  }

  // ---- flatten_tree ----

  ghost function Pad(s: seq<byte>, n: nat): seq<byte>
    requires |s| <= n
  {
    s + Zeros(n - |s|)
  }

  /** A property of stored length len whose value is emitted as val. */
  ghost function OldProp(out: Out, name: seq<byte>, len: nat, val: seq<byte>): Out {
    var (i, strs) := Insert(out.strs, name);
    var d := out.dt + (Be32(FDT_PROP) + Be32(len) + Be32(i));
    var e := (if len >= 8 then Pad(d, Align8(|d|)) else d) + val;
    Out(Pad(e, Align4(|e|)), strs)
  }

  ghost function OldProps(out: Out, ps: seq<Property>): Out
    decreases |ps|
  {
    if ps == [] then out else OldProps(OldProp(out, ps[0].name, |ps[0].val|, ps[0].val), ps[1..])
  }

  predicate HasName(ps: seq<Property>) { HasProp(ps, NAME) }

  /** The bytes emitted for a missing "name" property: a length of 0 makes the string emitter
      write the whole name. */
  function NameBytes(name: seq<byte>): seq<byte> { (if BaseLen(name) == 0 then name else name[..BaseLen(name)]) + [0] }

  ghost function OldName(out: Out, t: Tree): Out {
    if HasName(t.props) then out else OldProp(out, NAME, BaseLen(t.name) + 1, NameBytes(t.name))
  }

  ghost function OldBegin(out: Out, path: seq<byte>): Out {
    var d := out.dt + (Be32(FDT_BEGIN_NODE) + path + [0]);
    out.(dt := Pad(d, Align4(|d|)))
  }

  /** flatten_tree of the node t whose full path is path. */
  ghost function FlattenOld(t: Tree, path: seq<byte>, out: Out): Out
    decreases t, 1
  {
    EmitEnd(FlattenOldAll(t.kids, path, OldName(OldProps(OldBegin(out, path), t.props), t)))
  }

  ghost function FlattenOldAll(ts: seq<Tree>, path: seq<byte>, out: Out): Out
    decreases ts, 0
  {
    if ts == [] then out else FlattenOldAll(ts[1..], path, FlattenOld(ts[0], JoinPath(path, ts[0].name), out))
  }

  // ---- unflatten_tree ----

  /** nodename_from_path. */
  function NodeName(ppath: seq<byte>, cpath: seq<byte>): Option<seq<byte>> {
    if !(|ppath| <= |cpath| && cpath[..|ppath|] == ppath) then None
    else
      var plen := if ppath == [SLASH] then |ppath| else |ppath| + 1;
      if plen > |cpath| then None else Some(cpath[plen..])
  }

  /** flat_read_property with FTF_VARALIGN. */
  ghost function ReadOldProp(s: seq<byte>, strs: seq<byte>, o: nat): (r: Read<Property>)
    ensures r.Got? ==> o < r.at <= |s|
  {
    var len := ReadWord(s, o);
    if !len.Got? then Lost(len)
    else
      var off := ReadWord(s, len.at);
      if !off.Got? then Lost(off)
      else
        var name := StrAt(strs, off.value);
        var d := if len.value >= 8 then Align8(off.at) else off.at;
        if name.None? || (len.value >= 8 && d > |s|) then Died
        else if Negative(len.value) then Strayed
        else if d + len.value > |s| || Align4(d + len.value) > |s| then Died
        else Got(Property(name.value, s[d..d + len.value]), if len.value == 0 then d else Align4(d + len.value))
  }

  /** unflatten_tree with FTF_FULLPATH, after FDT_BEGIN_NODE. */
  ghost function UnflattenOld(s: seq<byte>, strs: seq<byte>, o: nat, ppath: seq<byte>): (r: Read<Tree>)
    ensures r.Got? ==> o < r.at <= |s|
    decreases |s| - o, 1
  {
    var path := ReadString(s, o);
    if !path.Got? then Died
    else
      var name := NodeName(ppath, path.value);
      if name.None? then Died else OldLoop(s, strs, path.at, path.value, name.value, [], [])
  }

  ghost function OldLoop(s: seq<byte>, strs: seq<byte>, o: nat, path: seq<byte>, name: seq<byte>, ps: seq<Property>,
    ks: seq<Tree>): (r: Read<Tree>)
    ensures r.Got? ==> o < r.at <= |s|
    decreases |s| - o, 0
  {
    var tag := ReadWord(s, o);
    if !tag.Got? then Lost(tag)
    else if tag.value == FDT_PROP then
      var p := ReadOldProp(s, strs, tag.at);
      if !p.Got? then Lost(p) else OldLoop(s, strs, p.at, path, name, ps + [p.value], ks)
    else if tag.value == FDT_BEGIN_NODE then
      var k := UnflattenOld(s, strs, tag.at, path);
      if !k.Got? then k else OldLoop(s, strs, k.at, path, name, ps, ks + [k.value])
    else if tag.value == FDT_END_NODE then Got(Tree(name, ps, ks), tag.at)
    else if tag.value == FDT_NOP then OldLoop(s, strs, tag.at, path, name, ps, ks)
    else Died
  }

  /** Here too the alignment assertion never fails. */
  lemma {:induction false} OldNeverMisaligned(s: seq<byte>, strs: seq<byte>, o: nat, ppath: seq<byte>)
    requires o % 4 == 0
    ensures var r := UnflattenOld(s, strs, o, ppath); !r.AssertFailed? && (r.Got? ==> r.at % 4 == 0)
    decreases |s| - o, 1
  {
    var path := ReadString(s, o);
    if path.Got? && NodeName(ppath, path.value).Some? {
      AlignDef(NulIndex(s, o).value + 1);
      OldLoopAligned(s, strs, path.at, path.value, NodeName(ppath, path.value).value, [], []);
    }
  }

  lemma {:induction false} ReadOldPropAligned(s: seq<byte>, strs: seq<byte>, o: nat)
    requires o % 4 == 0
    ensures var r := ReadOldProp(s, strs, o); !r.AssertFailed? && (r.Got? ==> r.at % 4 == 0)
  {
    if o + 8 <= |s| {
      var len := Ld32(s, o);
      var e := (if len >= 8 then Align8(o + 8) else o + 8) + len;
      AlignDef(e);
      AlignedMod(Align4(e));
    }
  }

  lemma {:induction false} OldLoopAligned(s: seq<byte>, strs: seq<byte>, o: nat, path: seq<byte>, name: seq<byte>,
    ps: seq<Property>, ks: seq<Tree>)
    requires o % 4 == 0
    ensures var r := OldLoop(s, strs, o, path, name, ps, ks); !r.AssertFailed? && (r.Got? ==> r.at % 4 == 0)
    decreases |s| - o, 0
  {
    var tag := ReadWord(s, o);
    if tag.Got? {
      if tag.value == FDT_PROP {
        ReadOldPropAligned(s, strs, tag.at);
        var p := ReadOldProp(s, strs, tag.at);
        if p.Got? {
          OldLoopAligned(s, strs, p.at, path, name, ps + [p.value], ks);
        }
      } else if tag.value == FDT_BEGIN_NODE {
        OldNeverMisaligned(s, strs, tag.at, path);
        var k := UnflattenOld(s, strs, tag.at, path);
        if k.Got? {
          OldLoopAligned(s, strs, k.at, path, name, ps, ks + [k.value]);
        }
      } else if tag.value == FDT_NOP {
        OldLoopAligned(s, strs, tag.at, path, name, ps, ks);
      }
    }
  }

  // ---- the result ----

  /** The tree with a trailing "name" property in every node that has none. */
  function AddNames(t: Tree): Tree
    decreases t, 1
  {
    Tree(t.name, WithName(t), AddNamesAll(t.kids))
  }

  function WithName(t: Tree): seq<Property> {
    if HasName(t.props) then t.props else t.props + [Property(NAME, t.name[..BaseLen(t.name)] + [0])]
  }

  function AddNamesAll(ts: seq<Tree>): seq<Tree>
    decreases ts, 0
  {
    if ts == [] then [] else [AddNames(ts[0])] + AddNamesAll(ts[1..])
  }

  /** A node whose path its children can extend: the path is "/", or does not end in '/'. */
  predicate Extendable(path: seq<byte>) { path == [SLASH] || (path != [] && path[|path| - 1] != SLASH) }

  /** Names and values for which the old format is unambiguous: a node with children has a
      path that can be extended, and a name that starts with '@' comes with a "name" property. */
  predicate OldSafe(t: Tree, path: seq<byte>)
    decreases t, 1
  {
    NulFree(t.name) && (forall i | 0 <= i < |t.props| :: NulFree(t.props[i].name)) && NulFree(path) &&
    (t.name == [] || t.name[0] != AT || HasName(t.props)) && (t.kids == [] || Extendable(path)) &&
      AllOldSafe(t.kids, path)
  }

  predicate AllOldSafe(ts: seq<Tree>, path: seq<byte>)
    decreases ts, 0
  {
    forall i | 0 <= i < |ts| :: OldSafe(ts[i], JoinPath(path, ts[i].name))
  }

  /** Names that are not empty and free of '/' satisfy the path condition everywhere. */
  predicate PlainNames(ts: seq<Tree>)
    decreases ts
  {
    forall i | 0 <= i < |ts| :: NulFree(ts[i].name) && ts[i].name != [] && SLASH !in ts[i].name &&
      ts[i].name[0] != AT &&
                                (forall j | 0 <= j < |ts[i].props| :: NulFree(ts[i].props[j].name)) &&
                                  PlainNames(ts[i].kids)
  }

  lemma {:induction false} PlainIsSafe(ts: seq<Tree>, path: seq<byte>)
    requires PlainNames(ts) && NulFree(path) && Extendable(path)
    ensures AllOldSafe(ts, path)
    decreases ts
  {
    forall i | 0 <= i < |ts| ensures OldSafe(ts[i], JoinPath(path, ts[i].name)) {
      var q := JoinPath(path, ts[i].name);
      assert q[|q| - 1] == ts[i].name[|ts[i].name| - 1];
      PlainIsSafe(ts[i].kids, q);
    }
  }

  /** A child's name is recovered from the two paths. */
  lemma {:induction false} NodeNameIs(path: seq<byte>, name: seq<byte>)
    requires Extendable(path)
    ensures NodeName(path, JoinPath(path, name)) == Some(name)
  {
    var q := JoinPath(path, name);
    if path == [SLASH] {
      assert q == path + name && q[1..] == name;
    } else {
      assert q == path + [SLASH] + name && q[|path| + 1..] == name && q[..|path|] == path;
    }
  }

  // ---- what the final buffers say about the buffers on the way ----

  /** x is the beginning of s. */
  ghost predicate Begins(s: seq<byte>, x: seq<byte>) { |x| <= |s| && s[..|x|] == x }

  lemma {:induction false} BeginsPart(s: seq<byte>, x: seq<byte>, y: seq<byte>)
    requires Begins(s, x + y)
    ensures Begins(s, x) && |x| + |y| <= |s| && s[|x|..|x| + |y|] == y
  {
    SliceSlice(s, 0, |x| + |y|, 0, |x|);
    SliceSlice(s, 0, |x| + |y|, |x|, |x| + |y|);
    assert s[0..|x| + |y|] == s[..|x| + |y|] && (x + y)[0..|x|] == x && (x + y)[|x|..|x| + |y|] == y;
  }

  /** Final structure and strings block begin with what is in the buffers. */
  ghost predicate Within(s: seq<byte>, tab: seq<byte>, out: Out) {
    Begins(s, out.dt) && Begins(tab, out.strs) && |s| < 0x8000_0000 && |tab| < 0x1_0000_0000
  }

  lemma {:induction false} StrWithin(tab: seq<byte>, strs: seq<byte>, i: int)
    requires Begins(tab, strs) && StrAt(strs, i).Some?
    ensures StrAt(tab, i) == StrAt(strs, i)
  {
    assert tab == strs + tab[|strs|..];
    StrAppend(strs, tab[|strs|..], i);
  }

  lemma {:induction false} InsertWithin(tab: seq<byte>, strs: seq<byte>, name: seq<byte>)
    requires NulFree(name) && Begins(tab, Insert(strs, name).1)
    ensures Begins(tab, strs) && StrAt(tab, Insert(strs, name).0) == Some(name) && Insert(strs, name).0 < |tab|
  {
    InsertIs(strs, name);
    var (i, strs') := Insert(strs, name);
    StrWithin(tab, strs', i);
    StrIs(tab, i, name);
    if strs' != strs {
      assert strs' == strs + (name + [0]);
      BeginsPart(tab, strs, name + [0]);
    }
  }

  /** The layout of one emitted property at offset o. */
  ghost function DataAt(o: nat, len: nat): nat { if len >= 8 then Align8(o + 12) else o + 12 }

  lemma {:induction false} OldPropLayout(out: Out, name: seq<byte>, len: nat, val: seq<byte>)
    requires |val| == len && Aligned(|out.dt|)
    ensures var (i, strs) := Insert(out.strs, name);
            var o, d := |out.dt|, DataAt(|out.dt|, len);
            var h := Be32(FDT_PROP) + Be32(len) + Be32(i);
            OldProp(out, name, len, val).dt ==
              out.dt + (h + Zeros(d - o - 12) + val + Zeros(Align4(d + len) - d - len)) &&
            Aligned(Align4(d + len))
  {
    var (i, strs) := Insert(out.strs, name);
    var o, d := |out.dt|, DataAt(|out.dt|, len);
    var h := Be32(FDT_PROP) + Be32(len) + Be32(i);
    AlignDef(d + len);
    assert len < 8 ==> Zeros(d - o - 12) == [];
    var e := out.dt + h + Zeros(d - o - 12) + val;
    assert |e| == d + len;
    assert OldProp(out, name, len, val).dt == e + Zeros(Align4(d + len) - d - len);
  }

  lemma {:induction false} Pieces(a: seq<byte>, b: seq<byte>, c: seq<byte>, d: seq<byte>, e: seq<byte>, f: seq<byte>)
    requires |a| == 4 && |b| == 4 && |c| == 4
    ensures var x := a + b + c + d + e + f;
            x[0..4] == a && x[4..8] == b && x[8..12] == c && x[12 + |d|..12 + |d| + |e|] == e
  {
    var h := a + b + c;
    assert h[0..4] == a && h[4..8] == b && h[8..12] == c;
    var x := h + (d + e + f);
    assert x == a + b + c + d + e + f;
    assert x[0..4] == h[0..4] && x[4..8] == h[4..8] && x[8..12] == h[8..12];
  }

  lemma {:induction false} PropLayoutRead(s: seq<byte>, o: nat, i: int, len: nat, val: seq<byte>, d: nat, x: seq<byte>)
    requires d == DataAt(o, len) && |val| == len && 0 <= i < 0x1_0000_0000 && len < 0x1_0000_0000
    requires x == Be32(FDT_PROP) + Be32(len) + Be32(i) + Zeros(d - o - 12) + val + Zeros(Align4(d + len) - d - len)
    requires o + |x| <= |s| && s[o..o + |x|] == x
    ensures Ld32(s, o) == FDT_PROP && Ld32(s, o + 4) == len && Ld32(s, o + 8) == i && s[d..d + len] == val &&
            o + |x| == Align4(d + len)
  {
    Pieces(Be32(FDT_PROP), Be32(len), Be32(i), Zeros(d - o - 12), val, Zeros(Align4(d + len) - d - len));
    SliceSlice(s, o, o + |x|, 0, 4);
    SliceSlice(s, o, o + |x|, 4, 8);
    SliceSlice(s, o, o + |x|, 8, 12);
    SliceSlice(s, o, o + |x|, d - o, d - o + len);
    LdBe32(s, o, FDT_PROP);
    LdBe32(s, o + 4, len);
    LdBe32(s, o + 8, i);
  }

  /** A property is read back, and the cursor ends where the emitter ended. */
  lemma {:induction false} OldPropRead(s: seq<byte>, tab: seq<byte>, out: Out, name: seq<byte>, len: nat,
    val: seq<byte>)
    requires |val| == len && Aligned(|out.dt|) && NulFree(name) && Within(s, tab, OldProp(out, name, len, val))
    ensures Within(s, tab, out) && Aligned(|OldProp(out, name, len, val).dt|) && |out.dt| % 4 == 0
    ensures ReadWord(s, |out.dt|) == Got(FDT_PROP, |out.dt| + 4)
    ensures ReadOldProp(s, tab, |out.dt| + 4) == Got(Property(name, val), |OldProp(out, name, len, val).dt|)
  {
    OldPropLayout(out, name, len, val);
    InsertWithin(tab, out.strs, name);
    var (i, strs) := Insert(out.strs, name);
    var o, d := |out.dt|, DataAt(|out.dt|, len);
    var x := Be32(FDT_PROP) + Be32(len) + Be32(i) + Zeros(d - o - 12) + val + Zeros(Align4(d + len) - d - len);
    assert OldProp(out, name, len, val).dt == out.dt + x;
    BeginsPart(s, out.dt, x);
    PropLayoutRead(s, o, i, len, val, d, x);
    AlignedMod(o);
    ReadOldPropEval(s, tab, o, i, name, len, val, d);
  }

  lemma {:induction false} ReadOldPropEval(s: seq<byte>, tab: seq<byte>, o: nat, i: int, name: seq<byte>, len: nat,
    val: seq<byte>, d: nat)
    requires Aligned(o) && o % 4 == 0 && d == DataAt(o, len) && Align4(d + len) <= |s| < 0x8000_0000 &&
             StrAt(tab, i) == Some(name)
    requires Ld32(s, o + 4) == len && Ld32(s, o + 8) == i && s[d..d + len] == val
    ensures ReadOldProp(s, tab, o + 4) == Got(Property(name, val), Align4(d + len))
  {
    assert d + len <= |s| && d <= |s|;
    assert len < 0x8000_0000;
    if len == 0 {
      AlignedConst();
      AlignedAdd(o, 12);
      AlignedAdd(o + 12, 0);
      AlignDef(0);
    }
  }

  lemma {:induction false} OldPropsRead(s: seq<byte>, tab: seq<byte>, out: Out, ps: seq<Property>, path: seq<byte>,
    name: seq<byte>, acc: seq<Property>, ks: seq<Tree>)
    requires Aligned(|out.dt|) && (forall i | 0 <= i < |ps| :: NulFree(ps[i].name)) && Within(s, tab, OldProps(out, ps))
    ensures Within(s, tab, out) && Aligned(|OldProps(out, ps).dt|)
    ensures OldLoop(s, tab, |out.dt|, path, name, acc, ks) ==
            OldLoop(s, tab, |OldProps(out, ps).dt|, path, name, acc + ps, ks)
    decreases |ps|
  {
    if ps == [] {
      assert acc + ps == acc;
    } else {
      var p := ps[0];
      var out1 := OldProp(out, p.name, |p.val|, p.val);
      OldPropAligned(out, p.name, |p.val|, p.val);
      OldPropsRead(s, tab, out1, ps[1..], path, name, acc + [p], ks);
      OldPropRead(s, tab, out, p.name, |p.val|, p.val);
      assert acc + [p] + ps[1..] == acc + ps;
    }
  }

  lemma {:induction false} OldPropAligned(out: Out, name: seq<byte>, len: nat, val: seq<byte>)
    requires |val| == len && Aligned(|out.dt|)
    ensures Aligned(|OldProp(out, name, len, val).dt|)
  {
    OldPropLayout(out, name, len, val);
  }

  /** The name property, emitted if the node has none, is read back. */
  lemma {:induction false} OldNameRead(s: seq<byte>, tab: seq<byte>, out: Out, t: Tree, path: seq<byte>, ks: seq<Tree>)
    requires Aligned(|out.dt|) && Within(s, tab, OldName(out, t)) &&
             (t.name == [] || t.name[0] != AT || HasName(t.props))
    ensures Within(s, tab, out) && Aligned(|OldName(out, t).dt|)
    ensures OldLoop(s, tab, |out.dt|, path, t.name, t.props, ks) ==
            OldLoop(s, tab, |OldName(out, t).dt|, path, t.name, WithName(t), ks)
  {
    if !HasName(t.props) {
      var val := t.name[..BaseLen(t.name)] + [0];
      assert NameBytes(t.name) == val;
      OldPropRead(s, tab, out, NAME, BaseLen(t.name) + 1, val);
    }
  }

  lemma {:induction false} OldBeginRead(s: seq<byte>, tab: seq<byte>, out: Out, path: seq<byte>)
    requires Aligned(|out.dt|) && NulFree(path) && Within(s, tab, OldBegin(out, path))
    ensures Within(s, tab, out) && Aligned(|OldBegin(out, path).dt|)
    ensures ReadWord(s, |out.dt|) == Got(FDT_BEGIN_NODE, |out.dt| + 4)
    ensures ReadString(s, |out.dt| + 4) == Got(path, |OldBegin(out, path).dt|)
  {
    var o := |out.dt|;
    var x := Be32(FDT_BEGIN_NODE) + path + [0];
    var d := out.dt + x;
    AlignDef(|d|);
    AlignedMod(o);
    assert OldBegin(out, path).dt == d + Zeros(Align4(|d|) - |d|);
    BeginsPart(s, d, Zeros(Align4(|d|) - |d|));
    BeginsPart(s, out.dt, x);
    PathRead(s, o, path, x);
  }

  lemma {:induction false} PathRead(s: seq<byte>, o: nat, path: seq<byte>, x: seq<byte>)
    requires x == Be32(FDT_BEGIN_NODE) + path + [0] && o + |x| <= |s| && s[o..o + |x|] == x && NulFree(path)
    ensures Ld32(s, o) == FDT_BEGIN_NODE && NulIndex(s, o + 4) == Some(o + 4 + |path|) &&
            s[o + 4..o + 4 + |path|] == path
  {
    assert x[0..4] == Be32(FDT_BEGIN_NODE) && x[4..4 + |path|] == path && x[4 + |path|] == 0;
    SliceSlice(s, o, o + |x|, 0, 4);
    SliceSlice(s, o, o + |x|, 4, 4 + |path|);
    assert s[o + 4 + |path|] == s[o..o + |x|][4 + |path|];
    LdBe32(s, o, FDT_BEGIN_NODE);
    NulIndexIs(s, o + 4, path);
  }

  lemma {:induction false} OldEndRead(s: seq<byte>, tab: seq<byte>, out: Out)
    requires Aligned(|out.dt|) && Within(s, tab, EmitEnd(out))
    ensures Within(s, tab, out) && ReadWord(s, |out.dt|) == Got(FDT_END_NODE, |out.dt| + 4) && Aligned(|out.dt| + 4)
  {
    BeginsPart(s, out.dt, Be32(FDT_END_NODE));
    LdBe32(s, |out.dt|, FDT_END_NODE);
    AlignedMod(|out.dt|);
    AlignedConst();
    AlignedAdd(|out.dt|, 4);
  }

  // ---- alignment and growth of the emitter ----

  lemma {:induction false} OldPropsAligned(out: Out, ps: seq<Property>)
    requires Aligned(|out.dt|)
    ensures Aligned(|OldProps(out, ps).dt|)
    decreases |ps|
  {
    if ps != [] {
      OldPropAligned(out, ps[0].name, |ps[0].val|, ps[0].val);
      OldPropsAligned(OldProp(out, ps[0].name, |ps[0].val|, ps[0].val), ps[1..]);
    }
  }

  lemma {:induction false} OldNameAligned(out: Out, t: Tree)
    requires Aligned(|out.dt|) && (t.name == [] || t.name[0] != AT || HasName(t.props))
    ensures Aligned(|OldName(out, t).dt|)
  {
    if !HasName(t.props) {
      assert NameBytes(t.name) == t.name[..BaseLen(t.name)] + [0];
      OldPropAligned(out, NAME, BaseLen(t.name) + 1, NameBytes(t.name));
    }
  }

  lemma {:induction false} OldBeginAligned(out: Out, path: seq<byte>)
    ensures Aligned(|OldBegin(out, path).dt|)
  {
    AlignDef(|out.dt + (Be32(FDT_BEGIN_NODE) + path + [0])|);
  }

  lemma {:induction false} FlattenOldAligned(t: Tree, path: seq<byte>, out: Out)
    requires OldSafe(t, path)
    ensures Aligned(|FlattenOld(t, path, out).dt|)
    decreases t, 1
  {
    var out1 := OldBegin(out, path);
    OldBeginAligned(out, path);
    OldPropsAligned(out1, t.props);
    OldNameAligned(OldProps(out1, t.props), t);
    var out3 := OldName(OldProps(out1, t.props), t);
    FlattenOldAllAligned(t.kids, path, out3);
    AlignedConst();
    AlignedAdd(|FlattenOldAll(t.kids, path, out3).dt|, 4);
  }

  lemma {:induction false} FlattenOldAllAligned(ts: seq<Tree>, path: seq<byte>, out: Out)
    requires Aligned(|out.dt|) && AllOldSafe(ts, path)
    ensures Aligned(|FlattenOldAll(ts, path, out).dt|)
    decreases ts, 0
  {
    if ts != [] {
      FlattenOldAligned(ts[0], JoinPath(path, ts[0].name), out);
      FlattenOldAllAligned(ts[1..], path, FlattenOld(ts[0], JoinPath(path, ts[0].name), out));
    }
  }

  // ---- round trip ----

  /** Reading a flattened node gives the node with its "name" properties, and the cursor ends
      exactly behind the emitted bytes. */
  lemma {:induction false} OldRead(s: seq<byte>, tab: seq<byte>, t: Tree, path: seq<byte>, ppath: seq<byte>, out: Out)
    requires Aligned(|out.dt|) && OldSafe(t, path) && NodeName(ppath, path) == Some(t.name) &&
             Within(s, tab, FlattenOld(t, path, out))
    ensures Within(s, tab, out) && ReadWord(s, |out.dt|) == Got(FDT_BEGIN_NODE, |out.dt| + 4)
    ensures UnflattenOld(s, tab, |out.dt| + 4, ppath) == Got(AddNames(t), |FlattenOld(t, path, out).dt|)
    decreases t, 2
  {
    OldBeginAligned(out, path);
    OldInsideRead(s, tab, t, path, OldBegin(out, path));
    OldBeginRead(s, tab, out, path);
  }

  lemma {:induction false} OldInsideRead(s: seq<byte>, tab: seq<byte>, t: Tree, path: seq<byte>, out1: Out)
    requires Aligned(|out1.dt|) && OldSafe(t, path)
    requires Within(s, tab, EmitEnd(FlattenOldAll(t.kids, path, OldName(OldProps(out1, t.props), t))))
    ensures Within(s, tab, out1)
    ensures OldLoop(s, tab, |out1.dt|, path, t.name, [], []) ==
            Got(AddNames(t), |EmitEnd(FlattenOldAll(t.kids, path, OldName(OldProps(out1, t.props), t))).dt|)
    decreases t, 1
  {
    var out2 := OldProps(out1, t.props);
    var out3 := OldName(out2, t);
    OldPropsAligned(out1, t.props);
    OldNameAligned(out2, t);
    FlattenOldAllAligned(t.kids, path, out3);
    OldEndRead(s, tab, FlattenOldAll(t.kids, path, out3));
    OldKidsRead(s, tab, t.kids, path, out3, t.name, WithName(t), []);
    assert [] + AddNamesAll(t.kids) == AddNamesAll(t.kids);
    OldBodyRead(s, tab, t, path, out1, AddNamesAll(t.kids));
  }

  lemma {:induction false} OldBodyRead(s: seq<byte>, tab: seq<byte>, t: Tree, path: seq<byte>, out1: Out, ks: seq<Tree>)
    requires Aligned(|out1.dt|) && OldSafe(t, path)
    requires var out3 := OldName(OldProps(out1, t.props), t);
             var out4 := FlattenOldAll(t.kids, path, out3);
             Within(s, tab, out3) && ReadWord(s, |out4.dt|) == Got(FDT_END_NODE, |out4.dt| + 4) &&
             OldLoop(s, tab, |out3.dt|, path, t.name, WithName(t), []) ==
               OldLoop(s, tab, |out4.dt|, path, t.name, WithName(t), ks)
    ensures Within(s, tab, out1)
    ensures OldLoop(s, tab, |out1.dt|, path, t.name, [], []) ==
            Got(Tree(t.name, WithName(t), ks),
              |FlattenOldAll(t.kids, path, OldName(OldProps(out1, t.props), t)).dt| + 4)
  {
    var out2 := OldProps(out1, t.props);
    OldPropsAligned(out1, t.props);
    OldNameRead(s, tab, out2, t, path, []);
    OldPropsRead(s, tab, out1, t.props, path, t.name, [], []);
    assert [] + t.props == t.props;
  }

  lemma {:induction false} OldKidsRead(s: seq<byte>, tab: seq<byte>, ts: seq<Tree>, path: seq<byte>, out: Out,
    name: seq<byte>, ps: seq<Property>, ks: seq<Tree>)
    requires Aligned(|out.dt|) && AllOldSafe(ts, path) && (ts == [] || Extendable(path)) &&
             Within(s, tab, FlattenOldAll(ts, path, out))
    ensures Within(s, tab, out)
    ensures OldLoop(s, tab, |out.dt|, path, name, ps, ks) ==
            OldLoop(s, tab, |FlattenOldAll(ts, path, out).dt|, path, name, ps, ks + AddNamesAll(ts))
    decreases ts, 0
  {
    if ts == [] {
      assert ks + [] == ks;
    } else {
      var q := JoinPath(path, ts[0].name);
      var out1 := FlattenOld(ts[0], q, out);
      FlattenOldAligned(ts[0], q, out);
      OldKidsRead(s, tab, ts[1..], path, out1, name, ps, ks + [AddNames(ts[0])]);
      NodeNameIs(path, ts[0].name);
      OldRead(s, tab, ts[0], q, path, out);
      assert ks + [AddNames(ts[0])] + AddNamesAll(ts[1..]) == ks + ([AddNames(ts[0])] + AddNamesAll(ts[1..]));
    }
  }

  /** What dt_to_blob writes into the two blocks for versions 1 to 3. */
  ghost function OldBlocks(t: Tree): Out {
    var out := FlattenOld(t, JoinPath([], t.name), Out([], []));
    out.(dt := out.dt + Be32(FDT_END))
  }

  /** Versions 1 to 3: reading the two blocks back gives the same tree with a trailing "name"
      property in every node that had none, whatever follows the blocks. */
  lemma {:induction false} OldRoundTrip(t: Tree, s: seq<byte>, tab: seq<byte>)
    requires t.name == [] && OldSafe(t, [SLASH]) && Within(s, tab, OldBlocks(t))
    ensures |OldBlocks(t).dt| >= 4 && ReadWord(s, 0) == Got(FDT_BEGIN_NODE, 4)
    ensures UnflattenOld(s, tab, 4, []) == Got(AddNames(t), |OldBlocks(t).dt| - 4)
    ensures ReadWord(s, |OldBlocks(t).dt| - 4) == Got(FDT_END, |OldBlocks(t).dt|)
  {
    var out := FlattenOld(t, [SLASH], Out([], []));
    assert JoinPath([], t.name) == [SLASH];
    BeginsPart(s, out.dt, Be32(FDT_END));
    AlignedConst();
    OldRead(s, tab, t, [SLASH], [], Out([], []));
    FlattenOldAligned(t, [SLASH], Out([], []));
    AlignedMod(|out.dt|);
    LdBe32(s, |out.dt|, FDT_END);
  }
}
