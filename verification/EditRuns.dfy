/** Whole editing sessions: any sequence of read-write and write-in-place calls on nodes of
    the blob, failures included, leaves a blob that holds exactly the trees which the
    successful calls describe. */
module EditRuns {
  import opened Bytes
  import opened Syntax
  import opened DeviceTree
  import opened Fdt
  import opened Blob
  import opened Splice
  import opened Edit
  import opened Refine
  import opened EditTheorems
  import opened Wip

  /** One call on the node at a path. */
  datatype Call =
    | CallSetProp(path: seq<nat>, name: seq<byte>, val: seq<byte>)
    | CallDelProp(path: seq<nat>, name: seq<byte>)
    | CallAddSubnode(path: seq<nat>, name: seq<byte>)
    | CallDelNode(path: seq<nat>)
    | CallSetName(path: seq<nat>, name: seq<byte>)
    | CallNopProperty(path: seq<nat>, name: seq<byte>)
    | CallNopNode(path: seq<nat>)

  /** What the C types of the arguments allow: strings end at their NUL, lengths are ints. */
  predicate Legal(k: Call) {
    |k.path| > 0 &&
    match k
    case CallSetProp(_, name, val) => NulFree(name) && |name| < 0x7fff_fff0 && |val| < 0x7fff_fff0
    case CallDelProp(_, name) => |name| < 0x7fff_fff0
    case CallNopProperty(_, name) => |name| < 0x7fff_fff0
    case CallAddSubnode(_, name) => NulFree(name) && |name| < 0x7fff_fff0
    case CallSetName(_, name) => NulFree(name) && |name| < 0x7fff_fff0
    case _ => true
  }

  /** The trees after a successful call. */
  function Update(f: seq<Tree>, k: Call): seq<Tree>
    requires |k.path| > 0 && Get(f, k.path).Some?
  {
    var tree := Get(f, k.path).value;
    match k
    case CallSetProp(p, name, val) => Replace(f, p, [WithProp(tree, name, val)])
    case CallDelProp(p, name) => Replace(f, p, [WithoutProp(tree, name)])
    case CallAddSubnode(p, name) => Replace(f, p, [WithChild(tree, name)])
    case CallDelNode(p) => Replace(f, p, [])
    case CallSetName(p, name) => Replace(f, p, [tree.(name := name)])
    case CallNopProperty(p, name) => Replace(f, p, [WithoutProp(tree, name)])
    case CallNopNode(p) => Replace(f, p, [])
  }

  ghost function PerformAt(b: seq<byte>, o: int, k: Call): (r: Res)
    requires Editable(b) && o < 0x8000_0000
    ensures |r.blob| == |b|
  {
    match k
    case CallSetProp(_, name, val) => SetProp(b, o, name, val)
    case CallDelProp(_, name) => DelProp(b, o, name)
    case CallAddSubnode(_, name) => AddSubnode(b, o, name)
    case CallDelNode(_) => DelNode(b, o)
    case CallSetName(_, name) => SetName(b, o, name)
    case CallNopProperty(_, name) => NopProperty(b, o, name)
    case CallNopNode(_) => NopNode(b, o)
  }

  /** One call on a blob that holds t; a path that leads nowhere is a failed lookup. */
  ghost function Perform(b: seq<byte>, t: Items, k: Call): (r: Res)
    requires Holds(b, t) && |k.path| > 0
    ensures |r.blob| == |b|
  {
    if !Addresses(b, t, k.path) then Res(NOTFOUND, b)
    else
      Located(b, t, k.path);
      PerformAt(b, NodeOffset(t, k.path), k)
  }

  /** A call updates the trees as described if it succeeds, and leaves them if it fails. */
  lemma {:induction false} PerformRefines(b: seq<byte>, t: Items, k: Call)
    requires Holds(b, t) && Legal(k)
    ensures var r := Perform(b, t, k);
            if r.code >= 0 then
              Get(Trees(b, t), k.path).Some? && Kept(b, r.blob) &&
              exists t' :: Holds(r.blob, t') && Trees(r.blob, t') == Update(Trees(b, t), k)
            else Kept(b, r.blob) && Holds(r.blob, t) && Trees(r.blob, t) == Trees(b, t)
  {
    if Addresses(b, t, k.path) {
      Located(b, t, k.path);
      match k
      case CallSetProp(p, name, val) =>
        SetPropRefines(b, t, p, name, val);
        var r := SetProp(b, NodeOffset(t, p), name, val);
        if r.code < 0 {
          UntouchedHolds(b, r.blob, t);
        } else {
          Updated(b, t, k, [WithProp(Get(Trees(b, t), p).value, name, val)]);
        }
      case CallDelProp(p, name) =>
        DelPropRefines(b, t, p, name);
        Updated(b, t, k, [WithoutProp(Get(Trees(b, t), p).value, name)]);
      case CallAddSubnode(p, name) =>
        AddSubnodeRefines(b, t, p, name);
        Updated(b, t, k, [WithChild(Get(Trees(b, t), p).value, name)]);
      case CallDelNode(p) =>
        DelNodeRefines(b, t, p);
        Updated(b, t, k, []);
      case CallSetName(p, name) =>
        SetNameRefines(b, t, p, name);
        Updated(b, t, k, [Get(Trees(b, t), p).value.(name := name)]);
      case CallNopProperty(p, name) =>
        NopPropertyRefines(b, t, p, name);
        Updated(b, t, k, [WithoutProp(Get(Trees(b, t), p).value, name)]);
      case CallNopNode(p) =>
        NopNodeRefines(b, t, p);
        Updated(b, t, k, []);
    }
  }

  lemma {:induction false} Updated(b: seq<byte>, t: Items, k: Call, ts: seq<Tree>)
    requires Addresses(b, t, k.path) && Update(Trees(b, t), k) == Replace(Trees(b, t), k.path, ts)
    ensures var r := Perform(b, t, k);
            Becomes(b, r.blob, t, k.path, ts) ==>
              Kept(b, r.blob) && exists t' :: Holds(r.blob, t') && Trees(r.blob, t') == Update(Trees(b, t), k)
  {
    var r := Perform(b, t, k);
    if Becomes(b, r.blob, t, k.path, ts) {
      var t' :| BecomesItems(b, r.blob, t, k.path, ts, t');
      assert Holds(r.blob, t') && Trees(r.blob, t') == Update(Trees(b, t), k);
    }
  }

  /** The blob and the expected trees after a session: a successful call updates the trees. */
  ghost predicate Session(b: seq<byte>, f: seq<Tree>, calls: seq<Call>, b': seq<byte>, f': seq<Tree>)
    decreases |calls|
  {
    if calls == [] then b' == b && f' == f
    else
      exists t | Holds(b, t) && |calls[0].path| > 0 ::
        var r := Perform(b, t, calls[0]);
        if r.code >= 0 then Get(f, calls[0].path).Some? && Session(r.blob, Update(f, calls[0]), calls[1..], b', f')
        else Session(r.blob, f, calls[1..], b', f')
  }

  /** Every session ends in a blob that holds exactly the expected trees and still has its
      reservation block, its capacity and its layout. */
  lemma {:induction false} SessionRefines(b: seq<byte>, t: Items, calls: seq<Call>, b': seq<byte>, f': seq<Tree>)
    requires Holds(b, t) && (forall i | 0 <= i < |calls| :: Legal(calls[i])) && Session(b, Trees(b, t), calls, b', f')
    ensures Kept(b, b') && exists t' :: Holds(b', t') && Trees(b', t') == f'
    decreases |calls|
  {
    if calls != [] {
      var k := calls[0];
      var u :| Holds(b, u) && |k.path| > 0 &&
        var r := Perform(b, u, k);
        if r.code >= 0 then Get(Trees(b, t), k.path).Some? &&
          Session(r.blob, Update(Trees(b, t), k), calls[1..], b', f')
        else Session(r.blob, Trees(b, t), calls[1..], b', f');
      HoldsUnique(b, t, u);
      var r := Perform(b, t, k);
      PerformRefines(b, t, k);
      var t1 :| Holds(r.blob, t1) && Trees(r.blob, t1) == if r.code >= 0 then Update(Trees(b, t), k) else Trees(b, t);
      SessionRefines(r.blob, t1, calls[1..], b', f');
    }
  }

  /** Every sequence of calls is a session: no call leaves a blob the next one rejects. */
  lemma {:induction false} SessionExists(b: seq<byte>, t: Items, calls: seq<Call>)
    requires Holds(b, t) && forall i | 0 <= i < |calls| :: Legal(calls[i])
    ensures exists b', f' :: Session(b, Trees(b, t), calls, b', f')
    decreases |calls|
  {
    if calls == [] {
      assert Session(b, Trees(b, t), calls, b, Trees(b, t));
    } else {
      var k := calls[0];
      var r := Perform(b, t, k);
      PerformRefines(b, t, k);
      var t1 :| Holds(r.blob, t1) && Trees(r.blob, t1) == if r.code >= 0 then Update(Trees(b, t), k) else Trees(b, t);
      SessionExists(r.blob, t1, calls[1..]);
      var b', f' :| Session(r.blob, Trees(r.blob, t1), calls[1..], b', f');
      assert Session(b, Trees(b, t), calls, b', f');
    }
  }
}
