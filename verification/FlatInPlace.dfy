/** flattree.c: the emitter that appends to its two buffers and the reader that advances a
    cursor, proved to compute the functions of FlatTree and FlatBlob. */
module FlatInPlace {
  import opened Bytes
  import opened Syntax
  import opened DeviceTree
  import opened Edit
  import opened FlatTree
  import opened FlatBlob
  import opened FlatOld
  import opened FlatVersions

  /** dtbuf and strbuf. */
  class Emitter {
    var dt: seq<byte>
    var strs: seq<byte>

    constructor ()
      ensures Now() == Out([], [])
    {
      dt, strs := [], [];
    }

    ghost function Now(): Out
      reads this
    {
      Out(dt, strs)
    }

    /** stringtable_insert. */
    method InsertString(str: seq<byte>) returns (i: nat)
      modifies this
      ensures (i, strs) == Insert(old(strs), str) && dt == old(dt)
    {
      i := 0;
      while i < |strs|
        invariant i <= |strs| && strs == old(strs) && dt == old(dt) &&
                  FindStringAt(strs, str, 0) == FindStringAt(strs, str, i)
      {
        if StringHere(strs, i, str) {
          return;
        }
        i := i + 1;
      }
      strs := strs + str + [0];
    }

    /** data_append_data and data_append_align. */
    method AppendAligned(x: seq<byte>)
      modifies this
      ensures dt == PadTo4(old(dt) + x) && strs == old(strs)
    {
      dt := dt + x;
      AlignDef(|dt|);
      dt := dt + Zeros(TagAlign(|dt|) - |dt|);
    }

    method Begin(name: seq<byte>)
      modifies this
      ensures Now() == EmitBegin(old(Now()), name)
    {
      BeDef(FDT_BEGIN_NODE);
      assert dt + Be32(FDT_BEGIN_NODE) + (name + [0]) == dt + (Bytes32(FDT_BEGIN_NODE) + (name + [0]));
      AppendAligned(Bytes32(FDT_BEGIN_NODE) + (name + [0]));
    }

    method EmitProperty(p: Property)
      modifies this
      ensures Now() == EmitProp(old(Now()), p)
    {
      var i := InsertString(p.name);
      BeDef(FDT_PROP);
      BeDef(|p.val|);
      BeDef(i);
      var x := Bytes32(FDT_PROP) + Bytes32(|p.val|) + Bytes32(i) + p.val;
      assert dt + Be32(FDT_PROP) + Be32(|p.val|) + Be32(i) + p.val == dt + x;
      AppendAligned(x);
    }

    /** flatten_tree. */
    method FlattenTree(t: Tree)
      modifies this
      ensures Now() == Flatten(t, old(Now()))
      decreases t
    {
      Begin(t.name);
      ghost var out1 := Now();
      var i := 0;
      assert t.props[0..] == t.props;
      while i < |t.props|
        invariant i <= |t.props| && EmitProps(out1, t.props) == EmitProps(Now(), t.props[i..])
      {
        assert t.props[i..][1..] == t.props[i + 1..];
        EmitProperty(t.props[i]);
        i := i + 1;
      }
      ghost var out2 := Now();
      assert out2 == EmitProps(out1, t.props);
      i := 0;
      assert t.kids[0..] == t.kids;
      while i < |t.kids|
        invariant i <= |t.kids| && FlattenAll(t.kids, out2) == FlattenAll(t.kids[i..], Now())
      {
        assert t.kids[i..][1..] == t.kids[i + 1..];
        FlattenTree(t.kids[i]);
        i := i + 1;
      }
      BeDef(FDT_END_NODE);
      dt := dt + Bytes32(FDT_END_NODE);
    }
  }

  /** struct inbuf for the structure block, with the strings block beside it. */
  class Inbuf {
    const s: seq<byte>
    const strs: seq<byte>
    var ptr: nat

    constructor (s: seq<byte>, strs: seq<byte>, ptr: nat)
      ensures this.s == s && this.strs == strs && this.ptr == ptr
    {
      this.s, this.strs, this.ptr := s, strs, ptr;
    }

    /** flat_read_word. */
    method Word() returns (r: Read<int>)
      modifies this
      ensures r == ReadWord(s, old(ptr)) && (r.Got? ==> ptr == r.at)
    {
      if ptr % 4 != 0 {
        return AssertFailed;
      }
      if ptr + 4 > |s| {
        return Died;
      }
      LdDef(s, ptr);
      r := Got(Load(s, ptr), ptr + 4);
      ptr := ptr + 4;
    }

    /** flat_read_string. */
    method Str() returns (r: Read<seq<byte>>)
      modifies this
      ensures r == ReadString(s, old(ptr)) && (r.Got? ==> ptr == r.at)
    {
      if ptr > |s| {
        return Died;
      }
      var z := NulIndex(s, ptr);
      if z.None? {
        return Died;
      }
      AlignDef(z.value + 1);
      if TagAlign(z.value + 1) > |s| {
        return Died;
      }
      r := Got(s[ptr..z.value], TagAlign(z.value + 1));
      ptr := r.at;
    }

    /** flat_read_property. */
    method Prop() returns (r: Read<Property>)
      modifies this
      ensures r == ReadProp(s, strs, old(ptr)) && (r.Got? ==> ptr == r.at)
    {
      var len := Word();
      if !len.Got? {
        return Lost(len);
      }
      var off := Word();
      if !off.Got? {
        return Lost(off);
      }
      StrDef(strs, off.value);
      if off.value > |strs| {
        return Died;
      }
      var z := NulIndex(strs, off.value);
      AlignDef(off.at + len.value);
      if z.None? {
        return Died;
      }
      if len.value >= 0x8000_0000 {
        return Strayed;
      }
      if off.at + len.value > |s| || TagAlign(off.at + len.value) > |s| {
        return Died;
      }
      r := Got(Property(strs[off.value..z.value], s[off.at..off.at + len.value]), if len.value == 0 then off.at
        else TagAlign(off.at + len.value));
      ptr := r.at;
    }

    /** unflatten_tree. */
    method UnflattenTree() returns (r: Read<Tree>)
      modifies this
      ensures r == Unflatten(s, strs, old(ptr)) && (r.Got? ==> ptr == r.at)
      decreases |s| - ptr, 1
    {
      var name := Str();
      if !name.Got? {
        return Died;
      }
      var ps: seq<Property>, ks: seq<Tree> := [], [];
      while true
        invariant old(ptr) < ptr && Unflatten(s, strs, old(ptr)) == UnflattenLoop(s, strs, ptr, name.value, ps, ks)
        decreases |s| - ptr
      {
        var tag := Word();
        if !tag.Got? {
          return Lost(tag);
        }
        if tag.value == FDT_PROP {
          var p := Prop();
          if !p.Got? {
            return Lost(p);
          }
          ps := ps + [p.value];
        } else if tag.value == FDT_BEGIN_NODE {
          r := UnflattenTree();
          if !r.Got? {
            return;
          }
          ks := ks + [r.value];
        } else if tag.value == FDT_END_NODE {
          return Got(Tree(name.value, ps, ks), ptr);
        } else if tag.value != FDT_NOP {
          return Died;
        }
      }
    }

    /** flat_read_property with FTF_VARALIGN. */
    method OldProp() returns (r: Read<Property>)
      modifies this
      ensures r == ReadOldProp(s, strs, old(ptr)) && (r.Got? ==> ptr == r.at)
    {
      var len := Word();
      if !len.Got? {
        return Lost(len);
      }
      var off := Word();
      if !off.Got? {
        return Lost(off);
      }
      StrDef(strs, off.value);
      if off.value > |strs| {
        return Died;
      }
      var z := NulIndex(strs, off.value);
      var d := if len.value >= 8 then Align8(off.at) else off.at;
      if z.None? || (len.value >= 8 && d > |s|) {
        return Died;
      }
      if len.value >= 0x8000_0000 {
        return Strayed;
      }
      AlignDef(d + len.value);
      if d + len.value > |s| || TagAlign(d + len.value) > |s| {
        return Died;
      }
      r := Got(Property(strs[off.value..z.value], s[d..d + len.value]), if len.value == 0 then d
        else TagAlign(d + len.value));
      ptr := r.at;
    }

    /** unflatten_tree with FTF_FULLPATH. */
    method UnflattenOldTree(ppath: seq<byte>) returns (r: Read<Tree>)
      modifies this
      ensures r == UnflattenOld(s, strs, old(ptr), ppath) && (r.Got? ==> ptr == r.at)
      decreases |s| - ptr, 1
    {
      var path := Str();
      if !path.Got? {
        return Died;
      }
      var name := NodeName(ppath, path.value);
      if name.None? {
        return Died;
      }
      var ps: seq<Property>, ks: seq<Tree> := [], [];
      while true
        invariant old(ptr) < ptr
        invariant UnflattenOld(s, strs, old(ptr), ppath) == OldLoop(s, strs, ptr, path.value, name.value, ps, ks)
        decreases |s| - ptr
      {
        var tag := Word();
        if !tag.Got? {
          return Lost(tag);
        }
        if tag.value == FDT_PROP {
          var p := OldProp();
          if !p.Got? {
            return Lost(p);
          }
          ps := ps + [p.value];
        } else if tag.value == FDT_BEGIN_NODE {
          r := UnflattenOldTree(path.value);
          if !r.Got? {
            return;
          }
          ks := ks + [r.value];
        } else if tag.value == FDT_END_NODE {
          return Got(Tree(name.value, ps, ks), ptr);
        } else if tag.value != FDT_NOP {
          return Died;
        }
      }
    }

    /** From the first word to FDT_END, as dt_from_blob calls it. */
    method LoadTree(version: int) returns (r: Read<Tree>)
      requires ptr == 0
      modifies this
      ensures r == ReadTree(s, strs, version)
    {
      var tag := Word();
      if !tag.Got? {
        return Lost(tag);
      }
      if tag.value != FDT_BEGIN_NODE {
        return Died;
      }
      if version < 16 {
        r := UnflattenOldTree([]);
      } else {
        r := UnflattenTree();
      }
      if !r.Got? {
        return;
      }
      var end := Word();
      if !end.Got? {
        return Lost(end);
      }
      if end.value != FDT_END {
        return Died;
      }
    }
  }

  /** The loop of flat_read_mem_reserve. */
  method ReserveList(s: seq<byte>) returns (r: Option<seq<Reserve>>)
    ensures r == ReadReserves(s, 0)
  {
    var o, rs: seq<Reserve> := 0, [];
    BeforeNone(ReadReserves(s, 0));
    while o + 16 <= |s|
      invariant ReadReserves(s, 0) == Before(rs, ReadReserves(s, o))
      decreases |s| - o
    {
      LdDef(s, o);
      LdDef(s, o + 4);
      LdDef(s, o + 8);
      LdDef(s, o + 12);
      var addr := Load(s, o) * 0x1_0000_0000 + Load(s, o + 4);
      var size := Load(s, o + 8) * 0x1_0000_0000 + Load(s, o + 12);
      if size == 0 {
        assert rs + [] == rs;
        return Some(rs);
      }
      BeforeStep(rs, Reserve(addr, size), ReadReserves(s, o + 16));
      rs := rs + [Reserve(addr, size)];
      o := o + 16;
    }
    return None;
  }

  function Before(rs: seq<Reserve>, r: Option<seq<Reserve>>): Option<seq<Reserve>> {
    if r.None? then None else Some(rs + r.value)
  }

  lemma {:induction false} BeforeNone(r: Option<seq<Reserve>>)
    ensures Before([], r) == r
  {
    if r.Some? {
      assert [] + r.value == r.value;
    }
  }

  lemma {:induction false} BeforeStep(rs: seq<Reserve>, x: Reserve, r: Option<seq<Reserve>>)
    ensures Before(rs, Before([x], r)) == Before(rs + [x], r)
  {
    if r.Some? {
      assert rs + ([x] + r.value) == rs + [x] + r.value;
    }
  }
}
