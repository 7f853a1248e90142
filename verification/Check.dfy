/** fdt_check.c: fdt_check_full accepts exactly the blobs that decode, as long as no stored
    property length makes the 32-bit sum of fdt_next_tag wrap. */
module Check {
  import opened Bytes
  import opened Syntax
  import opened DeviceTree
  import opened Fdt
  import opened Walk
  import opened Blob
  import opened Lookup
  import opened SeqFinish
  import opened Pack

  /** What fdt_check_header has established for a version 17 blob. */
  ghost predicate Checked(b: seq<byte>) {
    Buf(b) && Version(b) == 17 && Magic(b) == FDT_MAGIC && LastComp(b) <= 17 && 40 <= TotalSize(b) <= 0x7fff_ffff &&
    40 <= OffStruct(b) && OffStruct(b) + SizeStruct(b) <= TotalSize(b) && 40 <= OffStrings(b) &&
      OffStrings(b) + SizeStrings(b) <= TotalSize(b) &&
    40 <= OffRsv(b) <= TotalSize(b)
  }

  /** The bounds tests of fdt_check_header are exact. */
  lemma {:induction false} CheckHeaderMeans(b: seq<byte>)
    requires Buf(b) && Version(b) == 17
    ensures CheckHeader(b) == 0 <==> Checked(b)
  {
    U32Small(OffStruct(b) + SizeStruct(b));
    U32Small(OffStrings(b) + SizeStrings(b));
  }

  /** Whether fdt_getprop_by_offset finds the property's name. */
  ghost predicate PropNamed(b: seq<byte>, off: int)
    requires Buf(b) && 0 <= off
  {
    PropFits(b, off) && GetString(b, I32(Ld32(b, OffStruct(b) + off + 8))).Some?
  }

  /** The loop of fdt_check_full.  Failures to find a name, whose codes differ, are INTERNAL. */
  ghost function CheckLoop(b: seq<byte>, off: int, depth: nat, expectEnd: bool): int
    requires Buf(b) && 0 <= off < 0x8000_0000
    decreases 0x8000_0000 - off
  {
    NextTagBound(b, off);
    var (tag, next) := NextTag(b, off);
    if next < 0 then next
    else if expectEnd && tag != FDT_END then BADSTRUCTURE
    else if tag == FDT_END then (if depth != 0 then BADSTRUCTURE else 0)
    else if tag == FDT_BEGIN_NODE && depth + 1 > 0x7fff_ffff then BADSTRUCTURE
    else if tag == FDT_BEGIN_NODE && depth == 0 && GetName(b, off) != Some([]) then BADSTRUCTURE
    else if tag == FDT_END_NODE && depth == 0 then BADSTRUCTURE
    else if tag == FDT_PROP && !PropNamed(b, off) then INTERNAL
    else if next <= off then DIVERGES
    else if tag == FDT_BEGIN_NODE then CheckLoop(b, next, depth + 1, expectEnd)
    else if tag == FDT_END_NODE then CheckLoop(b, next, depth - 1, expectEnd || depth == 1)
    else CheckLoop(b, next, depth, expectEnd)
  }

  /** fdt_check_full for version 17, in a buffer that is large enough for totalsize. */
  ghost function CheckFull(b: seq<byte>): int
    requires Buf(b) && Version(b) == 17
  {
    if CheckHeader(b) != 0 then CheckHeader(b)
    else
      CheckHeaderMeans(b);
      if NumRsvFrom(b, 0) < 0 then NumRsvFrom(b, 0) else CheckLoop(b, 0, 0, false)
  }

  // ---- the tag reader finds tokens ----

  /** No property that the walk from off on meets has a length that wraps. */
  ghost predicate WrapFree(b: seq<byte>, off: int)
    requires Buf(b) && off < 0x8000_0000
    decreases 0x8000_0000 - off
  {
    NextTagBound(b, off);
    var (tag, next) := NextTag(b, off);
    (tag == FDT_PROP && 0 <= off && OffStruct(b) + off + 8 <= |b| ==> Ld32(b, OffStruct(b) + off + 4) < 0xffff_fff4) &&
    (tag == FDT_END || next <= off || WrapFree(b, next))
  }

  lemma {:induction false} ScanFinds(b: seq<byte>, o: int, off: int)
    requires Framed(b) && 0 <= o <= off < 0x8000_0000 && ScanName(b, off).Some?
    ensures var e := ScanName(b, off).value;
              off < e <= SizeStruct(b) && Struct(b)[e - 1] == 0 &&
              forall i | off <= i < e - 1 :: Struct(b)[i] != 0
    decreases |b| - off
  {
    OffsetPtrMeans(b, off, 1);
    StructDef(b);
    assert b[OffStruct(b) + off] == Struct(b)[off];
    if b[OffStruct(b) + off] != 0 {
      ScanFinds(b, o, off + 1);
    }
  }

  /** Whatever fdt_next_tag accepts, and whose alignment bytes are in the block, is a token. */
  lemma {:induction false} NextTagIsTok(b: seq<byte>, o: int)
    requires Framed(b) && Aligned(o) && 0 <= o < 0x8000_0000 && 0 <= NextTag(b, o).1 <= SizeStruct(b)
    requires NextTag(b, o).0 == FDT_PROP && OffStruct(b) + o + 8 <= |b| ==> Ld32(b, OffStruct(b) + o + 4) < 0xffff_fff4
    ensures var k := TokAt(Struct(b), o); !k.Bad? && NextTag(b, o) == (TagOf(k), o + TokSize(k))
  {
    var (tag, next) := NextTag(b, o);
    NextTagDef(b, o);
    OffsetPtrMeans(b, o, 4);
    LdStruct(b, o);
    if tag == FDT_BEGIN_NODE {
      OpenFound(b, o);
    } else if tag == FDT_PROP {
      PropFound(b, o);
    } else {
      var k := if tag == FDT_END then End else if tag == FDT_END_NODE then Close else Nop;
      TokIs(Struct(b), o, k);
    }
    NextTagTok(b, o);
  }

  lemma {:induction false} OpenFound(b: seq<byte>, o: int)
    requires Framed(b) && Aligned(o) && 0 <= o && o + 4 <= SizeStruct(b) && Ld32(Struct(b), o) == FDT_BEGIN_NODE
    requires o + 4 < 0x8000_0000 && ScanName(b, o + 4).Some? && Align4(ScanName(b, o + 4).value) <= SizeStruct(b)
    ensures TokAt(Struct(b), o).Open?
  {
    var s, e := Struct(b), ScanName(b, o + 4).value;
    ScanFinds(b, o + 4, o + 4);
    var name := s[o + 4..e - 1];
    assert forall i | 0 <= i < |name| :: name[i] == s[o + 4 + i];
    AlignedConst();
    AlignedAdd(o, 4);
    AlignedAdd(o + 4, |name| + 1);
    TokIs(s, o, Open(name));
  }

  lemma {:induction false} PropFound(b: seq<byte>, o: int)
    requires Framed(b) && Aligned(o) && 0 <= o && o + 4 <= SizeStruct(b) && Ld32(Struct(b), o) == FDT_PROP &&
             OffsetPtr(b, o + 4, 4)
    requires Ld32(b, OffStruct(b) + o + 4) < 0xffff_fff4
    requires var r := TagEnd(b, o, FDT_PROP,
             PropEnd(Version(b), o, Ld32(b, OffStruct(b) + o + 4))); 0 <= r.1 <= SizeStruct(b)
    ensures TokAt(Struct(b), o).Prop?
  {
    var s, len := Struct(b), Ld32(b, OffStruct(b) + o + 4);
    OffsetPtrMeans(b, o + 4, 4);
    LdStruct(b, o + 4);
    var off := PropEnd(Version(b), o, len);
    U32Small(o + 12 + len);
    U32Small(off - o);
    U32Small(12 + len);
    OffsetPtrMeans(b, o, U32(off - o));
    AlignedConst();
    AlignedAdd(o, 12);
    AlignedAdd(o + 12, len);
    LdStruct(b, o + 8);
    TokIs(s, o, Prop(Ld32(s, o + 8), s[o + 12..o + 12 + len]));
  }

  // ---- accepted blobs decode ----

  /** The strings block. */
  ghost function Tab(b: seq<byte>): seq<byte>
    requires Checked(b)
  {
    b[OffStrings(b)..OffStrings(b) + SizeStrings(b)]
  }

  lemma {:induction false} GetStringTab(b: seq<byte>, off: int)
    requires Checked(b) && 0 <= off < 0x1_0000_0000
    ensures GetString(b, I32(off)) == StrAt(Tab(b), off)
  {
    GetStringDef(b, I32(off));
    StrDef(Tab(b), off);
    U32Small(off);
    if off < SizeStrings(b) {
      U32Small(off + OffStrings(b));
      SliceSlice(b, OffStrings(b), OffStrings(b) + SizeStrings(b), off, SizeStrings(b));
      StrTail(Tab(b), off);
    } else {
      StrBeyond(Tab(b), off);
    }
  }

  lemma {:induction false} PropNamedIs(b: seq<byte>, o: int, k: Tok)
    requires Checked(b) && Aligned(o) && TokAt(Struct(b), o) == k && k.Prop?
    ensures 0 <= o && (PropNamed(b, o) <==> StrAt(Tab(b), k.nameoff).Some?)
  {
    TokIs(Struct(b), o, k);
    LdStruct(b, o + 8);
    GetStringTab(b, k.nameoff);
  }

  /** One step of the loop on a token that is not the last. */
  lemma {:induction false} LoopStep(b: seq<byte>, o: int, depth: nat, e: bool)
    requires Checked(b) && Aligned(o) && 0 <= o < 0x8000_0000 && WrapFree(b, o) && CheckLoop(b, o, depth, e) == 0 &&
             NextTag(b, o).0 != FDT_END
    ensures var k := TokAt(Struct(b), o);
            !k.Bad? && !k.End? && NextTag(b, o) == (TagOf(k), o + TokSize(k)) &&
              o + TokSize(k) + 4 <= SizeStruct(b) && Aligned(o + TokSize(k)) &&
            WrapFree(b, o + TokSize(k)) && !e && (k.Prop? ==> StrAt(Tab(b), k.nameoff).Some?) &&
            (k.Open? ==>
               (depth == 0 ==> GetName(b, o) == Some([])) &&
               CheckLoop(b, o + TokSize(k), depth + 1, false) == 0) &&
            (k.Close? ==> depth > 0 && CheckLoop(b, o + TokSize(k), depth - 1, depth == 1) == 0) &&
            (IsLeaf(k) ==> CheckLoop(b, o + TokSize(k), depth, false) == 0)
  {
    NextTagBound(b, o);
    var (tag, next) := NextTag(b, o);
    NextTagAdvances(b, o);
    NextTagBound(b, next);
    NextTagDef(b, next);
    OffsetPtrMeans(b, next, 4);
    NextTagIsTok(b, o);
    var k := TokAt(Struct(b), o);
    TokSizeAligned(k);
    AlignedAdd(o, TokSize(k));
    if k.Prop? {
      PropNamedIs(b, o, k);
    }
  }

  lemma {:induction false} LoopEnd(b: seq<byte>, o: int, depth: nat, e: bool)
    requires Checked(b) && Aligned(o) && 0 <= o < 0x8000_0000 && CheckLoop(b, o, depth, e) == 0 &&
             NextTag(b, o).0 == FDT_END
    ensures depth == 0 && TokAt(Struct(b), o) == End && o + 4 <= SizeStruct(b)
  {
    NextTagBound(b, o);
    NextTagDef(b, o);
    OffsetPtrMeans(b, o, 4);
    U32Small(4);
    AlignDef(o + 4);
    TokEnd(b, o);
  }

  lemma {:induction false} TokEnd(b: seq<byte>, o: int)
    requires Framed(b) && Aligned(o) && 0 <= o < 0x8000_0000 && NextTagBody(b, o).0 == FDT_END &&
             NextTagBody(b, o).1 >= 0
    ensures TokAt(Struct(b), o) == End && o + 4 <= SizeStruct(b)
  {
    OffsetPtrMeans(b, o, 4);
    LdStruct(b, o);
    TokIs(Struct(b), o, End);
  }

  /** Inside a node an accepted walk reads items, their FDT_END_NODE, and is accepted behind it. */
  lemma {:induction false} BodyParses(b: seq<byte>, o: int, depth: nat)
    requires Checked(b) && Aligned(o) && 0 <= o < 0x8000_0000 && WrapFree(b, o) && depth > 0 &&
             CheckLoop(b, o, depth, false) == 0
    ensures exists t :: Parsed(b, o, depth, t)
    decreases 0x8000_0000 - o
  {
    if NextTag(b, o).0 == FDT_END {
      LoopEnd(b, o, depth, false);
    }
    LoopStep(b, o, depth, false);
    var k := TokAt(Struct(b), o);
    if k.Close? {
      ParsedNil(b, o, depth);
    } else if k.Open? {
      BodyParses(b, o + TokSize(k), depth + 1);
      var body :| Parsed(b, o + TokSize(k), depth + 1, body);
      ParsedBounds(b, o + TokSize(k), depth + 1, body);
      BodyParses(b, o + NodeSize(k.name, body), depth);
      var next :| Parsed(b, o + NodeSize(k.name, body), depth, next);
      ParsedNode(b, o, depth, k.name, body, next);
    } else {
      BodyParses(b, o + TokSize(k), depth);
      var next :| Parsed(b, o + TokSize(k), depth, next);
      ParsedLeaf(b, o, depth, k, next);
    }
  }

  /** The items t of a node at the given depth lie at o, and the walk is accepted behind them. */
  ghost predicate Parsed(b: seq<byte>, o: int, depth: nat, t: Items) {
    Checked(b) && depth > 0 && 0 <= o && Lies(Struct(b), o, t) && TokAt(Struct(b), o + Size(t)) == Close &&
      Named(t, Tab(b)) && 
    o + Size(t) + 8 <= SizeStruct(b) && Aligned(o + Size(t) + 4) && WrapFree(b, o + Size(t) + 4) &&
      CheckLoop(b, o + Size(t) + 4, depth - 1, depth == 1) == 0
  }

  lemma {:induction false} ParsedBounds(b: seq<byte>, o: int, depth: nat, t: Items)
    requires Parsed(b, o, depth, t)
    ensures o < o + Size(t) + 4 < 0x8000_0000
  {
  }

  lemma {:induction false} ParsedNil(b: seq<byte>, o: int, depth: nat)
    requires Checked(b) && 0 <= o && TokAt(Struct(b), o) == Close && depth > 0 && o + 8 <= SizeStruct(b) &&
             Aligned(o + 4)
    requires WrapFree(b, o + 4) && CheckLoop(b, o + 4, depth - 1, depth == 1) == 0
    ensures Parsed(b, o, depth, Nil)
  {
    SizeDef(Nil);
    LiesNil(Struct(b), o);
  }

  lemma {:induction false} ParsedLeaf(b: seq<byte>, o: int, depth: nat, k: Tok, next: Items)
    requires Checked(b) && 0 <= o && TokAt(Struct(b), o) == k && IsLeaf(k) &&
             (k.Prop? ==> StrAt(Tab(b), k.nameoff).Some?)
    requires Parsed(b, o + TokSize(k), depth, next)
    ensures Parsed(b, o, depth, Leaf(k, next))
  {
    SizeDef(Leaf(k, next));
    LiesLeaf(Struct(b), o, k, next);
  }

  lemma {:induction false} ParsedNode(b: seq<byte>, o: int, depth: nat, name: seq<byte>, body: Items, next: Items)
    requires Checked(b) && 0 <= o && TokAt(Struct(b), o) == Open(name) &&
             Parsed(b, o + OpenSize(|name|), depth + 1, body)
    requires Parsed(b, o + NodeSize(name, body), depth, next)
    ensures Parsed(b, o, depth, Node(name, body, next))
  {
    SizeDef(Node(name, body, next));
    LiesNode(Struct(b), o, name, body, next);
  }

  /** At the top level: NOPs and properties, then at most one node, which has an empty name
      and is followed directly by FDT_END. */
  predicate TopOk(t: Items) {
    match t
    case Nil => true
    case Leaf(_, next) => TopOk(next)
    case Node(name, _, next) => name == [] && next == Nil
  }

  ghost predicate Decodes(b: seq<byte>, o: int, t: Items) {
    Checked(b) && Lies(Struct(b), o, t) && TokAt(Struct(b), o + Size(t)) == End && Named(t, Tab(b)) && TopOk(t)
  }

  lemma {:induction false} TopParses(b: seq<byte>, o: int)
    requires Checked(b) && Aligned(o) && 0 <= o < 0x8000_0000 && WrapFree(b, o) && CheckLoop(b, o, 0, false) == 0
    ensures exists t :: Decodes(b, o, t)
    decreases 0x8000_0000 - o
  {
    if NextTag(b, o).0 == FDT_END {
      LoopEnd(b, o, 0, false);
      SizeDef(Nil);
      LiesNil(Struct(b), o);
      assert Decodes(b, o, Nil);
    } else {
      LoopStep(b, o, 0, false);
      var k := TokAt(Struct(b), o);
      if k.Open? {
        BodyParses(b, o + TokSize(k), 1);
        var body :| Parsed(b, o + TokSize(k), 1, body);
        RootParsed(b, o, k.name, body);
      } else {
        TopParses(b, o + TokSize(k));
        var next :| Decodes(b, o + TokSize(k), next);
        SizeDef(Leaf(k, next));
        LiesLeaf(Struct(b), o, k, next);
        assert Decodes(b, o, Leaf(k, next));
      }
    }
  }

  lemma {:induction false} RootParsed(b: seq<byte>, o: int, name: seq<byte>, body: Items)
    requires Checked(b) && Aligned(o) && 0 <= o < 0x8000_0000 && TokAt(Struct(b), o) == Open(name) &&
             GetName(b, o) == Some([])
    requires Parsed(b, o + OpenSize(|name|), 1, body)
    ensures Decodes(b, o, Node(name, body, Nil))
  {
    var e := o + NodeSize(name, body);
    NextTagBound(b, e);
    assert NextTag(b, e).0 == FDT_END;
    LoopEnd(b, e, 0, true);
    RootName(b, o, name);
    SizeDef(Node(name, body, Nil));
    SizeDef(Nil);
    LiesNil(Struct(b), e);
    LiesNode(Struct(b), o, name, body, Nil);
  }

  lemma {:induction false} RootName(b: seq<byte>, o: int, name: seq<byte>)
    requires Checked(b) && Aligned(o) && 0 <= o < 0x8000_0000 && TokAt(Struct(b), o) == Open(name)
    ensures GetName(b, o) == Some(name)
  {
    GetNameIs(b, o, name);
  }

  // ---- blobs that decode are accepted ----

  lemma {:induction false} BodyAccepted(b: seq<byte>, o: int, t: Items, depth: nat)
    requires Checked(b) && Aligned(o) && 0 <= o && Lies(Struct(b), o, t) && Named(t, Tab(b)) && 0 < depth &&
             depth + Size(t) <= 0x7fff_ffff
    requires TokAt(Struct(b), o + Size(t)) == Close
    ensures o < 0x8000_0000 && o + Size(t) < 0x8000_0000
    ensures CheckLoop(b, o, depth, false) == CheckLoop(b, o + Size(t), depth, false)
    decreases t, 0
  {
    SizeDef(t);
    match t
    case Nil => TokFits(Struct(b), o);
    case Leaf(tok, next) =>
      LiesLeaf(Struct(b), o, tok, next);
      OnStep(b, o, tok);
      if tok.Prop? {
        PropNamedIs(b, o, tok);
      }
      BodyAccepted(b, o + TokSize(tok), next, depth);
    case Node(name, body, next) =>
      LiesNode(Struct(b), o, name, body, next);
      NodeAccepted(b, o, name, body, depth);
      BodyAccepted(b, o + NodeSize(name, body), next, depth);
  }

  lemma {:induction false} NodeAccepted(b: seq<byte>, o: int, name: seq<byte>, body: Items, depth: nat)
    requires Checked(b) && Aligned(o) && NodeLies(Struct(b), o, name, body) && Named(body, Tab(b)) &&
             depth + 1 + Size(body) <= 0x7fff_ffff
    requires depth == 0 ==> name == []
    ensures 0 <= o && o + NodeSize(name, body) < 0x8000_0000 && Aligned(o + NodeSize(name, body))
    ensures CheckLoop(b, o, depth, false) == CheckLoop(b, o + NodeSize(name, body), depth, depth == 0)
    decreases body, 1
  {
    var m, e := NodeTags(b, o, name, body);
    OnStep(b, o, Open(name));
    RootName(b, o, name);
    BodyAccepted(b, m, body, depth + 1);
    OnStep(b, e, Close);
  }

  lemma {:induction false} TopAccepted(b: seq<byte>, o: int, t: Items)
    requires Decodes(b, o, t) && Aligned(o) && 0 <= o
    ensures o < 0x8000_0000 && CheckLoop(b, o, 0, false) == 0
    decreases t
  {
    SizeDef(t);
    match t
    case Nil => OnStep(b, o, End);
    case Leaf(tok, next) =>
      LiesLeaf(Struct(b), o, tok, next);
      OnStep(b, o, tok);
      if tok.Prop? {
        PropNamedIs(b, o, tok);
      }
      TopAccepted(b, o + TokSize(tok), next);
    case Node(name, body, next) =>
      LiesNode(Struct(b), o, name, body, next);
      SizeDef(Nil);
      TokFits(Struct(b), o + Size(t));
      NodeAccepted(b, o, name, body, 0);
      OnStep(b, o + NodeSize(name, body), End);
  }

  /** An accepted blob with its blocks in order, nothing behind FDT_END in the structure block
      and properties before subnodes is one that every other result here applies to. */
  lemma {:induction false} AcceptedHolds(b: seq<byte>, t: Items)
    requires Decodes(b, 0, t) && Sane(b) && Ordered(t) && SizeStruct(b) == Size(t) + 4
    ensures Holds(b, t)
  {
    HoldsDef(b, t);
    ProperDef(t, Strings(b));
    StringsDef(b);
  }

  /** fdt_check_full returns 0 iff the header is in bounds, the reservation map is terminated
      and the structure block decodes to at most one tree, with an empty root name, every
      property name in the strings block and FDT_END directly behind the root. */
  lemma {:induction false} CheckFullExact(b: seq<byte>)
    requires Buf(b) && Version(b) == 17 && WrapFree(b, 0)
    ensures CheckFull(b) == 0 <==> Checked(b) && NumRsvFrom(b, 0) >= 0 && exists t :: Decodes(b, 0, t)
  {
    CheckHeaderMeans(b);
    AlignedConst();
    if CheckFull(b) == 0 {
      TopParses(b, 0);
    }
    if Checked(b) && NumRsvFrom(b, 0) >= 0 {
      if t :| Decodes(b, 0, t) {
        TopAccepted(b, 0, t);
      }
    }
  }
}
