/** A complete version 17 blob: its three blocks, the probes that guard them, and
    what it means for a blob to hold a device tree. */
module Blob {
  import opened Bytes
  import opened Syntax
  import opened DeviceTree
  import opened Fdt

  /** Memory reservation, structure and strings block in this order, inside totalsize. */
  ghost predicate Sane(b: seq<byte>) {
    Buf(b) && Magic(b) == FDT_MAGIC && Version(b) == 17 && LastComp(b) <= 17 &&
    40 <= OffRsv(b) && OffRsv(b) + 16 <= OffStruct(b) && OffStruct(b) + SizeStruct(b) <= OffStrings(b) &&
    DataSize(b) <= TotalSize(b)
  }

  /** fdt_data_size_. */
  ghost function DataSize(b: seq<byte>): int
    requires |b| >= 40
  {
    OffStrings(b) + SizeStrings(b)
  }

  ghost predicate IsStrings(b: seq<byte>, r: seq<byte>)
    requires Sane(b)
  {
    |r| == SizeStrings(b) && forall z :: Unseal(z) ==> r == b[OffStrings(b)..DataSize(b)]
  }

  /** The strings block; sealed. */
  ghost function Strings(b: seq<byte>): (r: seq<byte>)
    requires Sane(b)
    ensures |r| == SizeStrings(b)
  {
    assert IsStrings(b, b[OffStrings(b)..DataSize(b)]);
    var r :| IsStrings(b, r);
    r
  }

  lemma {:induction false} StringsDef(b: seq<byte>)
    requires Sane(b)
    ensures Strings(b) == b[OffStrings(b)..DataSize(b)]
  {
    assert Unseal(0);
  }

  ghost predicate IsRsv(b: seq<byte>, r: seq<byte>)
    requires Sane(b)
  {
    forall z :: Unseal(z) ==> r == b[OffRsv(b)..OffStruct(b)]
  }

  /** The memory reservation block, up to the structure block; sealed. */
  ghost function Rsv(b: seq<byte>): seq<byte>
    requires Sane(b)
  {
    assert IsRsv(b, b[OffRsv(b)..OffStruct(b)]);
    var r :| IsRsv(b, r);
    r
  }

  lemma {:induction false} RsvDef(b: seq<byte>)
    requires Sane(b)
    ensures Rsv(b) == b[OffRsv(b)..OffStruct(b)]
  {
    assert Unseal(0);
  }

  ghost predicate HoldsBody(b: seq<byte>, t: Items) {
    Sane(b) && Lies(Struct(b), 0, t) && TokAt(Struct(b), Size(t)) == End && Size(t) + 4 == SizeStruct(b) &&
    Proper(t, Strings(b))
  }

  ghost predicate IsHolds(b: seq<byte>, t: Items, r: bool) {
    (r ==> Sane(b)) && forall z :: Unseal(z) ==> r == HoldsBody(b, t)
  }

  /** The structure block of b consists of the items t and a final FDT_END, every property
      name is in the strings block and properties precede subnodes; sealed. */
  ghost predicate Holds(b: seq<byte>, t: Items)
    ensures Holds(b, t) ==> Sane(b)
  {
    assert IsHolds(b, t, HoldsBody(b, t));
    var r :| IsHolds(b, t, r);
    r
  }

  lemma {:induction false} HoldsDef(b: seq<byte>, t: Items)
    ensures Holds(b, t) == HoldsBody(b, t)
  {
    assert Unseal(0);
  }

  /** The trees that b holds. */
  ghost function Trees(b: seq<byte>, t: Items): seq<Tree>
    requires Sane(b)
  {
    Forest(t, Strings(b))
  }

  /** A blob holds at most one item list, so `Trees` depends on the blob alone. */
  lemma {:induction false} HoldsUnique(b: seq<byte>, t: Items, u: Items)
    requires Holds(b, t) && Holds(b, u)
    ensures t == u
  {
    HoldsDef(b, t);
    HoldsDef(b, u);
    LiesUnique(Struct(b), 0, t, u);
  }

  // ---- probes ----

  /** fdt_ro_probe_, without the test on the address of the buffer. */
  ghost function RoProbe(b: seq<byte>): int
    requires |b| >= 40
  {
    if Magic(b) == FDT_MAGIC then
      if Version(b) < 2 || LastComp(b) > 17 then BADVERSION else ProbedSize(b)
    else if Magic(b) == FDT_SW_MAGIC then
      if SizeStruct(b) == 0 then BADSTATE else ProbedSize(b)
    else BADMAGIC
  }

  ghost function ProbedSize(b: seq<byte>): int
    requires |b| >= 40
  {
    if TotalSize(b) < 0x7fff_ffff then TotalSize(b) else TRUNCATED
  }

  /** fdt_blocks_misordered_. */
  ghost predicate Misordered(b: seq<byte>, rsvSize: int, structSize: int)
    requires |b| >= 40
  {
    OffRsv(b) < 40 || OffStruct(b) < U32(OffRsv(b) + rsvSize) || OffStrings(b) < U32(OffStruct(b) + structSize) ||
    TotalSize(b) < U32(OffStrings(b) + SizeStrings(b))
  }

  ghost function RwProbeBody(b: seq<byte>): int
    requires |b| >= 40 && Version(b) <= 17
  {
    if RoProbe(b) < 0 then RoProbe(b)
    else if Version(b) < 17 then BADVERSION
    else if Misordered(b, 16, SizeStruct(b)) then BADLAYOUT
    else 0
  }

  ghost predicate IsRwProbe(b: seq<byte>, r: int)
    requires |b| >= 40 && Version(b) <= 17
  {
    forall z :: Unseal(z) ==> r == RwProbeBody(b)
  }

  /** fdt_rw_probe_; a version above 17, which it lowers to 17, is not modelled; sealed. */
  ghost function RwProbe(b: seq<byte>): int
    requires |b| >= 40 && Version(b) <= 17
  {
    assert IsRwProbe(b, RwProbeBody(b));
    var r :| IsRwProbe(b, r);
    r
  }

  lemma {:induction false} RwProbeDef(b: seq<byte>)
    requires |b| >= 40 && Version(b) <= 17
    ensures RwProbe(b) == RwProbeBody(b)
  {
    assert Unseal(0);
  }

  /** A buffer with a finished version 17 blob passes the read-write probe iff it is
      sane, provided the 32-bit sums of the ordering test do not wrap. */
  lemma {:induction false} RwProbeSane(b: seq<byte>)
    requires Buf(b) && Version(b) <= 17
    requires Magic(b) == FDT_MAGIC && OffRsv(b) + 16 < 0x1_0000_0000 &&
             OffStruct(b) + SizeStruct(b) < 0x1_0000_0000 && DataSize(b) < 0x1_0000_0000
    ensures RwProbe(b) == 0 <==> Sane(b)
  {
    RwProbeDef(b);
    U32Small(OffRsv(b) + 16);
    U32Small(OffStruct(b) + SizeStruct(b));
    U32Small(DataSize(b));
  }
}
