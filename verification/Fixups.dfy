/** livetree.c and fdt_overlay.c: the list of cells that a __fixups__ property carries, as the
    compiler writes it and as the overlay code reads it. */
module Fixups {
  import opened Bytes

  const COLON: byte := 58
  const PLUS: byte := 43
  const MINUS: byte := 45

  /** 2^64 */
  const ULONG: int := 0x1_0000_0000_0000_0000

  /** A cell to be patched: node path, property name and offset in the value. */
  datatype Entry = Entry(path: seq<byte>, name: seq<byte>, off: nat)

  // ---- add_fixup_entry ----

  /** The digits that %u prints. */
  function Decimal(n: nat): (s: seq<byte>)
    ensures s != []
  {
    if n < 10 then [48 + n] else Decimal(n / 10) + [48 + n % 10]
  }

  function EntryText(e: Entry): seq<byte> { e.path + [COLON] + e.name + [COLON] + Decimal(e.off) }

  /** The property value: all entries, each with its NUL, appended in turn. */
  function Emit(es: seq<Entry>): seq<byte> {
    if es == [] then [] else EntryText(es[0]) + [0] + Emit(es[1..])
  }

  // ---- overlay_fixup_phandle ----

  /** memchr: index of the first c. */
  function Find(s: seq<byte>, c: byte): (r: Option<nat>)
    ensures r.Some? ==> r.value < |s| && s[r.value] == c && c !in s[..r.value]
    ensures r.None? ==> c !in s
  {
    if s == [] then None
    else if s[0] == c then Some(0)
    else
      var r := Find(s[1..], c);
      if r.None? then None
      else
        assert s[..r.value + 1] == [s[0]] + s[1..][..r.value];
        Some(r.value + 1)
  }

  /** The number that the digits write; None if there are none, or anything else is there. */
  function ParseDecimal(s: seq<byte>): Option<nat> {
    if s == [] then None
    else
      var c := s[|s| - 1];
      if !(48 <= c <= 57) then None
      else if |s| == 1 then Some(c - 48)
      else
        var r := ParseDecimal(s[..|s| - 1]);
        if r.None? then None else Some(10 * r.value + c - 48)
  }

  /** isspace in the C locale. */
  predicate Space(c: byte) { c == 32 || 9 <= c <= 13 }

  function SkipSpaces(s: seq<byte>): (r: seq<byte>)
    ensures |r| <= |s| && (r != [] ==> !Space(r[0]))
  {
    if s != [] && Space(s[0]) then SkipSpaces(s[1..]) else s
  }

  /** strtoul to the base 10, to the end of the string: blanks and a sign may come first, and a minus
      sign negates modulo 2^64; a number of 2^64 or more stands for 2^64 - 1, whatever the sign. */
  function ParseNumber(s: seq<byte>): Option<nat> {
    var t := SkipSpaces(s);
    if t == [] then None
    else
      var r := ParseDecimal(if t[0] == PLUS || t[0] == MINUS then t[1..] else t);
      if r.None? then None
      else if r.value >= ULONG then Some(ULONG - 1)
      else if t[0] == MINUS && r.value > 0 then Some(ULONG - r.value)
      else r
  }

  /** The body of the loop on one entry without its NUL; None stands for FDT_ERR_BADOVERLAY. */
  function ParseEntry(s: seq<byte>): Option<Entry> {
    var sep := Find(s, COLON);
    if sep.None? || sep.value == |s| - 1 then None
    else
      var rest := s[sep.value + 1..];
      var sep2 := Find(rest, COLON);
      if sep2.None? || sep2.value == 0 then None
      else
        var off := ParseNumber(rest[sep2.value + 1..]);
        if off.None? then None else Some(Entry(s[..sep.value], rest[..sep2.value], off.value))
  }

  /** The do-while loop over the value. */
  function Parse(v: seq<byte>): Option<seq<Entry>>
    decreases |v|
  {
    var end := Find(v, 0);
    if end.None? then None
    else
      var e := ParseEntry(v[..end.value]);
      if e.None? then None
      else
        var rest := v[end.value + 1..];
        if rest == [] then Some([e.value])
        else
          var es := Parse(rest);
          if es.None? then None else Some([e.value] + es.value)
  }

  // ---- round trip ----

  lemma {:induction false} DecimalIs(n: nat)
    ensures ParseDecimal(Decimal(n)) == Some(n) && forall i | 0 <= i < |Decimal(n)| :: 48 <= Decimal(n)[i] <= 57
    decreases n
  {
    if n >= 10 {
      DecimalIs(n / 10);
      var s, d := Decimal(n), Decimal(n / 10);
      assert s[..|s| - 1] == d && s[|s| - 1] == 48 + n % 10;
    }
  }

  lemma {:induction false} DecimalNumber(n: nat)
    requires n < ULONG
    ensures ParseNumber(Decimal(n)) == Some(n) && forall i | 0 <= i < |Decimal(n)| :: 48 <= Decimal(n)[i] <= 57
  {
    DecimalIs(n);
    var s := Decimal(n);
    assert 48 <= s[0] <= 57;
    assert SkipSpaces(s) == s;
  }

  lemma {:induction false} FindFirst(a: seq<byte>, c: byte, b: seq<byte>)
    requires c !in a
    ensures Find(a + [c] + b, c) == Some(|a|)
  {
    var s := a + [c] + b;
    assert s[|a|] == c && forall i | 0 <= i < |a| :: s[i] == a[i];
    assert forall j | |a| < j <= |s| :: s[..j][|a|] == c;
  }

  /** What add_fixup_entry demands, and what C strings are: no ':' and no NUL; property names
      are not empty, and offsets are numbers of the machine. */
  predicate Clean(e: Entry) {
    COLON !in e.path && 0 !in e.path && COLON !in e.name && 0 !in e.name && e.name != [] &&
    e.off < ULONG
  }

  lemma {:induction false} EntryParses(e: Entry)
    requires Clean(e)
    ensures ParseEntry(EntryText(e)) == Some(e)
  {
    var s, d := EntryText(e), Decimal(e.off);
    DecimalNumber(e.off);
    var rest := e.name + [COLON] + d;
    assert s == e.path + [COLON] + rest;
    FindFirst(e.path, COLON, rest);
    FindFirst(e.name, COLON, d);
    assert s[|e.path| + 1..] == rest && s[..|e.path|] == e.path;
    assert rest[|e.name| + 1..] == d && rest[..|e.name|] == e.name;
  }

  lemma {:induction false} EntryNulFree(e: Entry)
    requires Clean(e)
    ensures 0 !in EntryText(e)
  {
    DecimalIs(e.off);
    assert 0 !in Decimal(e.off);
  }

  /** Compiler and loader agree: parsing the emitted list returns exactly the emitted entries,
      in order. */
  lemma {:induction false} FixupsRoundTrip(es: seq<Entry>)
    requires es != [] && forall i | 0 <= i < |es| :: Clean(es[i])
    ensures Parse(Emit(es)) == Some(es)
    decreases |es|
  {
    if |es| > 1 {
      FixupsRoundTrip(es[1..]);
    }
    FirstParses(es[0], es[1..], Emit(es[1..]));
    assert [es[0]] + es[1..] == es;
  }

  lemma {:induction false} FirstParses(e: Entry, es: seq<Entry>, more: seq<byte>)
    requires Clean(e) && (if es == [] then more == [] else Parse(more) == Some(es))
    ensures Parse(EntryText(e) + [0] + more) == Some([e] + es)
  {
    EntryParses(e);
    EntryNulFree(e);
    ParseStep(EntryText(e), e, more);
    assert [e] + [] == [e];
  }

  lemma {:induction false} ParseStep(s: seq<byte>, e: Entry, more: seq<byte>)
    requires ParseEntry(s) == Some(e) && 0 !in s
    ensures Parse(s + [0] + more) ==
            if more == [] then Some([e]) else if Parse(more).None? then None else Some([e] + Parse(more).value)
  {
    FindFirst(s, 0, more);
    var v := s + [0] + more;
    assert v[..|s|] == s && v[|s| + 1..] == more;
  }

  // ---- what is parsed ----

  function Pow10(n: nat): nat { if n == 0 then 1 else 10 * Pow10(n - 1) }

  predicate AllDigits(s: seq<byte>) { forall i | 0 <= i < |s| :: 48 <= s[i] <= 57 }

  /** The digits, each with the power of ten of its place. */
  function Worth(s: seq<byte>): nat
    requires AllDigits(s)
  {
    if s == [] then 0 else (s[0] - 48) * Pow10(|s| - 1) + Worth(s[1..])
  }

  lemma {:induction false} WorthMore(s: seq<byte>, c: byte)
    requires AllDigits(s) && 48 <= c <= 57
    ensures AllDigits(s + [c]) && Worth(s + [c]) == 10 * Worth(s) + c - 48
    decreases |s|
  {
    if s == [] {
      assert ([] + [c])[1..] == [];
    } else {
      WorthMore(s[1..], c);
      assert (s + [c])[1..] == s[1..] + [c];
      Shifted(s[0] - 48, |s|);
    }
  }

  lemma {:induction false} Shifted(d: nat, n: nat)
    requires n > 0
    ensures d * Pow10(n) == 10 * (d * Pow10(n - 1))
  {
  }

  lemma {:induction false} DecimalMeans(s: seq<byte>)
    ensures ParseDecimal(s) == if s != [] && AllDigits(s) then Some(Worth(s)) else None
    decreases |s|
  {
    if s != [] {
      var init, c := s[..|s| - 1], s[|s| - 1];
      assert s == init + [c];
      DecimalMeans(init);
      if 48 <= c <= 57 {
        if AllDigits(init) {
          WorthMore(init, c);
          assert Worth([]) == 0;
        }
      }
    }
  }

  lemma {:induction false} SpacesSkipped(a: seq<byte>, t: seq<byte>)
    requires (forall i | 0 <= i < |a| :: Space(a[i])) && (t != [] ==> !Space(t[0]))
    ensures SkipSpaces(a + t) == t
    decreases |a|
  {
    if a == [] {
      assert a + t == t;
    } else {
      assert (a + t)[1..] == a[1..] + t;
      SpacesSkipped(a[1..], t);
    }
  }

  /** What strtoul reads from blanks, a sign and digits. */
  lemma {:induction false} NumberMeans(a: seq<byte>, sign: seq<byte>, ds: seq<byte>)
    requires forall i | 0 <= i < |a| :: a[i] == 32 || 9 <= a[i] <= 13
    requires (sign == [] || sign == [PLUS] || sign == [MINUS]) && ds != [] && AllDigits(ds)
    ensures var n := Worth(ds);
            ParseNumber(a + sign + ds) ==
            Some(if n >= ULONG then ULONG - 1 else if sign == [MINUS] then (ULONG - n) % ULONG else n)
  {
    DecimalMeans(ds);
    var t := sign + ds;
    assert a + sign + ds == a + t;
    SpacesSkipped(a, t);
    if sign == [] {
      assert t == ds;
    } else {
      assert t[1..] == ds;
    }
    if Worth(ds) == 0 {
      assert ULONG % ULONG == 0;
    }
  }

  /** Everything else is refused. */
  lemma {:induction false} NumberParts(s: seq<byte>) returns (a: seq<byte>, sign: seq<byte>, ds: seq<byte>)
    requires ParseNumber(s).Some?
    ensures s == a + sign + ds && (forall i | 0 <= i < |a| :: a[i] == 32 || 9 <= a[i] <= 13)
    ensures (sign == [] || sign == [PLUS] || sign == [MINUS]) && ds != [] && AllDigits(ds)
  {
    var t := SkipSpaces(s);
    a := SpacesFront(s);
    sign := if t[0] == PLUS || t[0] == MINUS then [t[0]] else [];
    ds := t[|sign|..];
    DecimalMeans(ds);
    assert t == sign + ds;
    assert s == a + sign + ds;
  }

  lemma {:induction false} SpacesFront(s: seq<byte>) returns (a: seq<byte>)
    ensures s == a + SkipSpaces(s) && forall i | 0 <= i < |a| :: a[i] == 32 || 9 <= a[i] <= 13
    decreases |s|
  {
    a := [];
    if s != [] && Space(s[0]) {
      a := SpacesFront(s[1..]);
      assert s == [s[0]] + (a + SkipSpaces(s[1..]));
      a := [s[0]] + a;
    }
  }

  predicate EntryForm(s: seq<byte>, e: Entry, num: seq<byte>) {
    s == e.path + [COLON] + (e.name + [COLON] + num) && COLON !in e.path && COLON !in e.name && e.name != [] &&
    ParseNumber(num) == Some(e.off)
  }

  lemma {:induction false} FoundAt(s: seq<byte>, c: byte)
    requires Find(s, c).Some?
    ensures var i := Find(s, c).value; s == s[..i] + [c] + s[i + 1..] && c !in s[..i]
  {
  }

  lemma {:induction false} SplitBack(a: seq<byte>, c: byte, b: seq<byte>)
    requires c !in a
    ensures Find(a + [c] + b, c) == Some(|a|) && (a + [c] + b)[..|a|] == a && (a + [c] + b)[|a| + 1..] == b
  {
    FindFirst(a, c, b);
  }

  /** An entry is the path, the property name, which is not empty, and the offset, with a colon after
      each of the first two, in which there is none. */
  lemma {:induction false} EntryMeans(s: seq<byte>, e: Entry)
    ensures ParseEntry(s) == Some(e) <==> exists num :: EntryForm(s, e, num)
  {
    if ParseEntry(s) == Some(e) {
      var rest := s[Find(s, COLON).value + 1..];
      FoundAt(s, COLON);
      FoundAt(rest, COLON);
      assert EntryForm(s, e, rest[Find(rest, COLON).value + 1..]);
    }
    if num :| EntryForm(s, e, num) {
      SplitBack(e.path, COLON, e.name + [COLON] + num);
      SplitBack(e.name, COLON, num);
    }
  }
}
