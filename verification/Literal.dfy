/** treesource.c, util.c and data.c: printing a byte string as a string literal of the
    devicetree source language, and reading literals. */
module Literal {
  import opened Bytes

  const BACKSLASH: byte := 92
  const QUOTE: byte := 34
  const PLUS: byte := 43
  const MINUS: byte := 45

  // ---- write_propval_string ----

  /** isprint in the C locale. */
  predicate Printable(c: byte) { 32 <= c <= 126 }

  function HexDigit(n: int): byte
    requires 0 <= n < 16
  {
    if n < 10 then 48 + n else 87 + n
  }

  /** The text written for one byte. */
  function Escape(c: byte): (t: seq<byte>)
    ensures |t| > 0
  {
    if c == 7 then [BACKSLASH, 97] // \a
    else if c == 8 then [BACKSLASH, 98] // \b
    else if c == 9 then [BACKSLASH, 116] // \t
    else if c == 10 then [BACKSLASH, 110] // \n
    else if c == 11 then [BACKSLASH, 118] // \v
    else if c == 12 then [BACKSLASH, 102] // \f
    else if c == 13 then [BACKSLASH, 114] // \r
    else if c == BACKSLASH then [BACKSLASH, BACKSLASH]
    else if c == QUOTE then [BACKSLASH, QUOTE]
    else if c == 0 then [BACKSLASH, 48]
    else if Printable(c) then [c]
    else [BACKSLASH, 120, HexDigit(c / 16), HexDigit(c % 16)]
  }

  /** The text between the quotes for the bytes before the final NUL. */
  function Print(s: seq<byte>): seq<byte> {
    if s == [] then [] else Escape(s[0]) + Print(s[1..])
  }

  lemma {:induction false} PrintAppend(s: seq<byte>, c: byte)
    ensures Print(s + [c]) == Print(s) + Escape(c)
    decreases |s|
  {
    if s == [] {
      assert (s + [c])[1..] == [];
    } else {
      PrintAppend(s[1..], c);
      assert (s + [c])[1..] == s[1..] + [c];
    }
  }

  /** The text is printable, whatever the bytes are, and printable bytes other than quote and backslash
      are printed as they are. */
  lemma {:induction false} PrintIsText(s: seq<byte>)
    ensures forall i | 0 <= i < |Print(s)| :: 32 <= Print(s)[i] <= 126
    ensures (forall i | 0 <= i < |s| :: 32 <= s[i] <= 126 && s[i] != QUOTE && s[i] != BACKSLASH) ==> Print(s) == s
    decreases |s|
  {
    if s != [] {
      PrintIsText(s[1..]);
      assert [s[0]] + s[1..] == s;
    }
  }

  /** The loop of write_propval_string. */
  method WriteString(s: seq<byte>) returns (text: seq<byte>)
    ensures text == Print(s)
  {
    text := [];
    var i := 0;
    while i < |s|
      invariant i <= |s| && text == Print(s[..i])
    {
      assert s[..i + 1] == s[..i] + [s[i]];
      PrintAppend(s[..i], s[i]);
      text := text + Escape(s[i]);
      i := i + 1;
    }
    assert s[..|s|] == s;
  }

  // ---- data_copy_escape_string ----

  predicate Octal(c: byte) { 48 <= c <= 55 }

  /** Number of octal digits at the start of t, at most n. */
  function OctalDigits(t: seq<byte>, n: nat): (k: nat)
    ensures k <= n && k <= |t| && (forall i | 0 <= i < k :: Octal(t[i])) && (k < n && k < |t| ==> !Octal(t[k]))
  {
    if n == 0 || t == [] || !Octal(t[0]) then 0 else 1 + OctalDigits(t[1..], n - 1)
  }

  function OctalValue(t: seq<byte>, v: nat): nat {
    if t == [] then v else OctalValue(t[1..], if Octal(t[0]) then 8 * v + t[0] - 48 else v)
  }

  function HexValue(c: byte): (v: Option<nat>)
    ensures v.Some? ==> v.value < 16
  {
    if 48 <= c <= 57 then Some(c - 48) else if 97 <= c <= 102 then Some(c - 87) else if 65 <= c <= 70 then
      Some(c - 55) else None
  }

  /** isspace in the C locale. */
  predicate Space(c: byte) { c == 32 || 9 <= c <= 13 }

  /** get_hex_char on the text after `\\x`, with 1 added for the x.  strtol on two characters skips a
      blank in front, and takes a sign. */
  function GetHex(t: seq<byte>): (r: Option<(byte, nat)>)
    ensures r.Some? ==> 1 < r.value.1 <= |t| + 1
  {
    var a := if |t| > 0 then HexValue(t[0]) else None;
    var b := if |t| > 1 then HexValue(t[1]) else None;
    if a.Some? && b.Some? then Some((16 * a.value + b.value, 3))
    else if a.Some? then Some((a.value, 2))
    else if b.Some? && (Space(t[0]) || t[0] == PLUS) then Some((b.value, 3))
    else if b.Some? && t[0] == MINUS then Some(((256 - b.value) % 256, 3))
    else None
  }

  /** get_escape_char on the text after a backslash: the byte, and how much was read.  None if
      the program dies for lack of a hexadecimal digit. */
  function GetEscape(t: seq<byte>): (r: Option<(byte, nat)>)
    requires t != []
    ensures r.Some? ==> 0 < r.value.1 <= |t|
  {
    var c := t[0];
    if c == 97 then Some((7, 1)) else if c == 98 then Some((8, 1)) else if c == 116 then Some((9, 1))
    else if c == 110 then Some((10, 1)) else if c == 118 then Some((11, 1)) else if c == 102 then Some((12, 1))
    else if c == 114 then Some((13, 1))
    else if Octal(c) then
      var k := OctalDigits(t, 3);
      assert k > 0;
      Some((OctalValue(t[..k], 0) % 256, k))
    else if c == 120 then GetHex(t[1..])
    else Some((c, 1))
  }

  /** One turn of the loop of data_copy_escape_string: the byte and how much text it took.  A
      backslash at the very end would escape the closing quote. */
  function Step(t: seq<byte>): (r: Option<(byte, nat)>)
    requires t != []
    ensures r.Some? ==> 0 < r.value.1 <= |t|
  {
    if t[0] != BACKSLASH then Some((t[0], 1))
    else if |t| == 1 then Some((QUOTE, 1))
    else
      var e := GetEscape(t[1..]);
      if e.None? then None else Some((e.value.0, e.value.1 + 1))
  }

  function Then(q: seq<byte>, r: Option<seq<byte>>): Option<seq<byte>> { if r.None? then None else Some(q + r.value) }

  /** data_copy_escape_string on the text between the quotes, without the final NUL. */
  function Read(t: seq<byte>): Option<seq<byte>>
    decreases |t|
  {
    if t == [] then Some([])
    else
      var e := Step(t);
      if e.None? then None else Then([e.value.0], Read(t[e.value.1..]))
  }

  lemma {:induction false} ThenThen(q: seq<byte>, c: byte, r: Option<seq<byte>>)
    ensures Then(q, Then([c], r)) == Then(q + [c], r) && Then([], r) == r
  {
    if r.Some? {
      assert q + ([c] + r.value) == q + [c] + r.value && [] + r.value == r.value;
    }
  }

  /** The loop itself. */
  method CopyEscapeString(t: seq<byte>) returns (d: Option<seq<byte>>)
    ensures d == Read(t)
  {
    var i, q := 0, [];
    assert t[0..] == t;
    ThenThen([], 0, Read(t));
    while i < |t|
      invariant i <= |t| && Read(t) == Then(q, Read(t[i..]))
    {
      ghost var rest := t[i..];
      var e := Step(t[i..]);
      if e.None? {
        return None;
      }
      assert rest[e.value.1..] == t[i + e.value.1..];
      ThenThen(q, e.value.0, Read(rest[e.value.1..]));
      q := q + [e.value.0];
      i := i + e.value.1;
    }
    assert t[i..] == [] && q + [] == q;
    return Some(q);
  }

  // ---- what is read ----

  /** "0123456789abcdef" */
  const LOWER: seq<byte> := [48, 49, 50, 51, 52, 53, 54, 55, 56, 57, 97, 98, 99, 100, 101, 102]

  /** "0123456789ABCDEF" */
  const UPPER: seq<byte> := [48, 49, 50, 51, 52, 53, 54, 55, 56, 57, 65, 66, 67, 68, 69, 70]

  /** "abtnvfr" */
  const LETTERS: seq<byte> := [97, 98, 116, 110, 118, 102, 114]

  predicate HexIs(c: byte, v: int) { 0 <= v < 16 && (c == LOWER[v] || c == UPPER[v]) }

  lemma {:induction false} HexIsValue(c: byte)
    ensures forall v :: HexIs(c, v) <==> HexValue(c).Some? && HexValue(c).value == v
    ensures HexValue(c).Some? <==> exists v :: HexIs(c, v)
  {
    if HexValue(c).Some? {
      assert HexIs(c, HexValue(c).value);
    }
  }

  /** Some step takes all of `lex` off the text. */
  lemma {:induction false} ReadsOne(lex: seq<byte>, c: byte, rest: seq<byte>)
    requires lex != [] && Step(lex + rest) == Some((c, |lex|))
    ensures Read(lex + rest) == Then([c], Read(rest))
  {
    assert (lex + rest)[|lex|..] == rest;
  }

  /** A byte other than a backslash stands for itself, and so does a byte behind a backslash, but for
      digits up to 7, x, and the letters a, b, t, n, v, f, r, which stand for the bytes from 7 to 13
      in the order a, b, t, n, v, f, r. */
  lemma {:induction false} ReadsSimple(c: byte, rest: seq<byte>)
    ensures c != BACKSLASH ==> Read([c] + rest) == Then([c], Read(rest))
    ensures !(48 <= c <= 55) && c != 120 && c !in LETTERS ==> Read([BACKSLASH, c] + rest) == Then([c], Read(rest))
    ensures forall k | 0 <= k < 7 && LETTERS[k] == c ::
              Read([BACKSLASH, c] + rest) == Then([(7 + k) as byte], Read(rest))
  {
    if c != BACKSLASH {
      ReadsOne([c], c, rest);
    }
    assert ([BACKSLASH, c] + rest)[1..] == [c] + rest;
    if !(48 <= c <= 55) && c != 120 && c !in LETTERS {
      assert forall k | 0 <= k < 7 :: LETTERS[k] != c;
      assert LETTERS[0] != c && LETTERS[1] != c && LETTERS[2] != c && LETTERS[3] != c && LETTERS[4] != c &&
             LETTERS[5] != c && LETTERS[6] != c;
      ReadsOne([BACKSLASH, c], c, rest);
    }
    forall k | 0 <= k < 7 && LETTERS[k] == c
      ensures Read([BACKSLASH, c] + rest) == Then([(7 + k) as byte], Read(rest))
    {
      ReadsOne([BACKSLASH, c], (7 + k) as byte, rest);
    }
  }

  function Digit(c: byte): int { c - 48 }

  /** Up to three octal digits behind a backslash, as many as there are, stand for their value to
      the base 8, modulo 256. */
  lemma {:induction false} ReadsOctal(ds: seq<byte>, rest: seq<byte>)
    requires 1 <= |ds| <= 3 && forall i | 0 <= i < |ds| :: 48 <= ds[i] <= 55
    requires |ds| == 3 || rest == [] || !(48 <= rest[0] <= 55)
    ensures var v: int := if |ds| == 1 then Digit(ds[0])
                          else if |ds| == 2 then 8 * Digit(ds[0]) + Digit(ds[1])
                          else 64 * Digit(ds[0]) + 8 * Digit(ds[1]) + Digit(ds[2]);
            Read([BACKSLASH] + ds + rest) == Then([v % 256], Read(rest))
  {
    var v: int := if |ds| == 1 then Digit(ds[0])
                  else if |ds| == 2 then 8 * Digit(ds[0]) + Digit(ds[1])
                  else 64 * Digit(ds[0]) + 8 * Digit(ds[1]) + Digit(ds[2]);
    var t := ds + rest;
    OctalRun(ds, rest, 3);
    assert t[..|ds|] == ds;
    OctalSum(ds);
    assert ([BACKSLASH] + ds + rest)[1..] == t;
    ReadsOne([BACKSLASH] + ds, v % 256, rest);
  }

  lemma {:induction false} OctalRun(ds: seq<byte>, rest: seq<byte>, n: nat)
    requires |ds| <= n && forall i | 0 <= i < |ds| :: Octal(ds[i])
    requires |ds| == n || rest == [] || !Octal(rest[0])
    ensures OctalDigits(ds + rest, n) == |ds|
    decreases |ds|
  {
    if ds == [] {
      assert ds + rest == rest;
    } else {
      assert (ds + rest)[1..] == ds[1..] + rest;
      OctalRun(ds[1..], rest, n - 1);
    }
  }

  lemma {:induction false} OctalSum(ds: seq<byte>)
    requires 1 <= |ds| <= 3 && forall i | 0 <= i < |ds| :: Octal(ds[i])
    ensures OctalValue(ds, 0) == if |ds| == 1 then Digit(ds[0])
            else if |ds| == 2 then 8 * Digit(ds[0]) + Digit(ds[1])
            else 64 * Digit(ds[0]) + 8 * Digit(ds[1]) + Digit(ds[2])
  {
    var a: int := ds[0] - 48;
    assert OctalValue(ds, 0) == OctalValue(ds[1..], a);
    if |ds| > 1 {
      var b: int := 8 * a + ds[1] - 48;
      assert OctalValue(ds[1..], a) == OctalValue(ds[1..][1..], b);
      if |ds| > 2 {
        assert ds[1..][1..][0] == ds[2];
        var d: int := 8 * b + ds[2] - 48;
        assert OctalValue(ds[1..][1..], b) == OctalValue(ds[1..][1..][1..], d);
      }
    }
  }

  /** Behind a backslash and x: two hexadecimal digits, in either case of the letters, stand for
      their value; one digit alone for its own. */
  lemma {:induction false} ReadsHex(a: byte, x: nat, rest: seq<byte>)
    requires HexIs(a, x)
    ensures (rest == [] || forall y :: !HexIs(rest[0], y)) ==> Read([BACKSLASH, 120, a] + rest) == Then([x], Read(rest))
    ensures forall y | rest != [] && HexIs(rest[0], y) ::
              Read([BACKSLASH, 120, a] + rest) == Then([16 * x + y], Read(rest[1..]))
  {
    HexIsValue(a);
    assert ([BACKSLASH, 120, a] + rest)[1..][1..] == [a] + rest;
    if rest != [] {
      HexIsValue(rest[0]);
    }
    if rest == [] || forall y :: !HexIs(rest[0], y) {
      ReadsOne([BACKSLASH, 120, a], x, rest);
    }
    forall y | rest != [] && HexIs(rest[0], y)
      ensures Read([BACKSLASH, 120, a] + rest) == Then([16 * x + y], Read(rest[1..]))
    {
      assert [BACKSLASH, 120, a] + rest == [BACKSLASH, 120, a, rest[0]] + rest[1..];
      ReadsOne([BACKSLASH, 120, a, rest[0]], 16 * x + y, rest[1..]);
    }
  }

  /** Behind a backslash and x something else than a digit: a blank or a sign may stand in front of
      one digit, and a minus sign negates it modulo 256; otherwise the program dies. */
  lemma {:induction false} ReadsSigned(t: seq<byte>)
    requires t == [] || forall x :: !HexIs(t[0], x)
    ensures forall y | |t| > 1 && HexIs(t[1], y) && (t[0] == 32 || 9 <= t[0] <= 13 || t[0] == PLUS) ::
              Read([BACKSLASH, 120] + t) == Then([y], Read(t[2..]))
    ensures forall y | |t| > 1 && HexIs(t[1], y) && t[0] == MINUS ::
              Read([BACKSLASH, 120] + t) == Then([if y == 0 then 0 else 256 - y], Read(t[2..]))
    ensures |t| < 2 || (forall y :: !HexIs(t[1], y)) ||
              !(t[0] == 32 || 9 <= t[0] <= 13 || t[0] == PLUS || t[0] == MINUS) ==>
              Read([BACKSLASH, 120] + t) == None
  {
    HexStep(t);
    SignedHex(t);
    if |t| > 1 {
      assert [BACKSLASH, 120] + t == [BACKSLASH, 120, t[0], t[1]] + t[2..];
    }
    if GetHex(t).Some? {
      ReadsOne([BACKSLASH, 120, t[0], t[1]], GetHex(t).value.0, t[2..]);
    }
  }

  lemma {:induction false} SignedHex(t: seq<byte>)
    requires t == [] || forall x :: !HexIs(t[0], x)
    ensures GetHex(t).Some? <==>
            |t| > 1 && (exists y :: HexIs(t[1], y)) && (Space(t[0]) || t[0] == PLUS || t[0] == MINUS)
    ensures GetHex(t).Some? ==> GetHex(t).value.1 == 3 && forall y | HexIs(t[1], y) ::
              GetHex(t).value.0 == if t[0] == MINUS && y > 0 then 256 - y else y
  {
    if t != [] {
      HexIsValue(t[0]);
    }
    if |t| > 1 {
      HexIsValue(t[1]);
    }
  }

  lemma {:induction false} HexStep(t: seq<byte>)
    ensures Step([BACKSLASH, 120] + t) ==
            if GetHex(t).None? then None else Some((GetHex(t).value.0, GetHex(t).value.1 + 1))
  {
    assert ([BACKSLASH, 120] + t)[1..][1..] == t;
  }

  // ---- the round trip ----

  /** A NUL directly followed by an octal digit. */
  predicate Ambiguous(s: seq<byte>) { exists i :: 0 <= i < |s| - 1 && s[i] == 0 && Octal(s[i + 1]) }

  lemma {:induction false} FirstChar(s: seq<byte>)
    requires s != []
    ensures Print(s) != [] && (Octal(Print(s)[0]) <==> Octal(s[0])) &&
            (Octal(s[0]) ==> Print(s) == [s[0]] + Print(s[1..]))
  {
  }

  /** Reading the text of one byte back, when nothing after it can be taken for part of it. */
  lemma {:induction false} ReadEscape(c: byte, rest: seq<byte>)
    requires c != 0 || rest == [] || !Octal(rest[0])
    ensures Read(Escape(c) + rest) == Then([c], Read(rest))
  {
    StepEscape(c, rest);
    assert (Escape(c) + rest)[|Escape(c)|..] == rest;
  }

  lemma {:induction false} StepEscape(c: byte, rest: seq<byte>)
    requires c != 0 || rest == [] || !Octal(rest[0])
    ensures Step(Escape(c) + rest) == Some((c, |Escape(c)|))
  {
    if c == 0 {
      StepNul(rest);
    } else if |Escape(c)| == 4 {
      StepHex(c, rest);
    } else {
      var t := Escape(c) + rest;
      if |Escape(c)| == 2 {
        assert t[1..] == [Escape(c)[1]] + rest;
      }
    }
  }

  lemma {:induction false} StepNul(rest: seq<byte>)
    requires rest == [] || !Octal(rest[0])
    ensures Step([BACKSLASH, 48] + rest) == Some((0, 2))
  {
    var u := ([BACKSLASH, 48] + rest)[1..];
    assert u == [48] + rest && u[1..] == rest;
    assert OctalDigits(u, 3) == 1 + OctalDigits(rest, 2);
    assert u[..1] == [48];
    assert OctalValue([48], 0) == 0;
  }

  lemma {:induction false} StepHex(c: byte, rest: seq<byte>)
    ensures Step([BACKSLASH, 120, HexDigit(c / 16), HexDigit(c % 16)] + rest) == Some((c, 4))
  {
    var a, b := HexDigit(c / 16), HexDigit(c % 16);
    assert HexValue(a) == Some(c / 16) && HexValue(b) == Some(c % 16);
    assert ([BACKSLASH, 120, a, b] + rest)[1..] == [120, a, b] + rest;
  }

  /** An octal escape takes in the digits that follow, up to three in all. */
  lemma {:induction false} OctalTakes(d: byte, rest: seq<byte>)
    requires Octal(d)
    ensures var e := GetEscape([48, d] + rest);
            e.Some? && e.value.1 == if rest != [] && Octal(rest[0]) then 3 else 2
  {
    var t := [48, d] + rest;
    assert t[1..] == [d] + rest && t[1..][1..] == rest;
    assert OctalDigits(t, 3) == 1 + OctalDigits(t[1..], 2);
    assert OctalDigits(t[1..], 2) == 1 + OctalDigits(rest, 1);
  }

  /** A NUL whose text runs into octal digits swallows them. */
  lemma {:induction false} Swallows(s: seq<byte>)
    requires |s| > 1 && s[0] == 0 && Octal(s[1])
    ensures exists k: nat, c: byte :: 2 <= k <= |s| && Read(Print(s)) == Then([c], Read(Print(s[k..])))
  {
    var p := Print(s[2..]);
    NulText(s);
    OctalTakes(s[1], p);
    var e := GetEscape([48, s[1]] + p).value;
    assert Print(s)[1..] == [48, s[1]] + p && Print(s)[0] == BACKSLASH;
    if e.1 == 2 {
      assert Print(s)[3..] == p;
      Swallowed(s, 2, e.0);
    } else {
      assert s[2..] != [];
      FirstChar(s[2..]);
      assert s[2..][1..] == s[3..] && Print(s)[4..] == p[1..] == Print(s[3..]);
      Swallowed(s, 3, e.0);
    }
  }

  lemma {:induction false} NulText(s: seq<byte>)
    requires |s| > 1 && s[0] == 0 && Octal(s[1])
    ensures Print(s) == [BACKSLASH, 48, s[1]] + Print(s[2..])
  {
    FirstChar(s[1..]);
    assert s[1..][1..] == s[2..];
    assert Print(s) == [BACKSLASH, 48] + Print(s[1..]);
  }

  lemma {:induction false} Swallowed(s: seq<byte>, k: nat, c: byte)
    requires 2 <= k <= |s| && |Print(s)| > k && Print(s)[0] == BACKSLASH &&
             GetEscape(Print(s)[1..]) == Some((c, k)) && Print(s)[k + 1..] == Print(s[k..])
    ensures Read(Print(s)) == Then([c], Read(Print(s[k..])))
  {
  }

  /** A printed literal can always be read, and is never longer than what was printed; it is
      shorter exactly if some NUL is directly followed by an octal digit. */
  lemma {:induction false} ReadLength(s: seq<byte>)
    ensures Read(Print(s)).Some? && |Read(Print(s)).value| <= |s|
    ensures |Read(Print(s)).value| == |s| <==> !Ambiguous(s)
    ensures !Ambiguous(s) ==> Read(Print(s)).value == s
    decreases |s|
  {
    if s != [] {
      var rest := s[1..];
      AmbiguousTail(s);
      if |s| > 1 && s[0] == 0 && Octal(s[1]) {
        Swallows(s);
        var k: nat, c: byte :| 2 <= k <= |s| && Read(Print(s)) == Then([c], Read(Print(s[k..])));
        ReadLength(s[k..]);
        assert s[0] == 0 && Octal(s[0 + 1]);
      } else {
        ReadLength(rest);
        if rest != [] {
          FirstChar(rest);
        }
        ReadEscape(s[0], Print(rest));
        assert [s[0]] + rest == s;
      }
    }
  }

  lemma {:induction false} AmbiguousTail(s: seq<byte>)
    requires s != []
    ensures Ambiguous(s) <==> (|s| > 1 && s[0] == 0 && Octal(s[1])) || Ambiguous(s[1..])
  {
    var t := s[1..];
    if i :| 0 <= i < |s| - 1 && s[i] == 0 && Octal(s[i + 1]) {
      if i > 0 {
        assert t[i - 1] == 0 && Octal(t[(i - 1) + 1]);
      }
    }
    if i :| 0 <= i < |t| - 1 && t[i] == 0 && Octal(t[i + 1]) {
      assert s[i + 1] == 0 && Octal(s[(i + 1) + 1]);
    }
    if |s| > 1 && s[0] == 0 && Octal(s[1]) {
      assert s[0] == 0 && Octal(s[0 + 1]);
    }
  }

  /** The round trip: printing and reading back gives the same bytes iff no NUL inside is
      directly followed by an octal digit. */
  lemma {:induction false} LiteralRoundTrip(s: seq<byte>)
    ensures Read(Print(s)) == Some(s) <==> !Ambiguous(s)
  {
    ReadLength(s);
  }

  // ---- the lexer's STRING pattern ----

  /** Where the pattern "([^\\"]|\\.)*" of dtc-lexer.l ends, after the opening quote: index of
      the closing quote; None if there is no match.  A dot does not match a newline. */
  function LexString(t: seq<byte>): (r: Option<nat>)
    ensures r.Some? ==> r.value < |t| && t[r.value] == QUOTE
    decreases |t|
  {
    if t == [] then None
    else if t[0] == QUOTE then Some(0)
    else if t[0] != BACKSLASH then
      var r := LexString(t[1..]);
      if r.None? then None else Some(r.value + 1)
    else if |t| == 1 || t[1] == 10 then None
    else
      var r := LexString(t[2..]);
      if r.None? then None else Some(r.value + 2)
  }

  /** What the pattern matches between the quotes: characters other than backslash and quote, and
      backslashes with any character but a newline behind them. */
  predicate Quoted(x: seq<byte>)
    decreases |x|
  {
    x == [] ||
    (x[0] != BACKSLASH && x[0] != QUOTE && Quoted(x[1..])) ||
    (x[0] == BACKSLASH && |x| > 1 && x[1] != 10 && Quoted(x[2..]))
  }

  /** The match ends at a closing quote with such a text before it, and there is at most one. */
  lemma {:induction false} LexExact(t: seq<byte>, n: nat)
    ensures LexString(t) == Some(n) <==> n < |t| && t[n] == QUOTE && Quoted(t[..n])
    decreases |t|
  {
    if t != [] && t[0] != QUOTE {
      var d := if t[0] == BACKSLASH then 2 else 1;
      if n >= d && |t| >= d {
        LexExact(t[d..], n - d);
        if n < |t| {
          assert t[..n][d..] == t[d..][..n - d];
        }
      }
      if |t| >= d && LexString(t[d..]).Some? {
        LexExact(t[d..], LexString(t[d..]).value);
      }
    }
  }

  lemma {:induction false} LexEscape(c: byte, rest: seq<byte>)
    ensures LexString(Escape(c) + rest) == if LexString(rest).None? then None
            else Some(LexString(rest).value + |Escape(c)|)
  {
    var t := Escape(c) + rest;
    if |Escape(c)| == 1 {
      assert t[1..] == rest;
    } else if |Escape(c)| == 2 {
      assert t[2..] == rest;
    } else {
      LexHex(HexDigit(c / 16), HexDigit(c % 16), rest);
    }
  }

  lemma {:induction false} LexHex(a: byte, b: byte, rest: seq<byte>)
    requires a != QUOTE && a != BACKSLASH && b != QUOTE && b != BACKSLASH
    ensures LexString([BACKSLASH, 120, a, b] + rest) == if LexString(rest).None? then None
            else Some(LexString(rest).value + 4)
  {
    assert ([BACKSLASH, 120, a, b] + rest)[2..] == [a] + ([b] + rest);
    LexPlain(a, [b] + rest);
    LexPlain(b, rest);
  }

  lemma {:induction false} LexPlain(c: byte, rest: seq<byte>)
    requires c != QUOTE && c != BACKSLASH
    ensures LexString([c] + rest) == if LexString(rest).None? then None else Some(LexString(rest).value + 1)
  {
    assert ([c] + rest)[1..] == rest;
  }

  /** The printed text is matched up to its own closing quote, whatever follows. */
  lemma {:induction false} PrintedLexes(s: seq<byte>, rest: seq<byte>)
    ensures LexString(Print(s) + [QUOTE] + rest) == Some(|Print(s)|)
    decreases |s|
  {
    if s == [] {
      assert Print(s) + [QUOTE] + rest == [QUOTE] + rest;
    } else {
      PrintedLexes(s[1..], rest);
      LexEscape(s[0], Print(s[1..]) + [QUOTE] + rest);
      Regroup(Escape(s[0]), Print(s[1..]), [QUOTE], rest);
    }
  }

  lemma {:induction false} Regroup(a: seq<byte>, b: seq<byte>, c: seq<byte>, d: seq<byte>)
    ensures a + b + c + d == a + (b + c + d)
  {
  }
}
