/** Byte sequences, big-endian 32-bit words and the four-byte alignment of the
    flattened devicetree format (Devicetree Specification, sections 5.4 and 5.6).

    Ld32, Be32 and Align4 are sealed: a definition stated under `Unseal(z)` is
    known only to a proof that mentions Unseal, here the lemmas LdDef, BeDef and
    AlignDef.  All other proofs use the facts proved about them in this module,
    and no byte arithmetic. */
module Bytes {
  type byte = x: int | 0 <= x < 256

  datatype Option<+T> = None | Some(value: T) {
    function GetOr(d: T): T { if Some? then value else d }
  }

  predicate Unseal(z: int) { true }

  // ---- big-endian words ----

  /** fdt32_to_cpu: the word stored at offset o. */
  function Load(s: seq<byte>, o: int): (v: int)
    requires 0 <= o <= |s| - 4
    ensures 0 <= v < 0x1_0000_0000
  {
    var a: int, b: int, c: int, d: int := s[o], s[o + 1], s[o + 2], s[o + 3];
    ((a * 256 + b) * 256 + c) * 256 + d
  }

  ghost predicate IsWord(s: seq<byte>, o: int, v: int)
    requires 0 <= o <= |s| - 4
  {
    0 <= v < 0x1_0000_0000 && forall z :: Unseal(z) ==> v == Load(s, o)
  }

  /** Load, sealed. */
  ghost function Ld32(s: seq<byte>, o: int): (v: int)
    requires 0 <= o <= |s| - 4
    ensures 0 <= v < 0x1_0000_0000
  {
    assert IsWord(s, o, Load(s, o));
    var v :| IsWord(s, o, v);
    v
  }

  lemma {:induction false} LdDef(s: seq<byte>, o: int)
    requires 0 <= o <= |s| - 4
    ensures Ld32(s, o) == Load(s, o)
  {
    assert Unseal(0);
  }

  /** cpu_to_fdt32: the four bytes of v modulo 2^32, most significant first. */
  function Bytes32(v: int): (s: seq<byte>)
    ensures |s| == 4
  {
    var w := v / 256;
    var x := w / 256;
    var y := x / 256;
    [y % 256, x % 256, w % 256, v % 256]
  }

  ghost predicate IsBytes32(v: int, s: seq<byte>) { |s| == 4 && forall z :: Unseal(z) ==> s == Bytes32(v) }

  /** Bytes32, sealed. */
  ghost function Be32(v: int): (s: seq<byte>)
    ensures |s| == 4
  {
    assert IsBytes32(v, Bytes32(v));
    var s :| IsBytes32(v, s);
    s
  }

  lemma {:induction false} BeDef(v: int)
    ensures Be32(v) == Bytes32(v)
  {
    assert Unseal(0);
  }

  lemma {:induction false} Be32RoundTrip(v: int)
    requires 0 <= v < 0x1_0000_0000
    ensures Ld32(Be32(v), 0) == v
  {
    BeDef(v);
    LdDef(Be32(v), 0);
    var w := v / 256;
    var x := w / 256;
    var y := x / 256;
    assert v == 256 * w + v % 256 && w == 256 * x + w % 256 && x == 256 * y + x % 256;
  }

  lemma {:induction false} BytesOfWord(a: byte, b: byte, c: byte, d: byte)
    ensures Bytes32(((a * 256 + b) * 256 + c) * 256 + d) == [a, b, c, d]
  {
    var v := ((a * 256 + b) * 256 + c) * 256 + d;
    assert v / 256 == (a * 256 + b) * 256 + c;
    assert v / 256 / 256 == a * 256 + b;
  }

  lemma {:induction false} WordBack(w: seq<byte>)
    requires |w| == 4
    ensures Be32(Ld32(w, 0)) == w
  {
    LdDef(w, 0);
    BeDef(Ld32(w, 0));
    BytesOfWord(w[0], w[1], w[2], w[3]);
    assert w == [w[0], w[1], w[2], w[3]];
  }

  /** Four bytes are one number. */
  lemma {:induction false} CellValue(w: seq<byte>)
    requires |w| == 4
    ensures 0 <= Ld32(w, 0) < 0x1_0000_0000 && w == Be32(Ld32(w, 0))
    ensures forall v | 0 <= v < 0x1_0000_0000 :: w == Be32(v) <==> Ld32(w, 0) == v
  {
    WordBack(w);
    forall v | 0 <= v < 0x1_0000_0000 ensures w == Be32(v) <==> Ld32(w, 0) == v {
      Be32RoundTrip(v);
    }
  }

  /** Big-endian: the first byte counts most. */
  lemma {:induction false} WordIs(a: byte, b: byte, c: byte, d: byte)
    ensures Ld32([a, b, c, d], 0) == 0x100_0000 * a as int + 0x1_0000 * b as int + 0x100 * c as int + d
    ensures Be32(0x100_0000 * a as int + 0x1_0000 * b as int + 0x100 * c as int + d) == [a, b, c, d]
  {
    LdDef([a, b, c, d], 0);
    WordBack([a, b, c, d]);
  }

  // ---- equal ranges ----

  predicate SameBody(s: seq<byte>, o: int, s': seq<byte>, o': int, n: int) {
    0 <= n && 0 <= o <= |s| - n && 0 <= o' <= |s'| - n && s[o..o + n] == s'[o'..o' + n]
  }

  ghost predicate IsSame(s: seq<byte>, o: int, s': seq<byte>, o': int, n: int, r: bool) {
    (r ==> 0 <= n && 0 <= o <= |s| - n && 0 <= o' <= |s'| - n) && forall z :: Unseal(z) ==>
      r == SameBody(s, o, s', o', n)
  }

  /** s at o and s' at o' hold the same n bytes; sealed. */
  ghost predicate Same(s: seq<byte>, o: int, s': seq<byte>, o': int, n: int)
    ensures Same(s, o, s', o', n) ==> 0 <= n && 0 <= o <= |s| - n && 0 <= o' <= |s'| - n
  {
    assert IsSame(s, o, s', o', n, SameBody(s, o, s', o', n));
    var r :| IsSame(s, o, s', o', n, r);
    r
  }

  lemma {:induction false} SameDef(s: seq<byte>, o: int, s': seq<byte>, o': int, n: int)
    ensures Same(s, o, s', o', n) == SameBody(s, o, s', o', n)
  {
    assert Unseal(0);
  }

  lemma {:induction false} SliceSlice(s: seq<byte>, lo: int, hi: int, i: int, j: int)
    requires 0 <= lo <= hi <= |s| && 0 <= i <= j <= hi - lo
    ensures s[lo..hi][i..j] == s[lo + i..lo + j]
  {
    var x, y := s[lo..hi][i..j], s[lo + i..lo + j];
    assert forall p | 0 <= p < |x| :: x[p] == y[p];
  }

  lemma {:induction false} SamePart(s: seq<byte>, o: int, s': seq<byte>, o': int, n: int, k: int, m: int)
    requires Same(s, o, s', o', n) && 0 <= k && 0 <= m && k + m <= n
    ensures Same(s, o + k, s', o' + k, m)
  {
    SameDef(s, o, s', o', n);
    SameDef(s, o + k, s', o' + k, m);
    SliceSlice(s, o, o + n, k, k + m);
    SliceSlice(s', o', o' + n, k, k + m);
  }

  /** Two sequences that agree on four bytes hold the same word there. */
  lemma {:induction false} LdSame(s: seq<byte>, o: int, s': seq<byte>, o': int)
    requires Same(s, o, s', o', 4)
    ensures Ld32(s, o) == Ld32(s', o')
  {
    LdDef(s, o);
    LdDef(s', o');
    SameDef(s, o, s', o', 4);
    var w, w' := s[o..o + 4], s'[o'..o' + 4];
    assert w[0] == w'[0] && w[1] == w'[1] && w[2] == w'[2] && w[3] == w'[3];
  }

  lemma {:induction false} LdBe32(s: seq<byte>, o: int, v: int)
    requires 0 <= v < 0x1_0000_0000 && 0 <= o <= |s| - 4 && s[o..o + 4] == Be32(v)
    ensures Ld32(s, o) == v
  {
    Be32RoundTrip(v);
    SameDef(s, o, Be32(v), 0, 4);
    LdSame(s, o, Be32(v), 0);
  }

  // ---- alignment ----

  function Four(k: int): int { 4 * k }

  ghost predicate Aligned(n: int) { exists k :: n == Four(k) }

  /** FDT_TAGALIGN. */
  function TagAlign(n: int): int { 4 * ((n + 3) / 4) }

  ghost predicate IsAlign(n: int, r: int) { n <= r < n + 4 && forall z :: Unseal(z) ==> r == TagAlign(n) }

  /** TagAlign, sealed. */
  ghost function Align4(n: int): (r: int)
    ensures n <= r < n + 4
  {
    assert IsAlign(n, TagAlign(n));
    var r :| IsAlign(n, r);
    r
  }

  lemma {:induction false} AlignDef(n: int)
    ensures Align4(n) == TagAlign(n) && Aligned(Align4(n))
  {
    assert Unseal(0);
    assert TagAlign(n) == Four((n + 3) / 4);
  }

  lemma {:induction false} AlignedMod(n: int)
    ensures Aligned(n) <==> n % 4 == 0
  {
    if n % 4 == 0 {
      assert n == Four(n / 4);
    }
  }

  lemma {:induction false} AlignedConst()
    ensures Aligned(0) && Aligned(4) && Aligned(12)
  {
    assert 0 == Four(0) && 4 == Four(1) && 12 == Four(3);
  }

  lemma {:induction false} AlignedAdd(a: int, b: int)
    requires Aligned(a)
    ensures Aligned(a + b) <==> Aligned(b)
    ensures Align4(a + b) == a + Align4(b)
  {
    AlignDef(b);
    AlignDef(a + b);
    var k :| a == Four(k);
    if Aligned(b) {
      var l :| b == Four(l);
      assert a + b == Four(k + l);
    }
    if Aligned(a + b) {
      var l :| a + b == Four(l);
      assert b == Four(l - k);
    }
    assert (a + b + 3) / 4 == k + (b + 3) / 4;
  }

  // ---- writes ----

  /** s with the bytes x written at offset o. */
  function Overwritten(s: seq<byte>, o: int, x: seq<byte>): (r: seq<byte>)
    requires 0 <= o && o + |x| <= |s|
    ensures |r| == |s|
  {
    s[..o] + x + s[o + |x|..]
  }

  ghost predicate IsPut(s: seq<byte>, o: int, x: seq<byte>, r: seq<byte>)
    requires 0 <= o && o + |x| <= |s|
  {
    |r| == |s| && forall z :: Unseal(z) ==> r == Overwritten(s, o, x)
  }

  /** Overwritten, sealed. */
  ghost function Put(s: seq<byte>, o: int, x: seq<byte>): (r: seq<byte>)
    requires 0 <= o && o + |x| <= |s|
    ensures |r| == |s|
  {
    assert IsPut(s, o, x, Overwritten(s, o, x));
    var r :| IsPut(s, o, x, r);
    r
  }

  lemma {:induction false} PutDef(s: seq<byte>, o: int, x: seq<byte>)
    requires 0 <= o && o + |x| <= |s|
    ensures Put(s, o, x) == Overwritten(s, o, x)
  {
    assert Unseal(0);
  }

  /** memmove: n bytes from src to dst, the two ranges may overlap. */
  ghost function Move(s: seq<byte>, dst: int, src: int, n: int): (r: seq<byte>)
    requires 0 <= n && 0 <= src && src + n <= |s| && 0 <= dst && dst + n <= |s|
    ensures |r| == |s|
  {
    Put(s, dst, s[src..src + n])
  }

  lemma {:induction false} PutIndex(s: seq<byte>, o: int, x: seq<byte>, i: int)
    requires 0 <= o && o + |x| <= |s| && 0 <= i < |s|
    ensures Put(s, o, x)[i] == if o <= i < o + |x| then x[i - o] else s[i]
  {
    PutDef(s, o, x);
  }

  lemma {:induction false} PutSlice(s: seq<byte>, o: int, x: seq<byte>, lo: int, hi: int)
    requires 0 <= o && o + |x| <= |s| && 0 <= lo <= hi <= |s| && (hi <= o || o + |x| <= lo)
    ensures Put(s, o, x)[lo..hi] == s[lo..hi]
  {
    PutDef(s, o, x);
  }

  lemma {:induction false} PutInside(s: seq<byte>, o: int, x: seq<byte>)
    requires 0 <= o && o + |x| <= |s|
    ensures Put(s, o, x)[o..o + |x|] == x
  {
    PutDef(s, o, x);
  }

  lemma {:induction false} PutWithin(s: seq<byte>, o: int, x: seq<byte>, lo: int, hi: int)
    requires 0 <= lo <= o && o + |x| <= hi <= |s|
    ensures Put(s, o, x)[lo..hi] == Put(s[lo..hi], o - lo, x)
  {
    PutDef(s, o, x);
    PutDef(s[lo..hi], o - lo, x);
    var r, t := Put(s, o, x)[lo..hi], Put(s[lo..hi], o - lo, x);
    assert forall i | 0 <= i < hi - lo :: r[i] == t[i];
  }

  lemma {:induction false} MoveKeeps(s: seq<byte>, dst: int, src: int, n: int, lo: int, hi: int)
    requires 0 <= n && 0 <= src && src + n <= |s| && 0 <= dst && dst + n <= |s|
    requires 0 <= lo <= hi <= |s| && (hi <= dst || dst + n <= lo)
    ensures Move(s, dst, src, n)[lo..hi] == s[lo..hi]
  {
    PutSlice(s, dst, s[src..src + n], lo, hi);
  }

  lemma {:induction false} MoveNone(s: seq<byte>, dst: int, src: int)
    requires 0 <= src <= |s| && 0 <= dst <= |s|
    ensures Move(s, dst, src, 0) == s
  {
    PutDef(s, dst, s[src..src]);
    assert s[..dst] + [] + s[dst..] == s;
  }

  lemma {:induction false} MoveShifts(s: seq<byte>, dst: int, src: int, n: int, lo: int, hi: int)
    requires 0 <= n && 0 <= src && src + n <= |s| && 0 <= dst && dst + n <= |s|
    requires src <= lo <= hi <= src + n
    ensures Move(s, dst, src, n)[lo - src + dst..hi - src + dst] == s[lo..hi]
  {
    var m := Move(s, dst, src, n);
    PutInside(s, dst, s[src..src + n]);
    SliceSlice(m, dst, dst + n, lo - src, hi - src);
    SliceSlice(s, src, src + n, lo - src, hi - src);
  }

  lemma {:induction false} LdPutOther(s: seq<byte>, o: int, x: seq<byte>, p: int)
    requires 0 <= o && o + |x| <= |s| && 0 <= p <= |s| - 4 && (p + 4 <= o || o + |x| <= p)
    ensures Ld32(Put(s, o, x), p) == Ld32(s, p)
  {
    PutSlice(s, o, x, p, p + 4);
    SameDef(s, p, Put(s, o, x), p, 4);
    LdSame(s, p, Put(s, o, x), p);
  }

  lemma {:induction false} LdPutSame(s: seq<byte>, o: int, v: int)
    requires 0 <= o <= |s| - 4 && 0 <= v < 0x1_0000_0000
    ensures Ld32(Put(s, o, Be32(v)), o) == v
  {
    PutInside(s, o, Be32(v));
    LdBe32(Put(s, o, Be32(v)), o, v);
  }

  lemma {:induction false} SamePut(s: seq<byte>, o: int, s': seq<byte>, o': int, n: int, p: int, x: seq<byte>)
    requires Same(s, o, s', o', n) && 0 <= p && p + |x| <= |s'| && (p + |x| <= o' || o' + n <= p)
    ensures Same(s, o, Put(s', p, x), o', n)
  {
    SameDef(s, o, s', o', n);
    SameDef(s, o, Put(s', p, x), o', n);
    PutSlice(s', p, x, o', o' + n);
  }

  predicate NulFree(s: seq<byte>) { forall i | 0 <= i < |s| :: s[i] != 0 }
}
