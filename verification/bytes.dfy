/**
  Bytes, exclusive or, big-endian numbers and substring search: the vocabulary
  shared by every wire format of the server.
 */
module Bytes {

  type Byte = b: int | 0 <= b < 0x100
  type U16 = n: int | 0 <= n < 0x1_0000
  type U32 = n: int | 0 <= n < 0x1_0000_0000
  type U64 = n: int | 0 <= n < 0x1_0000_0000_0000_0000

  datatype Option<+T> = None | Some(value: T)

  // ----- exclusive or -------------------------------------------------------

  function Pow2(n: nat): (p: nat)
    ensures p > 0
  {
    if n == 0 then 1 else 2 * Pow2(n - 1)
  }

  /** Exclusive or of the `w` low-order bits of `a` and `b`. */
  function XorBits(w: nat, a: nat, b: nat): (r: nat)
    ensures r < Pow2(w)
  {
    if w == 0 then 0
    else (if a % 2 == b % 2 then 0 else 1) + 2 * XorBits(w - 1, a / 2, b / 2)
  }

  function Xor(a: Byte, b: Byte): Byte {
    assert Pow2(8) == 0x100;
    XorBits(8, a, b)
  }

  lemma {:induction false} XorBitsAssoc(w: nat, a: nat, b: nat, c: nat)
    ensures XorBits(w, XorBits(w, a, b), c) == XorBits(w, a, XorBits(w, b, c))
  {
    if w == 0 {
    } else {
      var x, y := XorBits(w, a, b), XorBits(w, b, c);
      assert x / 2 == XorBits(w - 1, a / 2, b / 2) && x % 2 == (if a % 2 == b % 2 then 0 else 1);
      assert y / 2 == XorBits(w - 1, b / 2, c / 2) && y % 2 == (if b % 2 == c % 2 then 0 else 1);
      XorBitsAssoc(w - 1, a / 2, b / 2, c / 2);
    }
  }

  lemma XorBitsLaws(w: nat, a: nat, b: nat)
    ensures XorBits(w, a, b) == XorBits(w, b, a)
    ensures XorBits(w, a, a) == 0
    ensures a < Pow2(w) ==> XorBits(w, a, 0) == a
  {}

  /** Exclusive or makes the bytes an abelian group in which every byte is its own inverse. */
  lemma XorGroup(a: Byte, b: Byte, c: Byte)
    ensures Xor(Xor(a, b), c) == Xor(a, Xor(b, c))
    ensures Xor(a, b) == Xor(b, a)
    ensures Xor(a, a) == 0 && Xor(a, 0) == a == Xor(0, a)
  {
    XorBitsAssoc(8, a, b, c);
    XorBitsLaws(8, a, b);
    XorBitsLaws(8, a, 0);
    assert Pow2(8) == 0x100;
  }

  /** Bit `k` of a number, the lowest being bit 0. */
  predicate Bit(n: nat, k: nat) {
    if k == 0 then n % 2 == 1 else Bit(n / 2, k - 1)
  }

  lemma {:induction false} XorBitsBitwise(w: nat, a: nat, b: nat, k: nat)
    requires k < w
    ensures Bit(XorBits(w, a, b), k) <==> Bit(a, k) != Bit(b, k)
  {
    var r := XorBits(w, a, b);
    assert r / 2 == XorBits(w - 1, a / 2, b / 2) && r % 2 == (if a % 2 == b % 2 then 0 else 1);
    if k == 0 {
    } else {
      XorBitsBitwise(w - 1, a / 2, b / 2, k - 1);
    }
  }

  /** A bit of the result is set exactly when it is set in one operand and not in the other. */
  lemma XorBitwise(a: Byte, b: Byte, k: nat)
    requires k < 8
    ensures Bit(Xor(a, b), k) <==> Bit(a, k) != Bit(b, k)
  {
    XorBitsBitwise(8, a, b, k);
  }

  lemma XorCancel(a: Byte, b: Byte)
    ensures Xor(a, b) == 0 <==> a == b
    ensures Xor(Xor(a, b), b) == a && Xor(a, Xor(a, b)) == b
  {
    XorGroup(a, b, b);
    XorGroup(a, a, b);
    XorGroup(b, a, a);
  }

  /** The exclusive or of all bytes of a sequence. */
  function Xors(s: seq<Byte>): Byte {
    if s == [] then 0 else Xor(s[0], Xors(s[1..]))
  }

  lemma {:induction false} XorsConcat(s: seq<Byte>, t: seq<Byte>)
    ensures Xors(s + t) == Xor(Xors(s), Xors(t))
  {
    if s == [] {
      assert s + t == t;
      XorGroup(Xors(t), 0, 0);
    } else {
      assert (s + t)[1..] == s[1..] + t;
      XorsConcat(s[1..], t);
      XorGroup(s[0], Xors(s[1..]), Xors(t));
    }
  }

  lemma XorsOne(b: Byte)
    ensures Xors([b]) == b
  {
    XorGroup(b, 0, 0);
  }

  /** Replacing one byte by a different one always changes the exclusive or. */
  lemma XorsSensitive(s: seq<Byte>, i: nat, b: Byte)
    requires i < |s| && b != s[i]
    ensures Xors(s[i := b]) != Xors(s)
  {
    var l, r := s[..i], s[i + 1..];
    assert s == l + [s[i]] + r;
    assert s[i := b] == l + [b] + r;
    forall x: Byte
      ensures Xors(l + [x] + r) == Xor(x, Xor(Xors(l), Xors(r)))
    {
      XorsConcat(l + [x], r);
      XorsConcat(l, [x]);
      XorsOne(x);
      XorGroup(x, Xors(l), Xors(r));
      XorGroup(Xors(l), x, 0);
    }
    var k := Xor(Xors(l), Xors(r));
    XorCancel(b, k);
    XorCancel(s[i], k);
  }

  // ----- big-endian numbers -------------------------------------------------

  function Pow256(k: nat): (p: nat)
    ensures p > 0
  {
    if k == 0 then 1 else 0x100 * Pow256(k - 1)
  }

  /** The number whose big-endian representation is `s`. */
  function BigEndian(s: seq<Byte>): (n: nat)
    ensures n < Pow256(|s|)
  {
    if s == [] then 0 else 0x100 * BigEndian(s[..|s| - 1]) + s[|s| - 1]
  }

  /** The `k` low-order bytes of `n`, most significant first. */
  function ToBigEndian(n: nat, k: nat): (s: seq<Byte>)
    ensures |s| == k
  {
    if k == 0 then [] else ToBigEndian(n / 0x100, k - 1) + [n % 0x100]
  }

  lemma {:induction false} BigEndianRoundTrip(n: nat, k: nat)
    requires n < Pow256(k)
    ensures BigEndian(ToBigEndian(n, k)) == n
  {
    if k == 0 {
    } else {
      BigEndianRoundTrip(n / 0x100, k - 1);
      assert ToBigEndian(n, k)[..k - 1] == ToBigEndian(n / 0x100, k - 1);
    }
  }

  lemma {:induction false} ToBigEndianRoundTrip(s: seq<Byte>)
    ensures ToBigEndian(BigEndian(s), |s|) == s
  {
    if s == [] {
    } else {
      var t, b := s[..|s| - 1], s[|s| - 1];
      ToBigEndianRoundTrip(t);
      assert BigEndian(s) == 0x100 * BigEndian(t) + b;
      assert BigEndian(s) / 0x100 == BigEndian(t) && BigEndian(s) % 0x100 == b;
      assert s == t + [b];
    }
  }

  function PutU16(n: U16): (s: seq<Byte>)
    ensures |s| == 2
  {
    ToBigEndian(n, 2)
  }

  function PutU32(n: U32): (s: seq<Byte>)
    ensures |s| == 4
  {
    ToBigEndian(n, 4)
  }

  function PutU64(n: U64): (s: seq<Byte>)
    ensures |s| == 8
  {
    ToBigEndian(n, 8)
  }

  function U16At(s: seq<Byte>, i: nat): U16
    requires i + 2 <= |s|
  {
    assert Pow256(2) == 0x1_0000;
    BigEndian(s[i..i + 2])
  }

  function U32At(s: seq<Byte>, i: nat): U32
    requires i + 4 <= |s|
  {
    assert Pow256(4) == 0x1_0000_0000;
    BigEndian(s[i..i + 4])
  }

  function U64At(s: seq<Byte>, i: nat): U64
    requires i + 8 <= |s|
  {
    assert Pow256(8) == 0x1_0000_0000_0000_0000;
    BigEndian(s[i..i + 8])
  }

  /** The most significant byte comes first. */
  lemma U16Value(s: seq<Byte>, i: nat)
    requires i + 2 <= |s|
    ensures U16At(s, i) == 0x100 * (s[i] as int) + s[i + 1]
  {
    var t := s[i..i + 2];
    assert t[..1][..0] == [];
    assert BigEndian(t[..1]) == t[0];
  }

  lemma U32Value(s: seq<Byte>, i: nat)
    requires i + 4 <= |s|
    ensures U32At(s, i) == 0x1_0000 * U16At(s, i) + U16At(s, i + 2)
  {
    U16Value(s, i);
    U16Value(s, i + 2);
    var t := s[i..i + 4];
    assert t[..3][..2] == s[i..i + 2] && t[..3] == t[..4 - 1];
    assert BigEndian(t[..3]) == 0x100 * BigEndian(t[..3][..2]) + t[2];
  }

  lemma U64Value(s: seq<Byte>, i: nat)
    requires i + 8 <= |s|
    ensures U64At(s, i) == 0x1_0000_0000 * U32At(s, i) + U32At(s, i + 4)
  {
    U32Value(s, i + 4);
    U16Value(s, i + 4);
    U16Value(s, i + 6);
    var t := s[i..i + 8];
    Shorter(t, 7);
    Shorter(t, 6);
    Shorter(t, 5);
    assert BigEndian(t) == 0x100 * BigEndian(t[..7]) + t[7];
    assert t[..4] == s[i..i + 4];
  }

  lemma Shorter(t: seq<Byte>, k: nat)
    requires 0 < k <= |t|
    ensures BigEndian(t[..k]) == 0x100 * BigEndian(t[..k - 1]) + t[k - 1]
  {
    assert t[..k][..k - 1] == t[..k - 1];
  }

  lemma U16Stored(s: seq<Byte>, i: nat, n: U16)
    requires i + 2 <= |s| && s[i..i + 2] == PutU16(n)
    ensures U16At(s, i) == n
  {
    assert Pow256(2) == 0x1_0000;
    BigEndianRoundTrip(n, 2);
  }

  lemma U32Stored(s: seq<Byte>, i: nat, n: U32)
    requires i + 4 <= |s| && s[i..i + 4] == PutU32(n)
    ensures U32At(s, i) == n
  {
    assert Pow256(4) == 0x1_0000_0000;
    BigEndianRoundTrip(n, 4);
  }

  lemma U64Stored(s: seq<Byte>, i: nat, n: U64)
    requires i + 8 <= |s| && s[i..i + 8] == PutU64(n)
    ensures U64At(s, i) == n
  {
    assert Pow256(8) == 0x1_0000_0000_0000_0000;
    BigEndianRoundTrip(n, 8);
  }

  // ----- substring search ---------------------------------------------------

  predicate MatchAt(s: seq<Byte>, pat: seq<Byte>, i: int) {
    0 <= i && i + |pat| <= |s| && s[i..i + |pat|] == pat
  }

  lemma MatchAtByte(s: seq<Byte>, pat: seq<Byte>, i: nat, j: nat)
    requires i + j < |s| && j < |pat|
    ensures MatchAt(s, pat, i) ==> s[i + j] == pat[j]
  {
    assert i + |pat| <= |s| ==> s[i + j] == s[i..i + |pat|][j];
  }

  /** Python's `s.find(pat, from)`: the least index not below `from` where `pat` occurs, else -1. */
  function Find(s: seq<Byte>, pat: seq<Byte>, from: nat): (r: int)
    ensures r == -1 || (from <= r && MatchAt(s, pat, r))
    ensures forall j :: from <= j && (r == -1 || j < r) ==> !MatchAt(s, pat, j)
    decreases |s| - from
  {
    if |s| < from + |pat| then -1
    else if MatchAt(s, pat, from) then from
    else Find(s, pat, from + 1)
  }

  lemma FindIs(s: seq<Byte>, pat: seq<Byte>, from: nat, k: nat)
    requires from <= k && MatchAt(s, pat, k)
    requires forall j :: from <= j < k ==> !MatchAt(s, pat, j)
    ensures Find(s, pat, from) == k
  {}

  /** Appending bytes keeps every match that was there. */
  lemma MatchExtend(s: seq<Byte>, t: seq<Byte>, pat: seq<Byte>, i: int)
    requires i + |pat| <= |s|
    ensures MatchAt(s + t, pat, i) == MatchAt(s, pat, i)
  {
    if 0 <= i {
      assert (s + t)[i..i + |pat|] == s[i..i + |pat|];
    }
  }

  /** A match in a suffix of a sequence is a match in the sequence. */
  lemma MatchSuffix(s: seq<Byte>, k: nat, pat: seq<Byte>, i: nat)
    requires k <= |s|
    ensures MatchAt(s[k..], pat, i) == MatchAt(s, pat, k + i)
  {
    if k + i + |pat| <= |s| {
      assert s[k..][i..i + |pat|] == s[k + i..k + i + |pat|];
    }
  }

  /** A match inside a slice of a sequence is a match in the sequence. */
  lemma MatchSlice(s: seq<Byte>, i: nat, j: nat, pat: seq<Byte>, k: nat)
    requires i <= j <= |s| && k + |pat| <= j - i
    ensures MatchAt(s[i..j], pat, k) == MatchAt(s, pat, i + k)
  {
    assert s[i..j] == s[..j][i..];
    MatchSuffix(s[..j], i, pat, k);
    assert s == s[..j] + s[j..];
    MatchExtend(s[..j], s[j..], pat, i + k);
  }

  /** A match found in a prefix is the match found in the whole. */
  lemma FindExtend(s: seq<Byte>, t: seq<Byte>, pat: seq<Byte>, from: nat)
    requires Find(s, pat, from) != -1
    ensures Find(s + t, pat, from) == Find(s, pat, from)
  {
    var k := Find(s, pat, from);
    MatchExtend(s, t, pat, k);
    forall j | from <= j < k
      ensures !MatchAt(s + t, pat, j)
    {
      MatchExtend(s, t, pat, j);
    }
    FindIs(s + t, pat, from, k);
  }

  /** Searching from `k` is searching the suffix that starts at `k`. */
  lemma FindSuffix(s: seq<Byte>, k: nat, pat: seq<Byte>, from: nat)
    requires k <= |s|
    ensures Find(s[k..], pat, from) == (if Find(s, pat, k + from) == -1 then -1 else Find(s, pat, k + from) - k)
  {
    var r := Find(s, pat, k + from);
    forall j: nat
      ensures MatchAt(s[k..], pat, j) == MatchAt(s, pat, k + j)
    {
      MatchSuffix(s, k, pat, j);
    }
    if r != -1 {
      assert MatchAt(s[k..], pat, r - k);
      FindIs(s[k..], pat, from, r - k);
    }
  }

  /** Where nothing matches before `k`, searching may as well start there. */
  lemma FindPast(s: seq<Byte>, pat: seq<Byte>, k: nat)
    requires forall i :: 0 <= i < k ==> !MatchAt(s, pat, i)
    ensures Find(s, pat, 0) == Find(s, pat, k)
  {
    hide Find, MatchAt;
    var r := Find(s, pat, k);
    if r != -1 {
      FindIs(s, pat, 0, r);
    }
  }

  /** Python's `s.find(b, from)` for a single byte: the least index not below `from` holding `b`, else -1. */
  function FindByte(s: seq<Byte>, b: Byte, from: nat): (r: int)
    ensures r == -1 || (from <= r < |s| && s[r] == b)
    ensures forall j :: from <= j < |s| && (r == -1 || j < r) ==> s[j] != b
    decreases |s| - from
  {
    if |s| <= from then -1
    else if s[from] == b then from
    else FindByte(s, b, from + 1)
  }

  lemma FindByteAbsent(s: seq<Byte>, b: Byte, from: nat)
    requires from <= |s| && b !in s[from..]
    ensures FindByte(s, b, from) == -1
  {
    hide FindByte;
    forall j | from <= j < |s|
      ensures s[j] != b
    {
      assert s[j] == s[from..][j - from];
    }
  }

  /** The first `b` in `p + [b] + t` when `p` is free of `b`. */
  lemma FindByteAfter(p: seq<Byte>, b: Byte, t: seq<Byte>, from: nat)
    requires from <= |p| && b !in p[from..]
    ensures FindByte(p + [b] + t, b, from) == |p|
  {
    hide FindByte;
    var s := p + [b] + t;
    assert s[|p|] == b;
    forall j | from <= j < |p|
      ensures s[j] != b
    {
      assert s[j] == p[j] == p[from..][j - from];
    }
  }

  /** Nothing is found in a prefix free of `b`; what follows is searched from its start. */
  lemma FindByteSkip(p: seq<Byte>, b: Byte, t: seq<Byte>)
    requires b !in p
    ensures FindByte(p + t, b, 0) == if FindByte(t, b, 0) == -1 then -1 else |p| + FindByte(t, b, 0)
  {
    hide FindByte;
    var s, r := p + t, FindByte(t, b, 0);
    forall j | 0 <= j < |s| && (r == -1 || j < |p| + r)
      ensures s[j] != b
    {
      assert s[j] == if j < |p| then p[j] else t[j - |p|];
    }
    assert r != -1 ==> s[|p| + r] == b;
  }

  // ----- concatenation ------------------------------------------------------

  function Flatten<T>(ss: seq<seq<T>>): seq<T> {
    if ss == [] then [] else ss[0] + Flatten(ss[1..])
  }

  lemma {:induction false} FlattenConcat<T>(ss: seq<seq<T>>, tt: seq<seq<T>>)
    ensures Flatten(ss + tt) == Flatten(ss) + Flatten(tt)
  {
    if ss == [] {
      assert ss + tt == tt;
    } else {
      assert (ss + tt)[1..] == ss[1..] + tt;
      FlattenConcat(ss[1..], tt);
      assert ss[0] + (Flatten(ss[1..]) + Flatten(tt)) == ss[0] + Flatten(ss[1..]) + Flatten(tt);
    }
  }
}
