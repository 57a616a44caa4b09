/**
  Reading and storing little-endian integers byte by byte
  (include/nova_mysql/byte_order_generic.h).
  */
module ByteOrder {
  import opened NumberTheory

  newtype Byte = b: int | 0 <= b < 256

  const SPACE: Byte := 0x20

  /** uint2korr, uint4korr, uint8korr at offset `i`. */
  function Uint2Korr(a: seq<Byte>, i: nat): nat
    requires i + 2 <= |a|
  {
    a[i] as nat + a[i + 1] as nat * 0x100
  }

  function Uint4Korr(a: seq<Byte>, i: nat): (u: nat)
    requires i + 4 <= |a|
    ensures u < 0x1_0000_0000
  {
    a[i] as nat + a[i + 1] as nat * 0x100 + a[i + 2] as nat * 0x1_0000 + a[i + 3] as nat * 0x100_0000
  }

  function Uint8Korr(a: seq<Byte>, i: nat): nat
    requires i + 8 <= |a|
  {
    Uint4Korr(a, i) + Uint4Korr(a, i + 4) * 0x1_0000_0000
  }

  /** The signed reading of an unsigned value of modulus `m`: sint2korr, sint4korr, sint8korr. */
  function Signed(u: nat, m: nat): int {
    if 2 * u >= m then u - m else u
  }

  function ByteOf(v: nat): Byte {
    (v % 256) as Byte
  }

  /** What int2store leaves in the buffer. */
  function Stored2(a: seq<Byte>, i: nat, v: nat): (r: seq<Byte>)
    requires i + 2 <= |a|
    ensures |r| == |a|
  {
    a[i := ByteOf(v)][i + 1 := ByteOf(v / 0x100)]
  }

  /** int2store. */
  method Int2Store(t: array<Byte>, i: nat, v: nat)
    requires i + 2 <= t.Length && v < 0x1_0000
    modifies t
    ensures t[..] == Stored2(old(t[..]), i, v)
    ensures Uint2Korr(t[..], i) == v
  {
    LoadAfterStore2(t[..], i, v);
    t[i] := ByteOf(v);
    t[i + 1] := ByteOf(v / 0x100);
  }

  /** What int4store leaves in the buffer. */
  function Stored4(a: seq<Byte>, i: nat, v: nat): (r: seq<Byte>)
    requires i + 4 <= |a|
    ensures |r| == |a|
  {
    a[i := ByteOf(v)][i + 1 := ByteOf(v / 0x100)][i + 2 := ByteOf(v / 0x1_0000)][i + 3 := ByteOf(v / 0x100_0000)]
  }

  /** int4store. */
  method Int4Store(t: array<Byte>, i: nat, v: nat)
    requires i + 4 <= t.Length && v < 0x1_0000_0000
    modifies t
    ensures t[..] == Stored4(old(t[..]), i, v)
    ensures Uint4Korr(t[..], i) == v
  {
    LoadAfterStore4(t[..], i, v);
    t[i] := ByteOf(v);
    t[i + 1] := ByteOf(v / 0x100);
    t[i + 2] := ByteOf(v / 0x1_0000);
    t[i + 3] := ByteOf(v / 0x100_0000);
  }

  /** int8store: the low half, then the high half. */
  function Stored8(a: seq<Byte>, i: nat, v: nat): (r: seq<Byte>)
    requires i + 8 <= |a|
    ensures |r| == |a|
  {
    Stored4(Stored4(a, i, v % 0x1_0000_0000), i + 4, v / 0x1_0000_0000)
  }

  method Int8Store(t: array<Byte>, i: nat, v: nat)
    requires i + 8 <= t.Length && v < 0x1_0000_0000_0000_0000
    modifies t
    ensures t[..] == Stored8(old(t[..]), i, v)
    ensures Uint8Korr(t[..], i) == v
  {
    LoadAfterStore8(t[..], i, v);
    Int4Store(t, i, v % 0x1_0000_0000);
    Int4Store(t, i + 4, v / 0x1_0000_0000);
  }

  // ----- round trips -----------------------------------------------------------------------

  lemma FourDigits(v: nat)
    requires v < 0x1_0000_0000
    ensures v == v % 256 + (v / 0x100) % 256 * 0x100 + (v / 0x1_0000) % 256 * 0x1_0000
                 + (v / 0x100_0000) % 256 * 0x100_0000
  {
    var a, b, c := v / 0x100, v / 0x1_0000, v / 0x100_0000;
    assert b == a / 0x100 && c == b / 0x100;
    assert v == a * 0x100 + v % 256 && a == b * 0x100 + a % 256 && b == c * 0x100 + b % 256;
  }

  /** Reading back what was stored gives the value. */
  lemma LoadAfterStore4(a: seq<Byte>, i: nat, v: nat)
    requires i + 4 <= |a| && v < 0x1_0000_0000
    ensures Uint4Korr(Stored4(a, i, v), i) == v
  {
    FourDigits(v);
  }

  lemma LoadAfterStore2(a: seq<Byte>, i: nat, v: nat)
    requires i + 2 <= |a| && v < 0x1_0000
    ensures Uint2Korr(Stored2(a, i, v), i) == v
  {}

  lemma LoadAfterStore8(a: seq<Byte>, i: nat, v: nat)
    requires i + 8 <= |a| && v < 0x1_0000_0000_0000_0000
    ensures Uint8Korr(Stored8(a, i, v), i) == v
    ensures forall j :: 0 <= j < |a| && !(i <= j < i + 8) ==> Stored8(a, i, v)[j] == a[j]
  {
    var lo, hi := v % 0x1_0000_0000, v / 0x1_0000_0000;
    var m := Stored4(a, i, lo);
    LoadAfterStore4(a, i, lo);
    LoadAfterStore4(m, i + 4, hi);
    var r := Stored4(m, i + 4, hi);
    assert r[i] == m[i] && r[i + 1] == m[i + 1] && r[i + 2] == m[i + 2] && r[i + 3] == m[i + 3];
  }

  lemma SignedOfWrapped(v: int, m: int)
    requires m > 0 && -m <= 2 * v < m
    ensures Signed(v % m, m) == v
  {
    if v >= 0 {
      DivModUnique(v, m, 0, v);
    } else {
      DivModUnique(v, m, -1, v + m);
    }
  }

  /** Signed values survive the way through the unsigned store: sint2korr, sint4korr, sint8korr. */
  lemma SignedLoadAfterStore(a: seq<Byte>, i: nat, v: int)
    ensures i + 2 <= |a| && -0x8000 <= v < 0x8000 ==>
              Signed(Uint2Korr(Stored2(a, i, v % 0x1_0000), i), 0x1_0000) == v
    ensures i + 4 <= |a| && -0x8000_0000 <= v < 0x8000_0000 ==>
              Signed(Uint4Korr(Stored4(a, i, v % 0x1_0000_0000), i), 0x1_0000_0000) == v
    ensures i + 8 <= |a| && -0x8000_0000_0000_0000 <= v < 0x8000_0000_0000_0000 ==>
              var u := v % 0x1_0000_0000_0000_0000;
              Signed(Uint8Korr(Stored8(a, i, u), i), 0x1_0000_0000_0000_0000) == v
  {
    if i + 2 <= |a| && -0x8000 <= v < 0x8000 {
      SignedOfWrapped(v, 0x1_0000);
      LoadAfterStore2(a, i, v % 0x1_0000);
    }
    if i + 4 <= |a| && -0x8000_0000 <= v < 0x8000_0000 {
      SignedOfWrapped(v, 0x1_0000_0000);
      LoadAfterStore4(a, i, v % 0x1_0000_0000);
    }
    if i + 8 <= |a| && -0x8000_0000_0000_0000 <= v < 0x8000_0000_0000_0000 {
      SignedOfWrapped(v, 0x1_0000_0000_0000_0000);
      LoadAfterStore8(a, i, v % 0x1_0000_0000_0000_0000);
    }
  }

  /** A byte counts 256 times the one before it: the first is the lowest. */
  lemma LittleEndian(a: seq<Byte>, j: nat, v: Byte)
    requires j < |a| && forall k :: 0 <= k < |a| ==> a[k] == if k == j then v else 0
    ensures |a| == 2 ==> Uint2Korr(a, 0) == v as nat * Pow(256, j)
    ensures |a| == 4 ==> Uint4Korr(a, 0) == v as nat * Pow(256, j)
    ensures |a| == 8 ==> Uint8Korr(a, 0) == v as nat * Pow(256, j)
  {
    PowersOf256();
  }

  lemma PowersOf256()
    ensures Pow(256, 0) == 1 && Pow(256, 1) == 0x100 && Pow(256, 2) == 0x1_0000 && Pow(256, 3) == 0x100_0000
    ensures Pow(256, 4) == 0x1_0000_0000 && Pow(256, 5) == 0x100_0000_0000
    ensures Pow(256, 6) == 0x1_0000_0000_0000 && Pow(256, 7) == 0x100_0000_0000_0000
  {
    assert Pow(256, 4) == 0x1_0000_0000;
  }

  /** Two-digit numbers to base `m` are equal only digit by digit. */
  lemma DigitsUnique(lo: nat, hi: nat, lo': nat, hi': nat, m: nat)
    requires lo < m && lo' < m && lo + hi * m == lo' + hi' * m
    ensures lo == lo' && hi == hi'
  {
    DivModUnique(lo + hi * m, m, hi, lo);
    DivModUnique(lo' + hi' * m, m, hi', lo');
  }

  /** Different bytes read as different values. */
  lemma Uint4Injective(a: seq<Byte>, i: nat, b: seq<Byte>, j: nat)
    requires i + 4 <= |a| && j + 4 <= |b| && Uint4Korr(a, i) == Uint4Korr(b, j)
    ensures a[i..i + 4] == b[j..j + 4]
  {
    var a0, a1, a2, a3 := a[i] as nat, a[i + 1] as nat, a[i + 2] as nat, a[i + 3] as nat;
    var b0, b1, b2, b3 := b[j] as nat, b[j + 1] as nat, b[j + 2] as nat, b[j + 3] as nat;
    DigitsUnique(a0, a1 + a2 * 0x100 + a3 * 0x1_0000, b0, b1 + b2 * 0x100 + b3 * 0x1_0000, 0x100);
    DigitsUnique(a1, a2 + a3 * 0x100, b1, b2 + b3 * 0x100, 0x100);
    DigitsUnique(a2, a3, b2, b3, 0x100);
  }

  lemma Uint8Injective(a: seq<Byte>, i: nat, b: seq<Byte>, j: nat)
    requires i + 8 <= |a| && j + 8 <= |b| && Uint8Korr(a, i) == Uint8Korr(b, j)
    ensures a[i..i + 8] == b[j..j + 8]
  {
    DigitsUnique(Uint4Korr(a, i), Uint4Korr(a, i + 4), Uint4Korr(b, j), Uint4Korr(b, j + 4), 0x1_0000_0000);
    Uint4Injective(a, i, b, j);
    Uint4Injective(a, i + 4, b, j + 4);
    assert a[i..i + 8] == a[i..i + 4] + a[i + 4..i + 8];
    assert b[j..j + 8] == b[j..j + 4] + b[j + 4..j + 8];
  }

  /** Storing back what was read leaves the buffer as it was. */
  lemma StoreAfterLoad8(a: seq<Byte>, i: nat)
    requires i + 8 <= |a|
    ensures Uint8Korr(a, i) < 0x1_0000_0000_0000_0000
    ensures Stored8(a, i, Uint8Korr(a, i)) == a
  {
    var v := Uint8Korr(a, i);
    LoadAfterStore8(a, i, v);
    var r := Stored8(a, i, v);
    Uint8Injective(r, i, a, i);
    forall j | 0 <= j < |a|
      ensures r[j] == a[j]
    {
      if i <= j < i + 8 {
        assert r[i..i + 8][j - i] == a[i..i + 8][j - i];
      }
    }
  }
}
