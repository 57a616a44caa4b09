/**
  arrayCopy (include/Nova.c): copying between arrays, and opening and closing gaps within
  one. Positions and lengths are in elements of SIZE bytes; memcpy is taken to read its
  whole source before it writes, which C leaves open when the two overlap.
  */
module ArrayCopy {
  import opened ByteOrder

  const SIZE: nat := 8  // sizeof(dest), the size of a pointer

  /** `n` bytes at `i` of `s` replaced by those at `j` of `t`. */
  function Patched(s: seq<Byte>, i: nat, t: seq<Byte>, j: nat, n: nat): (r: seq<Byte>)
    requires i + n <= |s| && j + n <= |t|
    ensures |r| == |s|
  {
    s[..i] + t[j..j + n] + s[i + n..]
  }

  method Memcpy(dest: array<Byte>, i: nat, src: array<Byte>, j: nat, n: nat)
    requires i + n <= dest.Length && j + n <= src.Length
    modifies dest
    ensures dest[..] == Patched(old(dest[..]), i, old(src[..]), j, n)
  {
    var read := src[j..j + n];
    forall k | 0 <= k < n {
      dest[i + k] := read[k];
    }
  }

  /** What every call demands so that it reads and writes inside the arrays. */
  predicate InBounds(same: bool, destLength: nat, dIndex: nat, srcLength: nat, sIndex: nat, len: nat, destLen: nat) {
    if !same then
      (dIndex + len) * SIZE <= destLength && (sIndex + len) * SIZE <= srcLength
    else if dIndex > sIndex then
      dIndex <= destLen && (destLen + len) * SIZE <= destLength
    else if sIndex > dIndex then
      sIndex <= destLen && destLen * SIZE + 1 <= destLength
    else true
  }

  /** Bytes [f, f+n) inserted at `d`, the bytes from there up to `e` moved behind them. */
  function Opened(s: seq<Byte>, d: nat, f: nat, n: nat, e: nat): (r: seq<Byte>)
    requires f <= d <= e && e + n <= |s|
    ensures |r| == |s|
  {
    s[..d] + s[f..f + n] + s[d..e] + s[e + n..]
  }

  /** Bytes [f, e], the last one past the elements included, moved down to `d`. */
  function Closed(s: seq<Byte>, d: nat, f: nat, e: nat): (r: seq<Byte>)
    requires d <= f <= e < |s|
    ensures |r| == |s|
  {
    s[..d] + s[f..e + 1] + s[d + (e + 1 - f)..]
  }

  /** The bytes of the array after a call on one array. */
  function Shifted(s: seq<Byte>, dIndex: nat, sIndex: nat, len: nat, destLen: nat): (r: seq<Byte>)
    requires InBounds(true, |s|, dIndex, |s|, sIndex, len, destLen)
    ensures |r| == |s|
  {
    if dIndex > sIndex then Opened(s, dIndex * SIZE, sIndex * SIZE, len * SIZE, destLen * SIZE)
    else if sIndex > dIndex then Closed(s, dIndex * SIZE, sIndex * SIZE, destLen * SIZE)
    else s
  }

  lemma ThreeMoves(s: seq<Byte>, z: seq<Byte>, d: nat, f: nat, n: nat, e: nat)
    requires d <= e && e + n <= |s| && f <= d && e - d <= |z|
    ensures Patched(Patched(s, d, s, f, n), d + n, Patched(z, 0, s, d, e - d), 0, e - d)
         == Opened(s, d, f, n, e)
  {
    var t := Patched(z, 0, s, d, e - d);
    assert t[0..e - d] == s[d..e];
    var u := Patched(s, d, s, f, n);
    assert u[..d + n] == s[..d] + s[f..f + n];
    assert u[d + n + (e - d)..] == s[e + n..];
  }

  /** The branch for dIndex > sIndex, in bytes: save the tail, copy, put the tail behind. */
  method OpenUp(a: array<Byte>, d: nat, f: nat, n: nat, e: nat)
    requires f <= d <= e && e + n <= a.Length
    modifies a
    ensures a[..] == old(Opened(a[..], d, f, n, e))
  {
    ghost var s := a[..];
    var tmp := new Byte[e * SIZE](_ => 0);
    ghost var z := tmp[..];
    Memcpy(tmp, 0, a, d, e - d);
    ghost var t := tmp[..];
    assert t == Patched(z, 0, s, d, e - d) && a[..] == s;
    Memcpy(a, d, a, f, n);
    ghost var u := a[..];
    assert u == Patched(s, d, s, f, n) && tmp[..] == t;
    Memcpy(a, d + n, tmp, 0, e - d);
    assert a[..] == Patched(u, d + n, t, 0, e - d);
    ThreeMoves(s, z, d, f, n, e);
  }

  method Copy(dest: array<Byte>, dIndex: nat, src: array<Byte>, sIndex: nat, len: nat, destLen: nat)
    requires InBounds(src == dest, dest.Length, dIndex, src.Length, sIndex, len, destLen)
    modifies dest
    ensures src != dest ==>
              dest[..] == Patched(old(dest[..]), dIndex * 8, old(src[..]), sIndex * 8, len * 8)
    ensures src == dest ==> dest[..] == Shifted(old(dest[..]), dIndex, sIndex, len, destLen)
    ensures src == dest && dIndex == sIndex ==> dest[..] == old(dest[..])
  {
    var d, f, n, e := dIndex * SIZE, sIndex * SIZE, len * SIZE, destLen * SIZE;
    if src != dest {
      Memcpy(dest, d, src, f, n);
    } else if dIndex > sIndex {
      OpenUp(dest, d, f, n, e);
    } else if sIndex > dIndex {
      Memcpy(dest, d, src, f, e - f + 1);
    }
  }

  // ----- gaps -------------------------------------------------------------------------------------

  lemma OpenedBytes(a: seq<Byte>, f: nat, d: nat, e: nat)
    requires f <= d <= e && e + (d - f) <= |a|
    ensures var r := Opened(a, d, f, d - f, e);
            r[..d] == a[..d] && r[d..e + (d - f)] == a[f..e] && r[e + (d - f)..] == a[e + (d - f)..]
  {
    assert a[f..e] == a[f..d] + a[d..e];
  }

  lemma ClosedBytes(a: seq<Byte>, d: nat, f: nat, e: nat)
    requires d <= f <= e < |a|
    ensures var r, m := Closed(a, d, f, e), d + (e - f);
            r[..d] == a[..d] && r[d..m] == a[f..e] && r[m] == a[e] && r[m + 1..] == a[m + 1..]
  {
    assert a[f..e + 1] == a[f..e] + [a[e]];
  }

  lemma ClosedAfterOpened(a: seq<Byte>, f: nat, d: nat, e: nat)
    requires f <= d <= e && e + (d - f) < |a|
    ensures Closed(Opened(a, d, f, d - f, e), f, d, e + (d - f))[..e] == a[..e]
  {
    var b := Opened(a, d, f, d - f, e);
    OpenedBytes(a, f, d, e);
    ClosedBytes(b, f, d, e + (d - f));
    var r := Closed(b, f, d, e + (d - f));
    assert f + (e + (d - f) - d) == e;
    assert r[..e] == r[..f] + r[f..e];
    assert a[..e] == a[..f] + a[f..e];
    assert b[..f] == b[..d][..f] == a[..d][..f] == a[..f];
  }

  /** Opening a gap of `k` elements at `s` moves the tail up by `k` and leaves the rest in place. */
  lemma OpensGap(a: seq<Byte>, s: nat, k: nat, destLen: nat)
    requires k > 0 && s + k <= destLen && (destLen + k) * 8 <= |a|
    ensures InBounds(true, |a|, s + k, |a|, s, k, destLen)
    ensures var r := Shifted(a, s + k, s, k, destLen);
            && r[..(s + k) * 8] == a[..(s + k) * 8]
            && r[(s + k) * 8..(destLen + k) * 8] == a[s * 8..destLen * 8]
            && r[(destLen + k) * 8..] == a[(destLen + k) * 8..]
  {
    OpenedBytes(a, s * 8, (s + k) * 8, destLen * 8);
  }

  /** Closing it moves that tail back, and writes one byte past the elements it restores. */
  lemma ClosesGap(a: seq<Byte>, s: nat, k: nat, destLen: nat)
    requires k > 0 && s <= destLen && (destLen + k) * 8 + 1 <= |a|
    ensures InBounds(true, |a|, s, |a|, s + k, destLen + k, destLen + k)
    ensures var r := Shifted(a, s, s + k, destLen + k, destLen + k);
            && r[..s * 8] == a[..s * 8]
            && r[s * 8..destLen * 8] == a[(s + k) * 8..(destLen + k) * 8]
            && r[destLen * 8] == a[(destLen + k) * 8]
            && r[destLen * 8 + 1..] == a[destLen * 8 + 1..]
  {
    ClosedBytes(a, s * 8, (s + k) * 8, (destLen + k) * 8);
  }

  lemma ShiftedOpens(a: seq<Byte>, s: nat, k: nat, destLen: nat)
    requires k > 0 && s + k <= destLen && (destLen + k) * SIZE <= |a|
    ensures var f, d, e := s * SIZE, (s + k) * SIZE, destLen * SIZE;
            Shifted(a, s + k, s, k, destLen) == Opened(a, d, f, d - f, e)
  {
    assert (s + k) * SIZE - s * SIZE == k * SIZE;
  }

  lemma ShiftedCloses(b: seq<Byte>, s: nat, k: nat, destLen: nat)
    requires k > 0 && s + k <= destLen && (destLen + k) * SIZE + 1 <= |b|
    ensures var f, d, e := s * SIZE, (s + k) * SIZE, destLen * SIZE;
            Shifted(b, s, s + k, destLen + k, destLen + k) == Closed(b, f, d, e + (d - f))
  {
    assert destLen * SIZE + ((s + k) * SIZE - s * SIZE) == (destLen + k) * SIZE;
  }

  /** Opening a gap and closing it again restores the elements. */
  lemma CloseUndoesOpen(a: seq<Byte>, s: nat, k: nat, destLen: nat)
    requires k > 0 && s + k <= destLen && (destLen + k) * 8 + 1 <= |a|
    ensures InBounds(true, |a|, s + k, |a|, s, k, destLen)
    ensures InBounds(true, |a|, s, |a|, s + k, destLen + k, destLen + k)
    ensures var b := Shifted(a, s + k, s, k, destLen);
            var r := Shifted(b, s, s + k, destLen + k, destLen + k);
            r[..destLen * 8] == a[..destLen * 8]
  {
    var f, d, e := s * SIZE, (s + k) * SIZE, destLen * SIZE;
    ShiftedOpens(a, s, k, destLen);
    ShiftedCloses(Shifted(a, s + k, s, k, destLen), s, k, destLen);
    ClosedAfterOpened(a, f, d, e);
  }
}
