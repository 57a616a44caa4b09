/**
  skip_trailing_space in both its forms (include/nova_mysql/m_string.h). `s` is the
  string; positions count from its start, so a read before `ptr` would be out of range.
  */
module TrailingSpace {
  import opened ByteOrder
  import opened NumberTheory

  /** The plain backward scan from position `end`. */
  function TrimEnd(s: seq<Byte>, end: nat): (r: nat)
    requires end <= |s|
    ensures r <= end
  {
    if end > 0 && s[end - 1] == SPACE then TrimEnd(s, end - 1) else end
  }

  /** It stops right after the last byte that is not a space. */
  lemma {:induction false} TrimEndIsLastNonSpace(s: seq<Byte>, end: nat, r: nat)
    requires r <= end <= |s|
    ensures r == TrimEnd(s, end) <==>
            (forall i :: r <= i < end ==> s[i] == 0x20) && (r > 0 ==> s[r - 1] != 0x20)
    decreases end
  {
    if end > 0 && s[end - 1] == SPACE && r < end {
      TrimEndIsLastNonSpace(s, end - 1, r);
    }
  }

  predicate AllSpaces(s: seq<Byte>, lo: nat, hi: nat)
    requires hi <= |s|
  {
    forall i :: lo <= i < hi ==> s[i] == SPACE
  }

  lemma {:induction false} TrimOverSpaces(s: seq<Byte>, lo: nat, end: nat)
    requires lo <= end <= |s| && AllSpaces(s, lo, end)
    ensures TrimEnd(s, end) == TrimEnd(s, lo)
    decreases end
  {
    if lo < end {
      TrimOverSpaces(s, lo, end - 1);
    }
  }

  const SPACES_8: nat := 0x2020_2020_2020_2020

  /** The eight-byte test accepts exactly eight spaces. */
  lemma EightSpaces(s: seq<Byte>, i: nat)
    requires i + 8 <= |s|
    ensures Uint8Korr(s, i) == SPACES_8 <==> AllSpaces(s, i, i + 8)
  {
    var blank := seq(8, _ => SPACE);
    assert Uint8Korr(blank, 0) == SPACES_8;
    if Uint8Korr(s, i) == SPACES_8 {
      Uint8Injective(s, i, blank, 0);
      forall j | i <= j < i + 8
        ensures s[j] == SPACE
      {
        assert s[j] == s[i..i + 8][j - i];
      }
    }
  }

  /** skip_trailing_space reading eight bytes at a time. */
  method SkipTrailingSpace(s: seq<Byte>) returns (end: nat)
    ensures end == TrimEnd(s, |s|)
  {
    end := |s|;
    while end >= 8
      invariant end <= |s| && TrimEnd(s, end) == TrimEnd(s, |s|)
    {
      EightSpaces(s, end - 8);
      if Uint8Korr(s, end - 8) != SPACES_8 {
        break;
      }
      TrimOverSpaces(s, end - 8, end);
      end := end - 8;
    }
    while end > 0 && s[end - 1] == SPACE
      invariant end <= |s| && TrimEnd(s, end) == TrimEnd(s, |s|)
    {
      end := end - 1;
    }
  }

  // ----- the aligned form -------------------------------------------------------------------

  /** A word of `w` bytes as a big-endian machine reads it. */
  function WordAt(s: seq<Byte>, i: nat, w: nat): nat
    requires i + w <= |s|
  {
    if w == 0 then 0 else WordAt(s, i, w - 1) * 256 + s[i + w - 1] as nat
  }

  /** A word of `w` spaces. */
  function SpaceInt(w: nat): nat {
    if w == 0 then 0 else SpaceInt(w - 1) * 256 + 0x20
  }

  /** SPACE_INT. */
  function SpaceIntConstant(sizeofInt: nat): nat {
    if sizeofInt == 4 then 0x2020_2020 else 0x2020_2020_2020_2020
  }

  lemma SpaceIntConstants()
    ensures SpaceInt(4) == SpaceIntConstant(4) && SpaceInt(8) == SpaceIntConstant(8)
  {
    assert SpaceInt(2) == 0x2020;
    assert SpaceInt(4) == 0x2020_2020;
    assert SpaceInt(6) == 0x2020_2020_2020;
  }

  lemma {:induction false} WordOfSpaces(s: seq<Byte>, i: nat, w: nat)
    requires i + w <= |s|
    ensures WordAt(s, i, w) == SpaceInt(w) <==> AllSpaces(s, i, i + w)
  {
    if w > 0 {
      WordOfSpaces(s, i, w - 1);
    }
  }

  /** The multiples of the word size next to an address, and the gap between two multiples. */
  lemma Alignment(x: nat, w: nat)
    requires w > 0
    ensures x - w < x / w * w <= x && (x / w * w) % w == 0
    ensures x <= (x + w - 1) / w * w < x + w && ((x + w - 1) / w * w) % w == 0
  {
    var y := x + w - 1;
    RemainderRange(x, w);
    RemainderRange(y, w);
    DivModUnique(x / w * w, w, x / w, 0);
    DivModUnique(y / w * w, w, y / w, 0);
  }

  lemma AlignedGap(a: nat, b: nat, w: nat)
    requires w > 0 && a % w == 0 && b % w == 0 && a < b
    ensures a <= b - w && (b - w) % w == 0
  {
    var p, q := a / w, b / w;
    assert a == p * w && b == q * w;
    GapOfMultiples(p, q, w);
    assert b - w == (q - 1) * w;
    DivModUnique(b - w, w, q - 1, 0);
  }

  lemma GapOfMultiples(p: int, q: int, w: int)
    requires w > 0 && p * w < q * w
    ensures p * w <= q * w - w
  {
    PositiveFactor(q - p, w);
    ProductOfNonNegatives(q - p - 1, w);
  }

  lemma PositiveFactor(x: int, w: int)
    requires w > 0 && x * w > 0
    ensures x > 0
  {}

  lemma ProductOfNonNegatives(x: int, w: int)
    requires x >= 0 && w >= 0
    ensures x * w >= 0
  {}

  /** skip_trailing_space on machines that need aligned words; `ptr` is the string's address. */
  method SkipTrailingSpaceAligned(s: seq<Byte>, ptr: nat, sizeofInt: nat) returns (end: nat)
    requires sizeofInt == 4 || sizeofInt == 8
    ensures end == TrimEnd(s, |s|)
  {
    end := |s|;
    if |s| > 20 {
      var endWords := (ptr + |s|) / sizeofInt * sizeofInt - ptr;
      var startWords := (ptr + sizeofInt - 1) / sizeofInt * sizeofInt - ptr;
      Alignment(ptr + |s|, sizeofInt);
      Alignment(ptr, sizeofInt);
      assert 0 < endWords <= |s|;
      while end > endWords && s[end - 1] == SPACE
        invariant endWords <= end <= |s| && TrimEnd(s, end) == TrimEnd(s, |s|)
      {
        end := end - 1;
      }
      if s[end - 1] == SPACE && startWords < endWords {
        end := SkipWords(s, ptr, sizeofInt, startWords, end);
      }
    }
    while end > 0 && s[end - 1] == SPACE
      invariant end <= |s| && TrimEnd(s, end) == TrimEnd(s, |s|)
    {
      end := end - 1;
    }
  }

  /** Its middle loop, over whole aligned words down to `startWords`. */
  method SkipWords(s: seq<Byte>, ptr: nat, sizeofInt: nat, startWords: nat, from: nat) returns (end: nat)
    requires sizeofInt == 4 || sizeofInt == 8
    requires startWords <= from <= |s|
    requires (ptr + startWords) % sizeofInt == 0 && (ptr + from) % sizeofInt == 0
    ensures startWords <= end <= from && TrimEnd(s, end) == TrimEnd(s, from)
    ensures end == startWords || (end >= sizeofInt && !AllSpaces(s, end - sizeofInt, end))
  {
    SpaceIntConstants();
    end := from;
    while end > startWords
      invariant startWords <= end <= from && (ptr + end) % sizeofInt == 0
      invariant TrimEnd(s, end) == TrimEnd(s, from)
    {
      AlignedGap(ptr + startWords, ptr + end, sizeofInt);
      WordOfSpaces(s, end - sizeofInt, sizeofInt);
      if WordAt(s, end - sizeofInt, sizeofInt) != SpaceIntConstant(sizeofInt) {
        break;
      }
      TrimOverSpaces(s, end - sizeofInt, end);
      end := end - sizeofInt;
    }
  }
}
