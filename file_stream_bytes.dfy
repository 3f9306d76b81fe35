/** The byte-array toolkit of util4j's FileStreamBytes: bounds-checked slices
    of a byte array, read either at an index or at a moving cursor, the
    bounds test that goes with them, null-aware content equality, and a
    scanner that reads from a cursor up to and including the first
    occurrence of a terminator. The file and stream helpers of the same
    class are not modelled. */
module FileStreamBytes {
  import opened Wrappers
  import opened JavaArrays

  const MinInt32: int := -0x8000_0000
  const MaxInt32: int := 0x7fff_ffff

  predicate IsInt32(x: int) {
    MinInt32 <= x <= MaxInt32
  }

  /** Java's 32-bit two's complement wrap-around of an int sum. */
  function Wrap32(x: int): (r: int)
    ensures IsInt32(r)
    ensures (r - x) % 0x1_0000_0000 == 0
    ensures IsInt32(x) ==> r == x
  {
    (x - MinInt32) % 0x1_0000_0000 + MinInt32
  }

  /** The mutable read position that util4j passes around as `P`: an int that
      `move(n)` advances by n. */
  class Cursor {
    var value: int

    constructor (v: int)
      ensures value == v
    {
      value := v;
    }

    method Move(n: int)
      modifies this
      ensures value == old(value) + n
    {
      value := value + n;
    }
  }

  // ---------------------------------------------------------------------
  // Bounds tests

  /** canReadLength at an index: false for a null array, otherwise whether
      the `length` bytes starting at `p` lie inside the array. The sum is taken
      over the integers (see CanReadLengthAsWritten for the 32-bit sum). */
  function CanReadLength(bytes: array?<Byte>, p: int, length: int): (r: bool)
    ensures r <==> bytes != null && 0 <= p <= p + length <= bytes.Length
  {
    if bytes == null then false
    else p + length <= bytes.Length && p >= 0 && length >= 0
  }

  /** canReadLength at a cursor: the same test at the cursor's position; being
      a function, it cannot move the cursor. */
  function CanReadLengthAt(bytes: array?<Byte>, p: Cursor, length: int): (r: bool)
    reads p
    ensures r <==> bytes != null && 0 <= p.value <= p.value + length <= bytes.Length
  {
    CanReadLength(bytes, p.value, length)
  }

  /** The guard as compiled by Java, where `p + length` wraps at 32 bits. */
  function CanReadLengthAsWritten(bytes: array?<Byte>, p: int, length: int): (r: bool)
    requires IsInt32(p) && IsInt32(length)
    ensures r ==> bytes != null && 0 <= p && 0 <= length
  {
    if bytes == null then false
    else Wrap32(p + length) <= bytes.Length && p >= 0 && length >= 0
  }

  /** The 32-bit guard differs from the intended one exactly on the inputs
      whose sum overflows: there it accepts a range that ends past the array. */
  lemma CanReadLengthAsWrittenDiffers(bytes: array?<Byte>, p: int, length: int)
    requires IsInt32(p) && IsInt32(length)
    requires bytes != null ==> bytes.Length <= MaxInt32
    ensures CanReadLengthAsWritten(bytes, p, length) <==>
              CanReadLength(bytes, p, length)
              || (bytes != null && 0 <= p && 0 <= length && p + length > MaxInt32)
  {
    if bytes != null && 0 <= p && 0 <= length && p + length > MaxInt32 {
      assert Wrap32(p + length) == p + length - 0x1_0000_0000;
    }
  }

  /** The smallest witness: at p = Integer.MAX_VALUE and length 1 the 32-bit
      guard accepts any array, although no byte can be read there. */
  lemma CanReadLengthOverflowWitness(bytes: array<Byte>)
    requires bytes.Length <= MaxInt32
    ensures CanReadLengthAsWritten(bytes, MaxInt32, 1)
    ensures !CanReadLength(bytes, MaxInt32, 1)
  {
    CanReadLengthAsWrittenDiffers(bytes, MaxInt32, 1);
  }

  // ---------------------------------------------------------------------
  // Equality

  /** equalsByteArray: the same reference (both null included) is equal; one
      null is not; arrays of different lengths are not; otherwise the
      contents decide. The method's last test compares the Arrays.toString
      texts instead; EqualsByteArrayAsWritten proves that this is the same
      test. */
  function EqualsByteArray(a1: array?<Byte>, a2: array?<Byte>): (r: bool)
    reads a1, a2
    ensures r <==> (a1 == null && a2 == null)
                   || (a1 != null && a2 != null && a1[..] == a2[..])
  {
    if a1 == a2 then true
    else if a1 == null || a2 == null then false
    else if a1.Length != a2.Length then false
    else a1[..] == a2[..]
  }

  /** The last test of equalsByteArray compares the two arrays' texts
      (Arrays.toString); that comparison decides the same thing as comparing
      the contents, so EqualsByteArray is the method's condition as written. */
  lemma EqualsByteArrayAsWritten(a1: array?<Byte>, a2: array?<Byte>)
    ensures EqualsByteArray(a1, a2) ==
              (a1 == a2
               || (a1 != null && a2 != null && a1.Length == a2.Length
                   && ArrayText(a1[..]) == ArrayText(a2[..])))
  {
    if a1 != null && a2 != null {
      ArrayTextInjective(a1[..], a2[..]);
    }
  }

  /** equalsByteArray is an equivalence on byte arrays. */
  lemma EqualsByteArrayIsEquivalence(a: array?<Byte>, b: array?<Byte>, c: array?<Byte>)
    ensures EqualsByteArray(a, a)
    ensures EqualsByteArray(a, b) == EqualsByteArray(b, a)
    ensures EqualsByteArray(a, b) && EqualsByteArray(b, c) ==> EqualsByteArray(a, c)
  {
  }

  // ---------------------------------------------------------------------
  // Reading a given number of bytes

  /** readByteArrayByLenght at an index: a fresh copy of bytes[p..p+length),
      or null when that range does not lie inside the array. */
  method ReadByteArrayByLength(bytes: array<Byte>, p: int, length: int) returns (v: array?<Byte>)
    ensures (v != null) == CanReadLength(bytes, p, length)
    ensures v != null ==> fresh(v) && v[..] == bytes[p..p + length]
  {
    if p + length <= bytes.Length && p >= 0 && length >= 0 {
      var w := new Byte[length];
      var q := p;
      for i := 0 to length
        invariant q == p + i
        invariant w[..i] == bytes[p..q]
      {
        w[i] := bytes[q];
        q := q + 1;
      }
      return w;
    } else {
      return null;
    }
  }

  /** readByteArrayByLenght at a cursor: as above from the cursor's position,
      moving the cursor past the bytes read; a refused read leaves it alone. */
  method ReadByteArrayByLengthAt(bytes: array<Byte>, p: Cursor, length: int) returns (v: array?<Byte>)
    modifies p
    ensures (v != null) == CanReadLength(bytes, old(p.value), length)
    ensures v != null ==> fresh(v) && v[..] == bytes[old(p.value)..old(p.value) + length]
                          && p.value == old(p.value) + length
    ensures v == null ==> p.value == old(p.value)
  {
    if p.value + length <= bytes.Length && p.value >= 0 && length >= 0 {
      var w := new Byte[length];
      for i := 0 to length
        invariant p.value == old(p.value) + i
        invariant w[..i] == bytes[old(p.value)..p.value]
      {
        w[i] := bytes[p.value];
        p.Move(1);
      }
      return w;
    } else {
      return null;
    }
  }

  /** The worked example of FileStreamBytes.main: {1,2,3,4} read at 1 for 2
      bytes gives an array equal to {2,3}. */
  method ReadExample() returns (c: array?<Byte>, same: bool)
    ensures c != null && c[..] == [2, 3]
    ensures same
  {
    var a := new Byte[4] [1, 2, 3, 4];
    var b := new Byte[2] [2, 3];
    c := ReadByteArrayByLength(a, 1, 2);
    same := EqualsByteArray(b, c);
  }

  // ---------------------------------------------------------------------
  // Reading up to a terminator

  /** `pat` occurs in `s` starting at index j. */
  predicate MatchAt(s: seq<Byte>, pat: seq<Byte>, j: int) {
    0 <= j && j + |pat| <= |s| && s[j..j + |pat|] == pat
  }

  /** No occurrence of `pat` in `s` starts in [lo, hi). */
  predicate NoMatchIn(s: seq<Byte>, pat: seq<Byte>, lo: int, hi: int) {
    forall i :: lo <= i < hi ==> !MatchAt(s, pat, i)
  }

  /** The cases in which readByteArrayByEndArray returns null without moving
      the cursor: an empty terminator, a cursor at or past the end, or fewer
      than |end| bytes left (which includes a negative cursor). The test of
      the cursor against the end is implied by the last one. */
  predicate ScanRefused(bytes: seq<Byte>, p: int, end: seq<Byte>)
  {
    |end| <= 0 || p >= |bytes| || !(p + |end| <= |bytes| && p >= 0 && |end| >= 0)
  }

  lemma ScanRefusedExactly(bytes: seq<Byte>, p: int, end: seq<Byte>)
    ensures ScanRefused(bytes, p, end) <==> |end| == 0 || !(0 <= p && p + |end| <= |bytes|)
  {
  }

  /** Two first occurrences from the same start are the same occurrence, so
      the contract of readByteArrayByEndArray fixes its result. */
  lemma FirstMatchUnique(s: seq<Byte>, pat: seq<Byte>, lo: int, a: int, b: int)
    requires lo <= a && MatchAt(s, pat, a) && NoMatchIn(s, pat, lo, a)
    requires lo <= b && MatchAt(s, pat, b) && NoMatchIn(s, pat, lo, b)
    ensures a == b
  {
  }

  /** Seen from the bytes returned: a first occurrence ending at q makes
      s[p0..q] end with the pattern and contain no earlier occurrence. */
  lemma FoundDataEndsAtFirstMatch(s: seq<Byte>, pat: seq<Byte>, p0: int, q: int)
    requires 0 <= p0 && p0 + |pat| <= q <= |s|
    requires MatchAt(s, pat, q - |pat|) && NoMatchIn(s, pat, p0, q - |pat|)
    ensures var data := s[p0..q];
            data[|data| - |pat|..] == pat && NoMatchIn(data, pat, 0, |data| - |pat|)
  {
    var data := s[p0..q];
    assert data[|data| - |pat|..] == s[q - |pat|..q];
    forall j | 0 <= j < |data| - |pat|
      ensures !MatchAt(data, pat, j)
    {
      var w1, w2 := data[j..j + |pat|], s[p0 + j..p0 + j + |pat|];
      assert forall t :: 0 <= t < |pat| ==> w1[t] == w2[t];
      assert w1 == w2;
      assert !MatchAt(s, pat, p0 + j);
    }
  }

  /** Reading the byte at c, which moves the cursor on to e, extends the
      bytes read since p0 by that byte and slides the window of the last w
      bytes one place on. */
  lemma ByteRead(s: seq<Byte>, w: int, p0: int, c: int, e: int)
    requires 0 <= p0 && 0 < w && p0 + w <= c < |s| && e == c + 1
    ensures s[p0..c] + [s[c]] == s[p0..e]
    ensures s[c - w..c][1..] + [s[c]] == s[e - w..e]
  {
  }

  /** A window ending at e that differs from the pattern extends the stretch
      without an occurrence by one place. */
  lemma WindowDiffers(s: seq<Byte>, pat: seq<Byte>, lo: int, c: int, e: int)
    requires e == c + 1 && |pat| <= e <= |s| && s[e - |pat|..e] != pat
    requires NoMatchIn(s, pat, lo, c + 1 - |pat|)
    ensures NoMatchIn(s, pat, lo, e + 1 - |pat|)
  {
    assert !MatchAt(s, pat, e - |pat|);
  }

  /** A window ending at e that equals the pattern is the first occurrence
      from lo when none started earlier. */
  lemma WindowMatches(s: seq<Byte>, pat: seq<Byte>, lo: int, c: int, e: int)
    requires e == c + 1 && |pat| <= e <= |s| && s[e - |pat|..e] == pat
    requires NoMatchIn(s, pat, lo, c + 1 - |pat|)
    ensures MatchAt(s, pat, e - |pat|) && NoMatchIn(s, pat, lo, e - |pat|)
  {
  }

  /** Once the last possible window is past, no occurrence is left. */
  lemma NoMatchToEnd(s: seq<Byte>, pat: seq<Byte>, lo: int, k: int)
    requires NoMatchIn(s, pat, lo, k) && |s| < k + |pat|
    ensures NoMatchIn(s, pat, lo, |s|)
  {
  }

  /** A fresh array holding s (the element-by-element copy loops of
      readByteArrayByEndArray). */
  method ToArray(s: seq<Byte>) returns (a: array<Byte>)
    ensures fresh(a) && a[..] == s
  {
    a := new Byte[|s|];
    for i := 0 to |s|
      invariant a[..i] == s[..i]
    {
      a[i] := s[i];
    }
  }

  /** readByteArrayByEndArray: reads from the cursor up to and including the
      first occurrence of endArray, sliding a window of |endArray| bytes along
      the array. Refused: null, cursor kept. Not found: null, cursor at the
      end, no occurrence from the start position on. Found: a fresh copy of
      the bytes from the start position to the cursor, which stops right
      after the first occurrence. */
  method ReadByteArrayByEndArray(bytes: array<Byte>, p: Cursor, endArray: array<Byte>)
    returns (r: array?<Byte>)
    modifies p
    ensures ScanRefused(bytes[..], old(p.value), endArray[..]) ==>
              r == null && p.value == old(p.value)
    ensures !ScanRefused(bytes[..], old(p.value), endArray[..]) && r == null ==>
              p.value == bytes.Length
              && NoMatchIn(bytes[..], endArray[..], old(p.value), bytes.Length)
    ensures r != null ==>
              !ScanRefused(bytes[..], old(p.value), endArray[..])
              && fresh(r)
              && old(p.value) + endArray.Length <= p.value <= bytes.Length
              && r[..] == bytes[old(p.value)..p.value]
              && MatchAt(bytes[..], endArray[..], p.value - endArray.Length)
              && NoMatchIn(bytes[..], endArray[..], old(p.value), p.value - endArray.Length)
    ensures !ScanRefused(bytes[..], old(p.value), endArray[..])
            && bytes[old(p.value)..old(p.value) + endArray.Length] == endArray[..] ==>
              r != null && r[..] == endArray[..] && p.value == old(p.value) + endArray.Length
  {
    if endArray.Length <= 0 || p.value >= bytes.Length {
      return null;
    }
    ghost var p0 := p.value;
    var value: seq<Byte> := [];
    var end: seq<Byte> := [];
    if !CanReadLengthAt(bytes, p, endArray.Length) {
      return null;
    }
    var tmp := ReadByteArrayByLengthAt(bytes, p, endArray.Length);
    assert tmp[..] == bytes[p0..p.value];
    var same := EqualsByteArray(tmp, endArray);
    assert same <==> tmp[..] == endArray[..];
    if same {
      assert p.value - endArray.Length == p0;
      assert MatchAt(bytes[..], endArray[..], p0);
      assert NoMatchIn(bytes[..], endArray[..], p0, p0);
      return tmp;
    }
    for t1 := 0 to tmp.Length
      invariant value == tmp[..t1] && end == tmp[..t1]
    {
      value := value + [tmp[t1]];
      end := end + [tmp[t1]];
    }
    assert value == tmp[..];
    r := SlideToEnd(bytes, p, endArray, p0, value, end);
  }

  /** The loop of readByteArrayByEndArray, entered after the first window
      [p0, p0 + |endArray|) has been read and did not match: `value0` holds
      the bytes read since p0 and `end0` the last |endArray| of them. */
  method SlideToEnd(bytes: array<Byte>, p: Cursor, endArray: array<Byte>,
                    ghost p0: nat, value0: seq<Byte>, end0: seq<Byte>)
    returns (r: array?<Byte>)
    requires endArray.Length > 0
    requires p0 + endArray.Length == p.value <= bytes.Length
    requires value0 == bytes[p0..p.value] && end0 == value0
    requires end0 != endArray[..]
    modifies p
    ensures r == null ==>
              p.value == bytes.Length && NoMatchIn(old(bytes[..]), old(endArray[..]), p0, bytes.Length)
    ensures r != null ==>
              fresh(r)
              && p0 + endArray.Length <= p.value <= bytes.Length
              && r[..] == old(bytes[..])[p0..p.value]
              && MatchAt(old(bytes[..]), old(endArray[..]), p.value - endArray.Length)
              && NoMatchIn(old(bytes[..]), old(endArray[..]), p0, p.value - endArray.Length)
  {
    ghost var s, pat := bytes[..], endArray[..];
    var value, end := value0, end0;
    while CanReadLengthAt(bytes, p, 1)
      invariant p0 + |pat| <= p.value <= bytes.Length
      invariant value == s[p0..p.value]
      invariant end == s[p.value - |pat|..p.value]
      invariant NoMatchIn(s, pat, p0, p.value + 1 - |pat|)
      decreases bytes.Length - p.value
    {
      ghost var c := p.value;
      var found;
      value, end, found := SlideOnce(bytes, p, endArray, s, pat, p0, value, end);
      ghost var e := p.value;
      if found {
        WindowMatches(s, pat, p0, c, e);
        var t4 := ToArray(value);
        return t4;
      }
      WindowDiffers(s, pat, p0, c, e);
    }
    NoMatchToEnd(s, pat, p0, p.value + 1 - |pat|);
    return null;
  }

  /** One turn of that loop: read the next byte, append it to `value`, move
      the window `end` on by it, and compare the window with endArray. */
  method SlideOnce(bytes: array<Byte>, p: Cursor, endArray: array<Byte>,
                   ghost s: seq<Byte>, ghost pat: seq<Byte>, ghost p0: nat,
                   value: seq<Byte>, end: seq<Byte>)
    returns (value': seq<Byte>, end': seq<Byte>, found: bool)
    requires bytes[..] == s && endArray[..] == pat
    requires p0 + |pat| <= p.value < |s| && |pat| > 0
    requires value == s[p0..p.value]
    requires end == s[p.value - |pat|..p.value]
    modifies p
    ensures p.value == old(p.value) + 1
    ensures value' == s[p0..p.value]
    ensures end' == s[p.value - |pat|..p.value]
    ensures found <==> s[p.value - |pat|..p.value] == pat
  {
    ghost var c := p.value;
    var i := ReadByteArrayByLengthAt(bytes, p, 1);
    ghost var e := p.value;
    assert i[0] == s[c];
    ByteRead(s, |pat|, p0, c, e);
    value' := value + [i[0]];
    end' := end[1..];
    end' := end' + [i[0]];
    var t2 := ToArray(end');
    found := EqualsByteArray(t2, endArray);
  }
}
