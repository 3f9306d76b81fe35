/** The text that java.util.Arrays.toString gives a byte array ("[1, -2, 3]"),
    which util4j's equalsByteArray compares instead of the elements themselves.
    The main result is that this text determines the array: equal texts mean
    equal contents. */
module JavaArrays {

  /** A Java byte: a signed 8-bit integer. */
  newtype Byte = x: int | -128 <= x < 128

  /** The character of one decimal digit. */
  function DigitChar(d: nat): (c: char)
    requires d < 10
    ensures '0' <= c <= '9'
  {
    ('0' as int + d) as char
  }

  /** Decimal digits of a natural number, without leading zeros
      (Integer.toString of a non-negative int). */
  function Digits(n: nat): (s: string)
    ensures |s| >= 1
    ensures (|s| == 1) == (n < 10)
  {
    if n < 10 then [DigitChar(n)] else Digits(n / 10) + [DigitChar(n % 10)]
  }

  lemma {:induction false} DigitsAreDigits(n: nat)
    ensures forall i :: 0 <= i < |Digits(n)| ==> '0' <= Digits(n)[i] <= '9'
  {
    if n >= 10 {
      DigitsAreDigits(n / 10);
    }
  }

  /** Integer.toString of a byte: an optional minus sign, then the digits. */
  function ByteText(b: Byte): (s: string)
    ensures |s| >= 1
  {
    if b < 0 then "-" + Digits(-(b as int)) else Digits(b as int)
  }

  /** A byte's text holds neither of the separators of the array text. */
  lemma ByteTextCommaFree(b: Byte)
    ensures forall i :: 0 <= i < |ByteText(b)| ==> ByteText(b)[i] != ',' && ByteText(b)[i] != ']'
  {
    DigitsAreDigits(if b < 0 then -(b as int) else b as int);
  }

  /** The elements' texts separated by ", ". */
  function Joined(s: seq<Byte>): (t: string)
    ensures (t == "") == (s == [])
  {
    if s == [] then ""
    else if |s| == 1 then ByteText(s[0])
    else ByteText(s[0]) + ", " + Joined(s[1..])
  }

  /** Arrays.toString of a non-null byte array. */
  function ArrayText(s: seq<Byte>): string
  {
    "[" + Joined(s) + "]"
  }

  /** The digits of a number of two or more digits are those of its tenth
      followed by its last digit. */
  lemma LastDigit(n: nat)
    requires n >= 10
    ensures Digits(n)[..|Digits(n)| - 1] == Digits(n / 10)
    ensures Digits(n)[|Digits(n)| - 1] == DigitChar(n % 10)
  {
  }

  lemma {:induction false} DigitsInjective(m: nat, n: nat)
    requires Digits(m) == Digits(n)
    ensures m == n
    decreases m
  {
    if m >= 10 && n >= 10 {
      LastDigit(m);
      LastDigit(n);
      DigitsInjective(m / 10, n / 10);
    }
  }

  /** A byte's text starts with a minus sign exactly when the byte is negative. */
  lemma ByteTextSign(b: Byte)
    ensures ByteText(b)[0] == '-' <==> b < 0
  {
    if b >= 0 {
      DigitsAreDigits(b as int);
      assert '0' <= Digits(b as int)[0] <= '9';
    }
  }

  lemma ByteTextInjective(a: Byte, b: Byte)
    requires ByteText(a) == ByteText(b)
    ensures a == b
  {
    ByteTextSign(a);
    ByteTextSign(b);
    var m: nat := if a < 0 then -(a as int) else a as int;
    var n: nat := if b < 0 then -(b as int) else b as int;
    if a < 0 {
      assert b < 0;
      NegativeText(a);
      NegativeText(b);
    }
    DigitsInjective(m, n);
  }

  lemma NegativeText(b: Byte)
    requires b < 0
    ensures ByteText(b)[1..] == Digits(-(b as int))
  {
  }

  /** Where a concatenation is split at a longer first part, the shorter one's
      continuation shows through. */
  lemma ContinuationShows(a: string, x: string, b: string, y: string)
    requires a + x == b + y
    requires |b| < |a| && y != ""
    ensures a[|b|] == y[0]
  {
    assert a[|b|] == (a + x)[|b|] == (b + y)[|b|];
  }

  /** A comma-free word followed by either nothing or a text starting with a
      comma is read back unambiguously. */
  lemma CommaFreePrefix(a: string, x: string, b: string, y: string)
    requires forall i :: 0 <= i < |a| ==> a[i] != ','
    requires forall i :: 0 <= i < |b| ==> b[i] != ','
    requires x == "" || x[0] == ','
    requires y == "" || y[0] == ','
    requires a + x == b + y
    ensures a == b && x == y
  {
    if |b| < |a| {
      if y != "" {
        ContinuationShows(a, x, b, y);
      }
      assert false;
    }
    if |a| < |b| {
      if x != "" {
        ContinuationShows(b, y, a, x);
      }
      assert false;
    }
    assert a == (a + x)[..|a|];
    assert b == (b + y)[..|b|];
    assert x == (a + x)[|a|..];
    assert y == (b + y)[|b|..];
  }

  /** What follows the first element's text in Joined. */
  function Rest(s: seq<Byte>): (t: string)
    requires s != []
    ensures t == "" || t[0] == ','
  {
    if |s| == 1 then "" else ", " + Joined(s[1..])
  }

  lemma JoinedFirst(s: seq<Byte>)
    requires s != []
    ensures Joined(s) == ByteText(s[0]) + Rest(s)
    ensures (Rest(s) == "") == (|s| == 1)
    ensures |s| > 1 ==> Rest(s)[2..] == Joined(s[1..])
  {
  }

  /** Equal joined texts of non-empty sequences agree on the first element
      and on the joined text of the rest. */
  lemma JoinedHead(s: seq<Byte>, t: seq<Byte>)
    requires s != [] && t != []
    requires Joined(s) == Joined(t)
    ensures s[0] == t[0]
    ensures |s| == 1 <==> |t| == 1
    ensures |s| > 1 ==> Joined(s[1..]) == Joined(t[1..])
  {
    JoinedFirst(s);
    JoinedFirst(t);
    ByteTextCommaFree(s[0]);
    ByteTextCommaFree(t[0]);
    CommaFreePrefix(ByteText(s[0]), Rest(s), ByteText(t[0]), Rest(t));
    ByteTextInjective(s[0], t[0]);
  }

  lemma {:induction false} JoinedInjective(s: seq<Byte>, t: seq<Byte>)
    requires Joined(s) == Joined(t)
    ensures s == t
    decreases |s|
  {
    if s != [] {
      JoinedHead(s, t);
      if |s| > 1 {
        JoinedInjective(s[1..], t[1..]);
        assert s == [s[0]] + s[1..] && t == [t[0]] + t[1..];
      }
    }
  }

  /** Arrays.toString determines the contents of the array. */
  lemma ArrayTextInjective(s: seq<Byte>, t: seq<Byte>)
    ensures ArrayText(s) == ArrayText(t) <==> s == t
  {
    if ArrayText(s) == ArrayText(t) {
      var n := |ArrayText(s)|;
      assert Joined(s) == ArrayText(s)[1..n - 1];
      assert Joined(t) == ArrayText(t)[1..n - 1];
      JoinedInjective(s, t);
    }
  }
}
