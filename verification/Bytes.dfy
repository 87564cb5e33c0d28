/** Bytes, and the numbers written with them. */
module Bytes {
  import opened Wrappers

  type byte = b: int | 0 <= b < 256

  const TAB: byte := 9
  const LF: byte := 10
  const CR: byte := 13
  const SPACE: byte := 32

  const U64: nat := 0x1_0000_0000_0000_0000

  /** A stream as the pieces it arrives in. */
  function Concat(pieces: seq<seq<byte>>): seq<byte> {
    if pieces == [] then [] else pieces[0] + Concat(pieces[1..])
  }

  lemma {:induction false} ConcatSnoc(pieces: seq<seq<byte>>, k: nat)
    requires k < |pieces|
    ensures Concat(pieces[..k + 1]) == Concat(pieces[..k]) + pieces[k]
  {
    if k == 0 {
      assert pieces[..1][1..] == [];
    } else {
      ConcatSnoc(pieces[1..], k - 1);
      assert pieces[..k + 1][1..] == pieces[1..][..k] && pieces[..k][1..] == pieces[1..][..k - 1];
    }
  }

  /** A growing run of bytes that writers append to. */
  class Buffer {
    var bytes: seq<byte>
  }

  // ----------------------------------------------------------- white space

  /** `e` is one white-space character in UTF-8. */
  predicate IsSpaceChar(e: seq<byte>) {
    || (|e| == 1 && (9 <= e[0] <= 13 || e[0] == SPACE))
    || (|e| == 2 && e[0] == 0xC2 && (e[1] == 0x85 || e[1] == 0xA0))
    || (|e| == 3 && e[0] == 0xE1 && e[1] == 0x9A && e[2] == 0x80)
    || (|e| == 3 && e[0] == 0xE2 && e[1] == 0x80
        && (0x80 <= e[2] <= 0x8A || e[2] == 0xA8 || e[2] == 0xA9 || e[2] == 0xAF))
    || (|e| == 3 && e[0] == 0xE2 && e[1] == 0x81 && e[2] == 0x9F)
    || (|e| == 3 && e[0] == 0xE3 && e[1] == 0x80 && e[2] == 0x80)
  }

  /** The length of the white-space character `s` starts with, or 0. */
  function LeadSpace(s: seq<byte>): (n: nat)
    ensures n <= |s|
  {
    if |s| >= 1 && IsSpaceChar(s[..1]) then 1
    else if |s| >= 2 && IsSpaceChar(s[..2]) then 2
    else if |s| >= 3 && IsSpaceChar(s[..3]) then 3
    else 0
  }

  function TailSpace(s: seq<byte>): (n: nat)
    ensures n <= |s|
  {
    if |s| >= 1 && IsSpaceChar(s[|s| - 1..]) then 1
    else if |s| >= 2 && IsSpaceChar(s[|s| - 2..]) then 2
    else if |s| >= 3 && IsSpaceChar(s[|s| - 3..]) then 3
    else 0
  }

  function TrimStart(s: seq<byte>): seq<byte> {
    if LeadSpace(s) > 0 then TrimStart(s[LeadSpace(s)..]) else s
  }

  function TrimEnd(s: seq<byte>): seq<byte> {
    if TailSpace(s) > 0 then TrimEnd(s[..|s| - TailSpace(s)]) else s
  }

  function Trim(s: seq<byte>): seq<byte> {
    TrimEnd(TrimStart(s))
  }

  // --------------------------------------------------------------- numbers

  function DigitValue(b: byte): nat {
    if 48 <= b <= 57 then b - 48
    else if 65 <= b <= 70 then b - 55
    else if 97 <= b <= 102 then b - 87
    else 16
  }

  predicate AllDigits(s: seq<byte>, radix: nat) {
    forall i :: 0 <= i < |s| ==> DigitValue(s[i]) < radix
  }

  function Value(s: seq<byte>, radix: nat): nat {
    if s == [] then 0 else Value(s[..|s| - 1], radix) * radix + DigitValue(s[|s| - 1])
  }

  /** A 64-bit number in the given radix: digits, a plus sign allowed in front. */
  function ParseU64(s: seq<byte>, radix: nat): Option<nat> {
    var digits := if s != [] && s[0] == 43 then s[1..] else s;
    if digits != [] && AllDigits(digits, radix) && Value(digits, radix) < U64
    then Some(Value(digits, radix)) else None
  }

  // --------------------------------------------------- numbers as written

  /** `0123456789abcdef` and `0123456789ABCDEF`. */
  const LOWER_DIGITS: seq<byte> := [48, 49, 50, 51, 52, 53, 54, 55, 56, 57, 97, 98, 99, 100, 101, 102]
  const UPPER_DIGITS: seq<byte> := [48, 49, 50, 51, 52, 53, 54, 55, 56, 57, 65, 66, 67, 68, 69, 70]

  const PLUS: byte := 43

  predicate Stands(b: byte, d: nat)
    requires d < 16
  {
    b == LOWER_DIGITS[d] || b == UPPER_DIGITS[d]
  }

  /** `s` is `n` written out, its last digit the remainder and those before it
      the quotient; zeros may come in front. */
  predicate Writes(s: seq<byte>, n: nat, radix: nat)
    requires radix == 10 || radix == 16
    decreases |s|
  {
    && s != [] && Stands(s[|s| - 1], n % radix)
    && if |s| == 1 then n < radix else Writes(s[..|s| - 1], n / radix, radix)
  }

  /** A numeral as a reader takes it: with a plus sign in front, or without. */
  predicate IsNumeral(s: seq<byte>, n: nat, radix: nat)
    requires radix == 10 || radix == 16
  {
    Writes(s, n, radix) || (s != [] && s[0] == PLUS && Writes(s[1..], n, radix))
  }

  /** The shortest numeral for `n`. */
  function Digits(n: nat, radix: nat): seq<byte>
    requires radix == 10 || radix == 16
  {
    if n < radix then [LOWER_DIGITS[n]] else Digits(n / radix, radix) + [LOWER_DIGITS[n % radix]]
  }

  lemma {:induction false} DigitsWrite(n: nat, radix: nat)
    requires radix == 10 || radix == 16
    ensures Writes(Digits(n, radix), n, radix)
  {
    if n >= radix {
      DigitsWrite(n / radix, radix);
      var s := Digits(n, radix);
      assert s[..|s| - 1] == Digits(n / radix, radix);
    }
  }

  lemma StandsIff(b: byte, d: nat)
    requires d < 16
    ensures Stands(b, d) <==> DigitValue(b) == d
  {
  }

  lemma QuotientIff(q: nat, d: nat, n: nat, radix: nat)
    requires (radix == 10 || radix == 16) && d < radix
    ensures q * radix + d == n <==> q == n / radix && d == n % radix
  {
    if radix == 10 {
      assert q * 10 + d == n <==> q == n / 10 && d == n % 10;
    } else {
      assert q * 16 + d == n <==> q == n / 16 && d == n % 16;
    }
  }

  lemma ValueSnoc(s: seq<byte>, n: nat, radix: nat)
    requires (radix == 10 || radix == 16) && s != []
    ensures AllDigits(s, radix) && Value(s, radix) == n <==>
      && AllDigits(s[..|s| - 1], radix) && Value(s[..|s| - 1], radix) == n / radix
      && DigitValue(s[|s| - 1]) == n % radix
  {
    hide DigitValue;
    var init, b := s[..|s| - 1], s[|s| - 1];
    assert s == init + [b];
    if DigitValue(b) < radix {
      QuotientIff(Value(init, radix), DigitValue(b), n, radix);
    }
  }

  lemma {:induction false} WritesIff(s: seq<byte>, n: nat, radix: nat)
    requires radix == 10 || radix == 16
    ensures Writes(s, n, radix) <==> s != [] && AllDigits(s, radix) && Value(s, radix) == n
    decreases |s|
  {
    if s != [] {
      var init := s[..|s| - 1];
      StandsIff(s[|s| - 1], n % radix);
      ValueSnoc(s, n, radix);
      hide DigitValue, Stands, AllDigits;
      if |s| > 1 {
        WritesIff(init, n / radix, radix);
      } else {
        assert init == [] && Value(init, radix) == 0 && AllDigits(init, radix) by { NoDigits(radix); }
        assert n / radix == 0 <==> n < radix;
      }
    }
  }

  lemma NoDigits(radix: nat)
    ensures AllDigits([], radix)
  {
  }

  /** Exactly the numerals of numbers below 2^64 read, each as its number. */
  lemma ParseIff(s: seq<byte>, n: nat, radix: nat)
    requires radix == 10 || radix == 16
    ensures ParseU64(s, radix) == Some(n) <==> n < U64 && IsNumeral(s, n, radix)
  {
    hide Value, Writes;
    WritesIff(s, n, radix);
    if s != [] && s[0] == PLUS {
      assert DigitValue(s[0]) == 16;
      WritesIff(s[1..], n, radix);
    }
  }

  /** Every number is read back from its shortest numeral. */
  lemma ParseInvertsDigits(n: nat, radix: nat)
    requires (radix == 10 || radix == 16) && n < U64
    ensures ParseU64(Digits(n, radix), radix) == Some(n)
  {
    hide Writes, ParseU64, Digits;
    DigitsWrite(n, radix);
    ParseIff(Digits(n, radix), n, radix);
  }

  predicate IsBlank(b: byte) {
    b == SPACE || b == TAB
  }

  predicate AllBlank(s: seq<byte>) {
    forall i :: 0 <= i < |s| ==> s[i] == 32 || s[i] == 9
  }

  /** No byte but printable ones and blanks. */
  predicate AllVisible(s: seq<byte>) {
    forall i :: 0 <= i < |s| ==> 32 <= s[i] < 127 || s[i] == 9
  }

  /** Nothing but white-space characters. */
  predicate IsSpaces(s: seq<byte>) {
    || s == []
    || (IsSpaceChar(s[..1]) && IsSpaces(s[1..]))
    || (|s| >= 2 && IsSpaceChar(s[..2]) && IsSpaces(s[2..]))
    || (|s| >= 3 && IsSpaceChar(s[..3]) && IsSpaces(s[3..]))
  }

  /** A byte that is a visible character by itself. */
  predicate IsPlain(b: byte) {
    32 < b < 127
  }

  lemma SpacesCons(e: seq<byte>, s: seq<byte>)
    requires IsSpaceChar(e) && IsSpaces(s)
    ensures IsSpaces(e + s)
  {
    hide IsSpaceChar;
    assert (e + s)[..|e|] == e && (e + s)[|e|..] == s;
    assert 1 <= |e| <= 3 by { CharSize(e); }
  }

  lemma CharSize(e: seq<byte>)
    requires IsSpaceChar(e)
    ensures 1 <= |e| <= 3
  {
  }

  lemma SpacesFirst(s: seq<byte>) returns (e: seq<byte>, rest: seq<byte>)
    requires IsSpaces(s) && s != []
    ensures s == e + rest && e != [] && IsSpaceChar(e) && IsSpaces(rest)
  {
    hide IsSpaceChar;
    var n := if IsSpaceChar(s[..1]) && IsSpaces(s[1..]) then 1
             else if |s| >= 2 && IsSpaceChar(s[..2]) && IsSpaces(s[2..]) then 2 else 3;
    e, rest := s[..n], s[n..];
  }

  lemma {:induction false} SpacesSnoc(s: seq<byte>, e: seq<byte>)
    requires IsSpaces(s) && IsSpaceChar(e)
    ensures IsSpaces(s + e)
    decreases |s|
  {
    hide IsSpaceChar, IsSpaces;
    if s == [] {
      assert IsSpaces([]) by { NoSpaces(); }
      SpacesCons(e, []);
      assert s + e == e + [];
    } else {
      var d, rest := SpacesFirst(s);
      SpacesSnoc(rest, e);
      SpacesCons(d, rest + e);
      assert s + e == d + (rest + e);
    }
  }

  lemma NoSpaces()
    ensures IsSpaces([])
  {
  }

  lemma {:induction false} SpacesLast(s: seq<byte>) returns (rest: seq<byte>, e: seq<byte>)
    requires IsSpaces(s) && s != []
    ensures s == rest + e && e != [] && IsSpaceChar(e) && IsSpaces(rest)
    decreases |s|
  {
    hide IsSpaceChar, IsSpaces;
    var d, tail := SpacesFirst(s);
    if tail == [] {
      rest, e := [], d;
      NoSpaces();
      assert s == [] + d;
    } else {
      var r, f := SpacesLast(tail);
      rest, e := d + r, f;
      SpacesCons(d, r);
      assert s == d + r + f;
    }
  }

  lemma LeadOf(e: seq<byte>, t: seq<byte>)
    requires IsSpaceChar(e)
    ensures LeadSpace(e + t) == |e|
  {
    assert (e + t)[..|e|] == e;
  }

  lemma TailOf(t: seq<byte>, e: seq<byte>)
    requires IsSpaceChar(e)
    ensures TailSpace(t + e) == |e|
  {
    assert (t + e)[|t|..] == e;
  }

  lemma LeadOfPlain(t: seq<byte>)
    requires t != [] && IsPlain(t[0])
    ensures LeadSpace(t) == 0
  {
  }

  lemma TailOfPlain(t: seq<byte>)
    requires t != [] && IsPlain(t[|t| - 1])
    ensures TailSpace(t) == 0
  {
  }

  lemma {:induction false} TrimStartSplits(s: seq<byte>) returns (a: seq<byte>)
    ensures s == a + TrimStart(s) && IsSpaces(a)
  {
    a := [];
    var n := LeadSpace(s);
    if n > 0 {
      assert IsSpaceChar(s[..n]);
      hide IsSpaceChar, LeadSpace;
      var b := TrimStartSplits(s[n..]);
      a := s[..n] + b;
      SpacesCons(s[..n], b);
    }
  }

  lemma {:induction false} TrimEndSplits(s: seq<byte>) returns (b: seq<byte>)
    ensures s == TrimEnd(s) + b && IsSpaces(b)
  {
    hide IsSpaceChar, TailSpace, IsSpaces;
    var n := TailSpace(s);
    if n == 0 {
      b := [];
      NoSpaces();
    } else {
      TailIsSpace(s);
      var m, e := s[..|s| - n], s[|s| - n..];
      assert TrimEnd(s) == TrimEnd(m);
      var a := TrimEndSplits(m);
      SpacesSnoc(a, e);
      b := a + e;
      Regroup(TrimEnd(m), a, e);
    }
  }

  lemma Regroup(x: seq<byte>, y: seq<byte>, z: seq<byte>)
    ensures x + y + z == x + (y + z)
  {
  }

  lemma TailIsSpace(s: seq<byte>)
    requires TailSpace(s) > 0
    ensures IsSpaceChar(s[|s| - TailSpace(s)..])
  {
  }

  /** Trimming takes off white space at both ends. */
  lemma TrimSplits(s: seq<byte>) returns (a: seq<byte>, b: seq<byte>)
    ensures s == a + Trim(s) + b && IsSpaces(a) && IsSpaces(b)
  {
    hide TrimStart, TrimEnd, IsSpaces;
    a := TrimStartSplits(s);
    b := TrimEndSplits(TrimStart(s));
    assert s == a + (Trim(s) + b);
  }

  lemma {:induction false} TrimStartOf(a: seq<byte>, t: seq<byte>)
    requires IsSpaces(a) && t != [] && IsPlain(t[0])
    ensures TrimStart(a + t) == t
    decreases |a|
  {
    hide IsSpaceChar, LeadSpace, IsSpaces;
    if a == [] {
      assert a + t == t;
      LeadOfPlain(t);
    } else {
      var e, rest := SpacesFirst(a);
      assert a + t == e + (rest + t);
      LeadOf(e, rest + t);
      assert (a + t)[|e|..] == rest + t;
      TrimStartOf(rest, t);
    }
  }

  lemma {:induction false} TrimEndOf(t: seq<byte>, b: seq<byte>)
    requires IsSpaces(b) && t != [] && IsPlain(t[|t| - 1])
    ensures TrimEnd(t + b) == t
    decreases |b|
  {
    hide IsSpaceChar, TailSpace, IsSpaces;
    if b == [] {
      assert t + b == t;
      TailOfPlain(t);
    } else {
      var rest, e := SpacesLast(b);
      assert t + b == t + rest + e;
      TailOf(t + rest, e);
      assert (t + b)[..|t + rest|] == t + rest;
      TrimEndOf(t, rest);
    }
  }

  /** And what it leaves is all there is between them. */
  lemma TrimBetween(a: seq<byte>, m: seq<byte>, b: seq<byte>)
    requires IsSpaces(a) && IsSpaces(b) && m != [] && IsPlain(m[0]) && IsPlain(m[|m| - 1])
    ensures Trim(a + m + b) == m
  {
    hide TrimStart, TrimEnd, IsSpaces;
    assert a + m + b == a + (m + b);
    TrimStartOf(a, m + b);
    TrimEndOf(m, b);
  }

  lemma {:induction false} BlanksAreSpaces(s: seq<byte>)
    requires AllBlank(s)
    ensures IsSpaces(s)
  {
    if s != [] {
      BlanksAreSpaces(s[1..]);
    }
  }

  lemma {:induction false} VisibleSpacesAreBlank(s: seq<byte>)
    requires IsSpaces(s) && AllVisible(s)
    ensures AllBlank(s)
    decreases |s|
  {
    hide IsSpaces;
    if s != [] {
      var e, rest := SpacesFirst(s);
      assert forall i :: 0 <= i < |e| ==> s[i] == e[i];
      assert forall i :: 0 <= i < |rest| ==> s[|e| + i] == rest[i];
      VisibleSpacesAreBlank(rest);
    }
  }

  /** A numeral starts and ends with a plain byte, and has no other bytes. */
  lemma NumeralIsPlain(s: seq<byte>, n: nat, radix: nat)
    requires (radix == 10 || radix == 16) && IsNumeral(s, n, radix)
    ensures s != [] && forall i :: 0 <= i < |s| ==> DigitValue(s[i]) < 16 || s[i] == PLUS
  {
    hide Writes, Value, DigitValue;
    WritesIff(s, n, radix);
    WritesIff(s[1..], n, radix);
    forall i | 0 <= i < |s| ensures DigitValue(s[i]) < 16 || s[i] == PLUS {
      assert i > 0 ==> s[i] == s[1..][i - 1];
    }
  }

  // ---------------------------------------------------------- 16-bit numbers

  /** Two bytes, most significant first. */
  function U16(s: seq<byte>): (n: nat)
    requires |s| >= 2
    ensures n < 0x1_0000
  {
    (s[0] as int) * 256 + s[1] as int
  }

  function U16Bytes(n: nat): (s: seq<byte>)
    requires n < 0x1_0000
    ensures |s| == 2
  {
    [n / 256, n % 256]
  }

  /** Two-byte numbers compare as their bytes do, the first byte first; with
      `U16Inverse` that leaves no other way to read them. */
  lemma U16Order(s: seq<byte>, t: seq<byte>)
    requires |s| >= 2 && |t| >= 2
    ensures U16(s) < U16(t) <==> s[0] < t[0] || (s[0] == t[0] && s[1] < t[1])
  {
  }

  lemma U16Inverse(n: nat, rest: seq<byte>)
    requires n < 0x1_0000
    ensures U16(U16Bytes(n) + rest) == n
  {
  }

  lemma U16BytesInverse(s: seq<byte>)
    requires |s| >= 2
    ensures U16Bytes(U16(s)) == s[..2]
  {
    var high, low := s[0] as int, s[1] as int;
    assert (high * 256 + low) / 256 == high && (high * 256 + low) % 256 == low;
  }
}
