/**
 The parts of the C library that the programs lean on, for NUL-free strings: character
 classes of the C locale, strcmp, and strtol in base 10.
 */
module CStrings {

  /** The character at an index, or the terminating NUL at the end. */
  function At(s: string, i: nat): char {
    if i < |s| then s[i] else '\0'
  }

  predicate NulFree(s: string) {
    '\0' !in s
  }

  predicate IsSpace(c: char) {
    c == ' ' || '\t' <= c <= '\r'
  }

  predicate IsDigit(c: char) {
    '0' <= c <= '9'
  }

  predicate IsAlnum(c: char) {
    IsDigit(c) || 'a' <= c <= 'z' || 'A' <= c <= 'Z'
  }

  predicate IsIdentifierChar(c: char) {
    IsAlnum(c) || c == '_'
  }

  function ToLower(c: char): char {
    if 'A' <= c <= 'Z' then c - 'A' + 'a' else c
  }

  // ---------- the classes, character by character ----------

  /** The blank, the tab, the newline, the vertical tab, the form feed and the carriage return. */
  const BLANKS: string := " \t\n\U{000B}\U{000C}\r"

  const UPPER: string := "ABCDEFGHIJKLMNOPQRSTUVWXYZ"
  const LOWER: string := "abcdefghijklmnopqrstuvwxyz"
  const DIGITS: string := "0123456789"

  lemma SpaceExactly(c: char)
    ensures IsSpace(c) <==> c in BLANKS
  {
    var k := c as int - '\t' as int;
    if '\t' <= c <= '\r' {
      assert BLANKS[k + 1] == c;
    }
  }

  lemma DigitExactly(c: char)
    ensures IsDigit(c) <==> c in DIGITS
    ensures IsDigit(c) ==> DIGITS[DigitOf(c)] == c
  {
    if IsDigit(c) {
      assert DIGITS[c as int - '0' as int] == c;
    }
  }

  lemma UpperExactly(c: char)
    ensures 'A' <= c <= 'Z' <==> c in UPPER
    ensures 'A' <= c <= 'Z' ==> UPPER[c as int - 'A' as int] == c
  {
  }

  lemma LowerExactly(c: char)
    ensures 'a' <= c <= 'z' <==> c in LOWER
    ensures 'a' <= c <= 'z' ==> LOWER[c as int - 'a' as int] == c
  {
  }

  lemma WordCharacterExactly(c: char)
    ensures IsIdentifierChar(c) <==> c in UPPER || c in LOWER || c in DIGITS || c == '_'
  {
    DigitExactly(c);
    UpperExactly(c);
    LowerExactly(c);
  }

  lemma ToLowerExactly(c: char)
    ensures c !in UPPER ==> ToLower(c) == c
    ensures forall i | 0 <= i < 26 :: c == UPPER[i] ==> ToLower(c) == LOWER[i]
  {
    UpperExactly(c);
    forall i | 0 <= i < 26 && c == UPPER[i] ensures ToLower(c) == LOWER[i] {
      UpperAt(i);
    }
  }

  lemma UpperAt(i: nat)
    requires i < 26
    ensures UPPER[i] as int == 'A' as int + i && LOWER[i] as int == 'a' as int + i
  {
  }

  // ---------- words ----------

  predicate IsWord(s: string) {
    forall c <- s :: IsIdentifierChar(c)
  }

  /** The string begins with the keyword, in any case. */
  predicate CaseStarts(s: string, keyword: string) {
    |keyword| <= |s| && forall i | 0 <= i < |keyword| :: ToLower(s[i]) == ToLower(keyword[i])
  }

  /** The same letter in any case, or the same character. */
  predicate SameLetter(a: char, b: char) {
    a == b || ('a' <= a <= 'z' && b == a - 'a' + 'A') || ('a' <= b <= 'z' && a == b - 'a' + 'A')
  }

  predicate SameLetters(a: string, b: string) {
    |a| == |b| && forall i | 0 <= i < |a| :: SameLetter(a[i], b[i])
  }

  lemma FoldExactly(a: char, b: char)
    ensures SameLetter(a, b) <==> ToLower(a) == ToLower(b)
  {
  }

  lemma CaseStartsExactly(s: string, keyword: string)
    ensures CaseStarts(s, keyword) <==> |keyword| <= |s| && SameLetters(s[..|keyword|], keyword)
  {
    hide SameLetter, ToLower;
    if |keyword| <= |s| {
      forall i | 0 <= i < |keyword|
        ensures SameLetter(s[..|keyword|][i], keyword[i]) <==> ToLower(s[i]) == ToLower(keyword[i])
      {
        FoldExactly(s[i], keyword[i]);
      }
    }
  }

  // ---------- strcmp ----------

  /** Negative, zero or positive, as the first difference of the unsigned characters says. */
  function StrCmp(a: string, b: string): (r: int)
    ensures -1 <= r <= 1
  {
    if a == [] && b == [] then 0
    else if a == [] then -1
    else if b == [] then 1
    else if a[0] < b[0] then -1
    else if a[0] > b[0] then 1
    else StrCmp(a[1..], b[1..])
  }

  lemma {:induction false} StrCmpAntisymmetric(a: string, b: string)
    ensures StrCmp(a, b) == -StrCmp(b, a)
  {
    if a != [] && b != [] && a[0] == b[0] {
      StrCmpAntisymmetric(a[1..], b[1..]);
    }
  }

  lemma {:induction false} StrCmpTransitive(a: string, b: string, c: string)
    requires StrCmp(a, b) <= 0 && StrCmp(b, c) <= 0
    ensures StrCmp(a, c) <= 0
  {
    if a != [] && b != [] && c != [] && a[0] == b[0] == c[0] {
      StrCmpTransitive(a[1..], b[1..], c[1..]);
    }
  }

  lemma {:induction false} StrCmpZero(a: string, b: string)
    ensures StrCmp(a, b) == 0 <==> a == b
  {
    if a != [] && b != [] {
      StrCmpZero(a[1..], b[1..]);
      assert a == [a[0]] + a[1..] && b == [b[0]] + b[1..];
    }
  }

  /** The strings differ here for the first time, and the first one is smaller. */
  predicate DiffersAt(a: string, b: string, k: nat) {
    k < |a| && k < |b| && a[..k] == b[..k] && a[k] < b[k]
  }

  /** The string is a proper prefix, or smaller at the first difference. */
  ghost predicate LexBefore(a: string, b: string) {
    a < b || exists k: nat :: DiffersAt(a, b, k)
  }

  lemma {:induction false} StrCmpExactly(a: string, b: string)
    ensures StrCmp(a, b) < 0 <==> LexBefore(a, b)
  {
    if a != [] && b != [] {
      StrCmpExactly(a[1..], b[1..]);
      LexStep(a, b);
    } else if a == [] && b != [] {
      assert a < b;
    }
  }

  lemma LexStep(a: string, b: string)
    requires a != [] && b != []
    ensures LexBefore(a, b) <==> a[0] < b[0] || (a[0] == b[0] && LexBefore(a[1..], b[1..]))
  {
    assert a == [a[0]] + a[1..] && b == [b[0]] + b[1..];
    hide DiffersAt;
    if a[0] < b[0] {
      FirstDiffers(a, b);
    }
    forall k | 0 < k < |a| && k < |b|
      ensures DiffersAt(a, b, k) <==> a[0] == b[0] && DiffersAt(a[1..], b[1..], k - 1)
    {
      DiffersBehind(a, b, k);
    }
    if a[0] == b[0] && exists k: nat :: DiffersAt(a[1..], b[1..], k) {
      var k: nat :| DiffersAt(a[1..], b[1..], k);
      DiffersInside(a[1..], b[1..], k);
      assert DiffersAt(a, b, k + 1);
    }
    if exists k: nat :: DiffersAt(a, b, k) {
      var k: nat :| DiffersAt(a, b, k);
      DiffersInside(a, b, k);
      FirstDiffers(a, b);
    }
  }

  lemma FirstDiffers(a: string, b: string)
    requires a != [] && b != []
    ensures DiffersAt(a, b, 0) <==> a[0] < b[0]
  {
    assert a[..0] == b[..0];
  }

  lemma DiffersInside(a: string, b: string, k: nat)
    requires DiffersAt(a, b, k)
    ensures k < |a| && k < |b|
  {
  }

  lemma DiffersBehind(a: string, b: string, k: nat)
    requires 0 < k < |a| && k < |b|
    ensures DiffersAt(a, b, k) <==> a[0] == b[0] && DiffersAt(a[1..], b[1..], k - 1)
  {
    assert a[..k] == [a[0]] + a[1..][..k - 1] && b[..k] == [b[0]] + b[1..][..k - 1];
  }

  // ---------- strtol ----------

  const LONG_MAX: int := 0x7fff_ffff_ffff_ffff
  const LONG_MIN: int := -0x8000_0000_0000_0000

  function SkipSpaces(s: string, i: nat): (r: nat)
    requires i <= |s|
    ensures i <= r <= |s|
    ensures forall j | i <= j < r :: IsSpace(s[j])
    ensures r < |s| ==> !IsSpace(s[r])
    decreases |s| - i
  {
    if i < |s| && IsSpace(s[i]) then SkipSpaces(s, i + 1) else i
  }

  function SkipDigits(s: string, i: nat): (r: nat)
    requires i <= |s|
    ensures i <= r <= |s|
    ensures forall j | i <= j < r :: IsDigit(s[j])
    ensures r < |s| ==> !IsDigit(s[r])
    decreases |s| - i
  {
    if i < |s| && IsDigit(s[i]) then SkipDigits(s, i + 1) else i
  }

  function DigitOf(c: char): nat
    requires IsDigit(c)
  {
    c as int - '0' as int
  }

  /** The value of a string of decimal digits. */
  function DigitsValue(s: string): nat
    requires forall c <- s :: IsDigit(c)
  {
    if s == [] then 0 else 10 * DigitsValue(s[..|s| - 1]) + DigitOf(s[|s| - 1])
  }

  function Power10(n: nat): nat {
    if n == 0 then 1 else 10 * Power10(n - 1)
  }

  /** Decimal notation: every digit counts for its place. */
  lemma {:induction false} DecimalPlaces(a: string, b: string)
    requires forall c <- a + b :: IsDigit(c)
    ensures (forall c <- a :: IsDigit(c)) && (forall c <- b :: IsDigit(c))
    ensures DigitsValue(a + b) == DigitsValue(a) * Power10(|b|) + DigitsValue(b)
    ensures |a| == 1 ==> DigitsValue(a) == DigitOf(a[0])
    decreases |b|
  {
    assert forall c <- a :: c in a + b;
    assert forall c <- b :: c in a + b;
    if |a| == 1 {
      assert a[..0] == [];
    }
    if b == [] {
      assert a + b == a;
    } else {
      var n := |b| - 1;
      var s := a + b;
      assert s[..|s| - 1] == a + b[..n] && s[|s| - 1] == b[n];
      assert forall c <- a + b[..n] :: c in s;
      DecimalPlaces(a, b[..n]);
      PlaceShifts(DigitsValue(a), Power10(n));
    }
  }

  lemma PlaceShifts(x: nat, p: nat)
    ensures 10 * (x * p) == x * (10 * p)
  {
  }

  function Clamp(n: int): int {
    if n > LONG_MAX then LONG_MAX else if n < LONG_MIN then LONG_MIN else n
  }

  /** The value, and where the conversion stopped: at 0 if there is nothing to convert. */
  function Strtol(s: string): (r: (int, nat))
    ensures r.1 <= |s|
  {
    var i := SkipSpaces(s, 0);
    var negative := At(s, i) == '-';
    var j := if negative || At(s, i) == '+' then i + 1 else i;
    if j > |s| then (0, 0)
    else
      var k := SkipDigits(s, j);
      if k == j then (0, 0)
      else
        var n: int := DigitsValue(s[j..k]);
        (Clamp(if negative then -n else n), k)
  }
}
