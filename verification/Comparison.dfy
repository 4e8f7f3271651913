/**
 How member-dragon compares two stored values: as integers if both are spelled like one
 from beginning to end, else as strings.
 */
module Comparison {
  import opened CStrings

  datatype CompareOp = OpEq | OpNe | OpGt | OpLt | OpGe | OpLe

  /** The whole string was converted; so is the empty string, to 0. */
  predicate IntegerLike(s: string) {
    Strtol(s).1 == |s|
  }

  function Unsigned(s: string): string {
    if s != [] && (s[0] == '-' || s[0] == '+') then s[1..] else s
  }

  /**
   Blanks, at most one sign, and one digit or more spell an integer, which is cut to 64 bits;
   of all other strings only the empty one counts as an integer.
   */
  lemma IntegerLikeExactly(blanks: string, t: string)
    requires (forall c <- blanks :: c in BLANKS) && (t != [] ==> t[0] !in BLANKS)
    ensures var s, digits := blanks + t, Unsigned(t);
            && (IntegerLike(s) <==> s == "" || (digits != [] && forall c <- digits :: IsDigit(c)))
            && (digits != [] && (forall c <- digits :: IsDigit(c)) ==>
                  var size: int := DigitsValue(digits);
                  var n := if t[0] == '-' then -size else size;
                  Strtol(s).0 == if n > 9223372036854775807 then 9223372036854775807
                                 else if n < -9223372036854775808 then -9223372036854775808 else n)
  {
    hide DigitsValue;
    var s, digits := blanks + t, Unsigned(t);
    var start := |s| - |digits|;
    BlanksSkipped(blanks, t);
    assert s[start..] == digits;
    assert s[start..|s|] == digits;
    assert forall i | start <= i < |s| :: s[i] == digits[i - start] && s[i] in digits;
  }

  lemma BlanksSkipped(blanks: string, t: string)
    requires (forall c <- blanks :: c in BLANKS) && (t != [] ==> t[0] !in BLANKS)
    ensures SkipSpaces(blanks + t, 0) == |blanks|
  {
    var s := blanks + t;
    var k := SkipSpaces(s, 0);
    if k < |blanks| {
      assert s[k] == blanks[k];
      SpaceExactly(s[k]);
    } else if k > |blanks| {
      assert s[|blanks|] == t[0];
      SpaceExactly(t[0]);
    }
  }

  function Sign(n: int): int {
    if n < 0 then -1 else if n > 0 then 1 else 0
  }

  function CompareValues(left: string, right: string): (r: int)
    ensures -1 <= r <= 1
  {
    if IntegerLike(left) && IntegerLike(right) then Sign(Strtol(left).0 - Strtol(right).0)
    else StrCmp(left, right)
  }

  predicate CompareWithOperator(cmp: int, op: CompareOp) {
    match op
    case OpEq => cmp == 0
    case OpNe => cmp != 0
    case OpGt => cmp > 0
    case OpLt => cmp < 0
    case OpGe => cmp >= 0
    case OpLe => cmp <= 0
  }

  function Complement(op: CompareOp): CompareOp {
    match op
    case OpEq => OpNe
    case OpNe => OpEq
    case OpGt => OpLe
    case OpLt => OpGe
    case OpGe => OpLt
    case OpLe => OpGt
  }

  lemma ComplementNegates(cmp: int, op: CompareOp)
    ensures CompareWithOperator(cmp, Complement(op)) <==> !CompareWithOperator(cmp, op)
  {
  }

  /** Swapping the operands always negates the result. */
  lemma CompareAntisymmetric(a: string, b: string)
    ensures CompareValues(a, b) == -CompareValues(b, a)
  {
    StrCmpAntisymmetric(a, b);
  }

  /** Values that are all spelled as integers, or none of which is. */
  predicate Alike(a: string, b: string) {
    IntegerLike(a) == IntegerLike(b)
  }

  /** Among values of one kind the comparison is transitive. */
  lemma CompareTransitive(a: string, b: string, c: string)
    requires Alike(a, b) && Alike(b, c)
    requires CompareValues(a, b) <= 0 && CompareValues(b, c) <= 0
    ensures CompareValues(a, c) <= 0
  {
    hide Strtol;
    if !IntegerLike(a) {
      StrCmpTransitive(a, b, c);
    }
  }

  /** Across kinds it is not even acyclic. */
  lemma CompareCycles()
    ensures CompareValues("9", "10") < 0 && CompareValues("10", "1a") < 0 && CompareValues("1a", "9") < 0
  {
    assert Strtol("9") == (9, 1) by {
      assert "9"[0..1] == "9" && SkipDigits("9", 0) == 1;
      assert DigitsValue("9") == 9;
    }
    assert Strtol("10") == (10, 2) by {
      assert SkipDigits("10", 0) == 2 && "10"[0..2] == "10" && "10"[..1] == "1";
      assert DigitsValue("1") == 1;
    }
    assert Strtol("1a").1 == 1 by {
      assert SkipDigits("1a", 0) == 1;
    }
  }

  /** Two values compare equal exactly if they are the same string, or are both spelled as the same integer. */
  lemma EqualExactly(a: string, b: string)
    ensures CompareValues(a, b) == 0
       <==> if IntegerLike(a) && IntegerLike(b) then Strtol(a).0 == Strtol(b).0 else a == b
  {
    hide Strtol;
    StrCmpZero(a, b);
  }

  // ---------- what the operators mean ----------

  /** Smaller as an integer, if both are spelled like one, else as a string. */
  ghost predicate Less(a: string, b: string) {
    if IntegerLike(a) && IntegerLike(b) then Strtol(a).0 < Strtol(b).0 else LexBefore(a, b)
  }

  ghost predicate Same(a: string, b: string) {
    if IntegerLike(a) && IntegerLike(b) then Strtol(a).0 == Strtol(b).0 else a == b
  }

  /** The value stands in the relation of the operator to another one. */
  ghost predicate Satisfies(a: string, op: CompareOp, b: string) {
    match op
    case OpEq => Same(a, b)
    case OpNe => !Same(a, b)
    case OpGt => Less(b, a)
    case OpLt => Less(a, b)
    case OpGe => Less(b, a) || Same(a, b)
    case OpLe => Less(a, b) || Same(a, b)
  }

  lemma CompareExactly(a: string, b: string)
    ensures CompareValues(a, b) < 0 <==> Less(a, b)
    ensures CompareValues(a, b) > 0 <==> Less(b, a)
    ensures CompareValues(a, b) == 0 <==> Same(a, b)
  {
    hide Strtol, StrCmp, LexBefore;
    EqualExactly(a, b);
    StrCmpExactly(a, b);
    StrCmpExactly(b, a);
    StrCmpAntisymmetric(a, b);
  }

  /** Each operator holds of the comparison exactly in its relation. */
  lemma OperatorsExactly(a: string, op: CompareOp, b: string)
    ensures CompareWithOperator(CompareValues(a, b), op) <==> Satisfies(a, op, b)
  {
    hide CompareValues, Less, Same;
    CompareExactly(a, b);
  }

  /** The empty string counts as the integer 0. */
  lemma EmptyIsZero()
    ensures IntegerLike("") && CompareValues("", "0") == 0
  {
    assert SkipDigits("0", 0) == 1 && "0"[0..1] == "0";
    assert DigitsValue("0") == 0;
  }
}
