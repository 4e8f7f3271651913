/**
 Putting the values of an INSERT into schema order.  Four programs do this with four
 bookkeeping schemes; they accept exactly the permutations of the schema's columns.
 */
module Reordering {
  import opened Options
  import opened CStrings
  import opened Comparison

  datatype Outcome = Accepted | CountMismatch | Invalid

  /** Position of a column in the schema by the first name that compares equal, or -1. */
  function ColumnIndex(schema: seq<string>, name: string, same: (string, string) -> bool): (r: int)
    ensures -1 <= r < |schema|
    ensures r >= 0 ==> same(schema[r], name) && forall j | 0 <= j < r :: !same(schema[j], name)
    ensures r < 0 ==> forall j | 0 <= j < |schema| :: !same(schema[j], name)
  {
    if schema == [] then -1
    else
      var r := ColumnIndex(schema[..|schema| - 1], name, same);
      if r >= 0 then r else if same(schema[|schema| - 1], name) then |schema| - 1 else -1
  }

  method FindColumn(schema: seq<string>, name: string, same: (string, string) -> bool) returns (index: int)
    ensures index == ColumnIndex(schema, name, same)
  {
    for i := 0 to |schema|
      invariant forall j | 0 <= j < i :: !same(schema[j], name)
    {
      if same(schema[i], name) {
        return i;
      }
    }
    return -1;
  }

  function Indexes(schema: seq<string>, columns: seq<string>, same: (string, string) -> bool): (r: seq<int>)
    ensures |r| == |columns|
    ensures forall i | 0 <= i < |columns| :: r[i] == ColumnIndex(schema, columns[i], same)
  {
    seq(|columns|, i requires 0 <= i < |columns| => ColumnIndex(schema, columns[i], same))
  }

  /** Every column is known, and none is named twice. */
  predicate DistinctKnown(indexes: seq<int>, n: nat) {
    && (forall i | 0 <= i < |indexes| :: 0 <= indexes[i] < n)
    && (forall i, j | 0 <= i < j < |indexes| :: indexes[i] != indexes[j])
  }

  /** The columns of the statement are the columns of the schema in some order. */
  predicate IsPermutation(indexes: seq<int>, n: nat) {
    |indexes| == n && DistinctKnown(indexes, n)
  }

  /** Each value stands in the slot of its column. */
  predicate InPlace(slots: seq<string>, indexes: seq<int>, values: seq<string>) {
    |indexes| == |values|
    && forall i | 0 <= i < |indexes| :: 0 <= indexes[i] < |slots| && slots[indexes[i]] == values[i]
  }

  // ---------- the pigeonhole ----------

  function Upto(n: nat): (s: set<int>)
    ensures forall k :: k in s <==> 0 <= k < n
    ensures |s| == n
  {
    if n == 0 then {} else Upto(n - 1) + {n - 1}
  }

  lemma {:induction false} SubsetOfSameSize<T>(a: set<T>, b: set<T>)
    requires a <= b && |b| <= |a|
    ensures a == b
  {
    if a != {} {
      var x :| x in a;
      SubsetOfSameSize(a - {x}, b - {x});
    }
  }

  function Members(s: seq<int>): set<int> {
    set x | x in s
  }

  lemma {:induction false} DistinctCount(s: seq<int>)
    requires forall i, j | 0 <= i < j < |s| :: s[i] != s[j]
    ensures |Members(s)| == |s|
  {
    if s != [] {
      var init, last := s[..|s| - 1], s[|s| - 1];
      DistinctCount(init);
      assert last !in init;
      assert Members(s) == Members(init) + {last};
    }
  }

  /** With as many distinct columns as slots, no slot stays empty. */
  lemma NoSlotEmpty(indexes: seq<int>, n: nat)
    requires IsPermutation(indexes, n)
    ensures forall k | 0 <= k < n :: k in indexes
  {
    DistinctCount(indexes);
    SubsetOfSameSize(Members(indexes), Upto(n));
    forall k | 0 <= k < n ensures k in indexes {
      assert k in Members(indexes);
    }
  }

  /** So the slots are determined: two fillings of the same statement are equal. */
  lemma FillingIsUnique(a: seq<string>, b: seq<string>, indexes: seq<int>, values: seq<string>)
    requires |a| == |b| && IsPermutation(indexes, |a|)
    requires InPlace(a, indexes, values) && InPlace(b, indexes, values)
    ensures a == b
  {
    NoSlotEmpty(indexes, |a|);
    forall k | 0 <= k < |a| ensures a[k] == b[k] {
      assert k in indexes;
      var i :| 0 <= i < |indexes| && indexes[i] == k;
    }
  }

  /** A slot marker is set exactly for the columns already placed. */
  ghost predicate Marked(marks: seq<bool>, indexes: seq<int>, i: nat) {
    i <= |indexes| && forall k | 0 <= k < |marks| :: marks[k] <==> k in indexes[..i]
  }

  lemma MarkNext(marks: seq<bool>, indexes: seq<int>, i: nat)
    requires Marked(marks, indexes, i) && i < |indexes| && 0 <= indexes[i] < |marks|
    ensures Marked(marks[indexes[i] := true], indexes, i + 1)
  {
    assert indexes[..i + 1] == indexes[..i] + [indexes[i]];
  }

  /** What is placed so far: known, distinct, and each value in its slot. */
  ghost predicate Placed(slots: seq<string>, indexes: seq<int>, values: seq<string>, i: nat) {
    && i <= |indexes| == |values|
    && DistinctKnown(indexes[..i], |slots|)
    && (forall k | 0 <= k < i :: slots[indexes[k]] == values[k])
  }

  /** What all four programs decide. */
  function Decision(schema: seq<string>, columns: seq<string>, values: seq<string>,
                    same: (string, string) -> bool): Outcome {
    if |columns| != |values| || |columns| != |schema| then CountMismatch
    else if DistinctKnown(Indexes(schema, columns, same), |schema|) then Accepted
    else Invalid
  }

  /** Where a slot's column stands in the statement, or the number of columns. */
  function FirstAt(indexes: seq<int>, k: int): (i: nat)
    ensures i <= |indexes| && (i < |indexes| ==> indexes[i] == k)
    ensures k in indexes ==> i < |indexes|
  {
    if indexes == [] || indexes[0] == k then 0 else 1 + FirstAt(indexes[1..], k)
  }

  /** The values in the order of the schema. */
  function Reordered(schema: seq<string>, columns: seq<string>, values: seq<string>, same: (string, string) -> bool)
    : seq<string>
  {
    seq(|schema|, k requires 0 <= k < |schema| =>
      var i := FirstAt(Indexes(schema, columns, same), k);
      if i < |values| then values[i] else "")
  }

  /** Of an accepted statement it holds exactly the values, each in the slot of its column. */
  lemma ReorderedInPlace(schema: seq<string>, columns: seq<string>, values: seq<string>, same: (string, string) -> bool)
    requires Decision(schema, columns, values, same) == Accepted
    ensures InPlace(Reordered(schema, columns, values, same), Indexes(schema, columns, same), values)
    ensures forall v :: v in Reordered(schema, columns, values, same) <==> v in values
  {
    hide ColumnIndex;
    var indexes, slots := Indexes(schema, columns, same), Reordered(schema, columns, values, same);
    NoSlotEmpty(indexes, |schema|);
    forall i | 0 <= i < |indexes| ensures slots[indexes[i]] == values[i] {
      var j := FirstAt(indexes, indexes[i]);
      assert indexes[i] in indexes && indexes[j] == indexes[i];
      assert i == j;
    }
    forall k | 0 <= k < |slots| ensures slots[k] in values {
      assert k in indexes;
    }
    forall v | v in values ensures v in slots {
      var i :| 0 <= i < |values| && values[i] == v;
      assert slots[indexes[i]] == v;
    }
  }

  lemma NothingPlaced(marks: seq<bool>, slots: seq<string>, indexes: seq<int>, values: seq<string>)
    requires |indexes| == |values| && forall k | 0 <= k < |marks| :: !marks[k]
    ensures Marked(marks, indexes, 0) && Placed(slots, indexes, values, 0)
  {
  }

  /** At the end every slot is filled, so a check for missing columns finds nothing. */
  lemma AllPlaced(marks: seq<bool>, slots: seq<string>, indexes: seq<int>, values: seq<string>)
    requires |indexes| == |slots| == |marks|
    requires Marked(marks, indexes, |indexes|) && Placed(slots, indexes, values, |indexes|)
    ensures IsPermutation(indexes, |slots|) && InPlace(slots, indexes, values)
    ensures forall k | 0 <= k < |marks| :: marks[k]
  {
    assert indexes[..|indexes|] == indexes;
    NoSlotEmpty(indexes, |slots|);
  }

  /** The next column is rejected exactly when the statement is not a permutation. */
  lemma RejectNext(marks: seq<bool>, indexes: seq<int>, i: nat)
    requires Marked(marks, indexes, i) && i < |indexes| && indexes[i] < |marks|
    ensures indexes[i] < 0 || marks[indexes[i]] ==> !DistinctKnown(indexes, |marks|)
    ensures indexes[i] >= 0 && !marks[indexes[i]] ==> indexes[i] !in indexes[..i]
  {
    if indexes[i] < 0 || indexes[i] in indexes[..i] {
    }
  }

  /** One more value in its slot, and its slot marked. */
  lemma AdvanceNext(marks: seq<bool>, slots: seq<string>, indexes: seq<int>, values: seq<string>, i: nat)
    requires Marked(marks, indexes, i) && Placed(slots, indexes, values, i) && i < |indexes| && |marks| == |slots|
    requires 0 <= indexes[i] < |slots| && !marks[indexes[i]]
    ensures Marked(marks[indexes[i] := true], indexes, i + 1)
    ensures Placed(slots[indexes[i] := values[i]], indexes, values, i + 1)
  {
    MarkNext(marks, indexes, i);
  }

  /** With equal counts, acceptance means: every schema column gets a value, exactly one. */
  lemma AcceptsExactlyPermutations(schema: seq<string>, columns: seq<string>, values: seq<string>,
                                   same: (string, string) -> bool)
    ensures var indexes := Indexes(schema, columns, same);
            Decision(schema, columns, values, same) == Accepted
            <==> (&& |columns| == |values| == |schema|
                  && (forall k | 0 <= k < |schema| :: k in indexes))
  {
    var indexes := Indexes(schema, columns, same);
    var n := |schema|;
    if Decision(schema, columns, values, same) == Accepted {
      NoSlotEmpty(indexes, n);
    }
    if |columns| == |values| == n && forall k | 0 <= k < n :: k in indexes {
      CoveringIsDistinct(indexes, n);
    }
  }

  lemma {:induction false} MembersCount(s: seq<int>)
    ensures |Members(s)| <= |s|
    ensures |Members(s)| == |s| ==> forall i, j | 0 <= i < j < |s| :: s[i] != s[j]
  {
    if s != [] {
      var init, last := s[..|s| - 1], s[|s| - 1];
      MembersCount(init);
      assert Members(s) == Members(init) + {last};
      if |Members(s)| == |s| {
        assert last !in Members(init);
        forall i, j | 0 <= i < j < |s| ensures s[i] != s[j] {
          assert s[i] == init[i] && init[i] in Members(init);
          if j < |init| { assert s[j] == init[j]; }
        }
      }
    }
  }

  /** n positions that cover n slots: none is used twice and none lies outside. */
  lemma CoveringIsDistinct(indexes: seq<int>, n: nat)
    requires |indexes| == n && forall k | 0 <= k < n :: k in indexes
    ensures DistinctKnown(indexes, n)
  {
    assert Upto(n) <= Members(indexes) by {
      forall k | k in Upto(n) ensures k in Members(indexes) {
        assert k in indexes;
      }
    }
    MembersCount(indexes);
    SubsetOfSameSize(Upto(n), Members(indexes));
    forall i | 0 <= i < n ensures 0 <= indexes[i] < n {
      assert indexes[i] in Members(indexes);
    }
  }

  // ---------- member-dragon: a seen array, and a check for missing columns ----------

  method ReorderInsertValues(schema: seq<string>, columns: seq<string>, values: seq<string>,
                             same: (string, string) -> bool, reordered: array<string>)
    returns (outcome: Outcome)
    requires |schema| <= reordered.Length
    modifies reordered
    ensures outcome == Decision(schema, columns, values, same)
    ensures outcome == Accepted ==> InPlace(reordered[..|schema|], Indexes(schema, columns, same), values)
  {
    hide DistinctKnown, ColumnIndex, Marked, Placed;
    if |columns| != |values| || |columns| != |schema| {
      return CountMismatch;
    }
    var n := |schema|;
    ghost var indexes := Indexes(schema, columns, same);
    var seen := new bool[n](_ => false);
    NothingPlaced(seen[..], reordered[..n], indexes, values);
    for i := 0 to |columns|
      invariant fresh(seen)
      invariant Marked(seen[..], indexes, i) && Placed(reordered[..n], indexes, values, i)
    {
      var schemaIndex := FindColumn(schema, columns[i], same);
      RejectNext(seen[..], indexes, i);
      if schemaIndex < 0 || seen[schemaIndex] {
        return Invalid;
      }
      AdvanceNext(seen[..], reordered[..n], indexes, values, i);
      ghost var slots, marks := reordered[..n], seen[..];
      reordered[schemaIndex] := values[i];
      seen[schemaIndex] := true;
      assert reordered[..n] == slots[schemaIndex := values[i]] && seen[..] == marks[schemaIndex := true];
    }
    AllPlaced(seen[..], reordered[..n], indexes, values);
    for i := 0 to n {
      assert seen[..][i];
      if !seen[i] {
        return Invalid;
      }
    }
    return Accepted;
  }

  // ---------- member-jihyun: an assigned array, and no check for missing columns ----------

  method BuildInsertValues(schema: seq<string>, columns: seq<string>, values: seq<string>,
                           same: (string, string) -> bool)
    returns (outcome: Outcome, ordered: array<string>)
    ensures outcome == Decision(schema, columns, values, same)
    ensures outcome == Accepted ==> InPlace(ordered[..], Indexes(schema, columns, same), values)
    ensures outcome == Accepted ==> ordered.Length == |schema|
  {
    hide DistinctKnown, ColumnIndex, Marked, Placed;
    ordered := new string[|schema|](_ => "");
    if |columns| != |values| || |columns| != |schema| {
      outcome := CountMismatch;
      return;
    }
    ghost var indexes := Indexes(schema, columns, same);
    var placed := new bool[|schema|](_ => false);
    NothingPlaced(placed[..], ordered[..], indexes, values);
    for i := 0 to |columns|
      invariant fresh(placed) && fresh(ordered)
      invariant Marked(placed[..], indexes, i) && Placed(ordered[..], indexes, values, i)
    {
      var schemaIndex := FindColumn(schema, columns[i], same);
      RejectNext(placed[..], indexes, i);
      if schemaIndex < 0 || placed[schemaIndex] {
        outcome := Invalid;
        return;
      }
      AdvanceNext(placed[..], ordered[..], indexes, values, i);
      ghost var slots, marks := ordered[..], placed[..];
      ordered[schemaIndex] := values[i];
      placed[schemaIndex] := true;
      assert ordered[..] == slots[schemaIndex := values[i]] && placed[..] == marks[schemaIndex := true];
    }
    AllPlaced(placed[..], ordered[..], indexes, values);
    outcome := Accepted;
  }

  // ---------- member-hyeonok: slots that start out empty ----------

  /** The occupied slots, as marks and as values. */
  function Occupied(slots: seq<Option<string>>): (marks: seq<bool>)
    ensures |marks| == |slots|
  {
    seq(|slots|, k requires 0 <= k < |slots| => slots[k].Some?)
  }

  function Contents(slots: seq<Option<string>>): (values: seq<string>)
    ensures |values| == |slots|
  {
    seq(|slots|, k requires 0 <= k < |slots| => if slots[k].Some? then slots[k].value else "")
  }

  method AppendInsertRow(schema: seq<string>, columns: seq<string>, values: seq<string>, same: (string, string) -> bool)
    returns (outcome: Outcome, ordered: array<string>)
    ensures outcome == Decision(schema, columns, values, same)
    ensures outcome == Accepted ==> InPlace(ordered[..], Indexes(schema, columns, same), values)
    ensures outcome == Accepted ==> ordered.Length == |schema|
  {
    hide DistinctKnown, ColumnIndex, Marked, Placed;
    ordered := new string[|schema|](_ => "");
    if |columns| != |values| || |columns| != |schema| {
      outcome := CountMismatch;
      return;
    }
    ghost var indexes := Indexes(schema, columns, same);
    var slots := new Option<string>[|schema|](_ => None);
    NothingPlaced(Occupied(slots[..]), Contents(slots[..]), indexes, values);
    for i := 0 to |columns|
      invariant fresh(slots) && fresh(ordered)
      invariant Marked(Occupied(slots[..]), indexes, i) && Placed(Contents(slots[..]), indexes, values, i)
    {
      var schemaIndex := FindColumn(schema, columns[i], same);
      RejectNext(Occupied(slots[..]), indexes, i);
      if schemaIndex < 0 || slots[schemaIndex] != None {
        outcome := Invalid;
        return;
      }
      AdvanceNext(Occupied(slots[..]), Contents(slots[..]), indexes, values, i);
      ghost var before := slots[..];
      slots[schemaIndex] := Some(values[i]);
      assert slots[..] == before[schemaIndex := Some(values[i])];
      assert Occupied(slots[..]) == Occupied(before)[schemaIndex := true];
      assert Contents(slots[..]) == Contents(before)[schemaIndex := values[i]];
    }
    AllPlaced(Occupied(slots[..]), Contents(slots[..]), indexes, values);
    ghost var full := slots[..];
    for k := 0 to |schema|
      invariant fresh(ordered) && slots[..] == full
      invariant forall j | 0 <= j < k :: ordered[j] == Contents(full)[j]
    {
      assert Occupied(full)[k];
      if slots[k] == None {
        outcome := Invalid;
        return;
      }
      ordered[k] := slots[k].value;
    }
    assert ordered[..] == Contents(full);
    outcome := Accepted;
  }

  // ---------- member-jiun: integer columns are checked on the way ----------

  /** An optional sign, then one or more digits. */
  predicate IsIntegerLiteral(s: string) {
    s != [] && var digits := if s[0] == '+' || s[0] == '-' then s[1..] else s;
               digits != [] && forall c <- digits :: IsDigit(c)
  }

  /** What jiun takes for an integer is what dragon compares as one, but for the empty string and leading blanks. */
  lemma IntegerLiteralExactly(s: string)
    ensures IsIntegerLiteral(s) <==> s != "" && s[0] !in BLANKS && IntegerLike(s)
  {
    hide IntegerLike;
    if s != "" {
      hide BLANKS;
      SpaceExactly(s[0]);
      if s[0] !in BLANKS {
        IntegerLikeExactly("", s);
        assert "" + s == s;
      } else {
        assert !IsDigit(s[0]) && s[0] in s;
      }
    }
  }

  datatype Item = Item(text: string, quoted: bool)

  function Texts(items: seq<Item>): (r: seq<string>)
    ensures |r| == |items| && forall i | 0 <= i < |items| :: r[i] == items[i].text
  {
    seq(|items|, i requires 0 <= i < |items| => items[i].text)
  }

  /** A value that an integer column takes. */
  predicate Admissible(isInt: bool, item: Item) {
    isInt ==> !item.quoted && IsIntegerLiteral(item.text)
  }

  /** Every value suits the type of its column. */
  predicate Typed(isInt: seq<bool>, indexes: seq<int>, items: seq<Item>) {
    |indexes| == |items|
    && forall i | 0 <= i < |indexes| && 0 <= indexes[i] < |isInt| :: Admissible(isInt[indexes[i]], items[i])
  }

  /** Integer columns take unquoted integers only, other columns any value. */
  lemma TypedExactly(isInt: seq<bool>, indexes: seq<int>, items: seq<Item>)
    requires |indexes| == |items| && forall i | 0 <= i < |indexes| :: 0 <= indexes[i] < |isInt|
    ensures Typed(isInt, indexes, items)
       <==> forall i | 0 <= i < |items| && isInt[indexes[i]] ::
              var text := items[i].text;
              !items[i].quoted && text != "" && text[0] !in BLANKS && IntegerLike(text)
  {
    hide IntegerLike, IsIntegerLiteral, BLANKS;
    forall i | 0 <= i < |items|
      ensures Admissible(isInt[indexes[i]], items[i])
         <==> (isInt[indexes[i]] ==>
                 && !items[i].quoted && items[i].text != "" && items[i].text[0] !in BLANKS
                 && IntegerLike(items[i].text))
    {
      IntegerLiteralExactly(items[i].text);
    }
  }

  method AssignPlan(schema: seq<string>, isInt: seq<bool>, columns: seq<string>, items: seq<Item>,
                    same: (string, string) -> bool)
    returns (outcome: Outcome, plan: array<string>)
    requires |isInt| == |schema|
    ensures var decision := Decision(schema, columns, Texts(items), same);
            outcome == if decision == Accepted && !Typed(isInt, Indexes(schema, columns, same), items)
                       then Invalid else decision
    ensures outcome == Accepted ==> InPlace(plan[..], Indexes(schema, columns, same), Texts(items))
    ensures outcome == Accepted ==> plan.Length == |schema|
  {
    hide DistinctKnown, ColumnIndex, Marked, Placed, IsIntegerLiteral;
    var n := |schema|;
    plan := new string[n](_ => "");
    if |columns| != |items| || |columns| != |schema| {
      outcome := CountMismatch;
      return;
    }
    ghost var indexes, values := Indexes(schema, columns, same), Texts(items);
    var marks := new bool[n](_ => false);
    NothingPlaced(marks[..], plan[..], indexes, values);
    for i := 0 to |columns|
      invariant fresh(marks) && fresh(plan)
      invariant Marked(marks[..], indexes, i) && Placed(plan[..], indexes, values, i)
      invariant forall k | 0 <= k < i && 0 <= indexes[k] < n :: Admissible(isInt[indexes[k]], items[k])
    {
      var idx := FindColumn(schema, columns[i], same);
      RejectNext(marks[..], indexes, i);
      if idx < 0 || marks[idx] {
        outcome := Invalid;
        return;
      }
      if isInt[idx] {
        if items[i].quoted || !IsIntegerLiteral(items[i].text) {
          assert !Admissible(isInt[indexes[i]], items[i]);
          outcome := Invalid;
          return;
        }
      }
      AdvanceNext(marks[..], plan[..], indexes, values, i);
      ghost var slots, was := plan[..], marks[..];
      plan[idx] := items[i].text;
      marks[idx] := true;
      assert plan[..] == slots[idx := values[i]] && marks[..] == was[idx := true];
    }
    AllPlaced(marks[..], plan[..], indexes, values);
    for k := 0 to n {
      assert marks[..][k];
      if !marks[k] {
        outcome := CountMismatch;
        return;
      }
    }
    outcome := Accepted;
  }
}
