/**
 What the programs have in common on SQL text: trimming, skipping blanks, reading words, and
 literals with doubled quotes.
 */
module SqlText {
  import opened CStrings

  // ---------- trimming ----------

  function TrimLeft(s: string): (r: string)
    ensures |r| <= |s|
  {
    if s != [] && IsSpace(s[0]) then TrimLeft(s[1..]) else s
  }

  function TrimRight(s: string): (r: string)
    ensures |r| <= |s|
  {
    if s != [] && IsSpace(s[|s| - 1]) then TrimRight(s[..|s| - 1]) else s
  }

  function Trim(s: string): string {
    TrimRight(TrimLeft(s))
  }

  lemma {:induction false} TrimLeftWithin(s: string)
    ensures forall c <- TrimLeft(s) :: c in s
  {
    if s != [] && IsSpace(s[0]) {
      TrimLeftWithin(s[1..]);
    }
  }

  lemma {:induction false} TrimRightWithin(s: string)
    ensures forall c <- TrimRight(s) :: c in s
  {
    if s != [] && IsSpace(s[|s| - 1]) {
      TrimRightWithin(s[..|s| - 1]);
    }
  }

  lemma TrimNulFree(s: string)
    requires NulFree(s)
    ensures NulFree(Trim(s)) && NulFree(TrimLeft(s))
  {
    TrimLeftWithin(s);
    TrimRightWithin(TrimLeft(s));
  }

  /** Trimming takes the blanks off both ends, and nothing else. */
  lemma {:induction false} TrimExactly(front: string, core: string, back: string)
    requires forall c <- front + back :: c in BLANKS
    requires core != [] ==> core[0] !in BLANKS && core[|core| - 1] !in BLANKS
    ensures Trim(front + core + back) == core
    decreases |front| + |back|
  {
    var s := front + core + back;
    if front != [] {
      assert front[0] in front + back && s[0] == front[0];
      SpaceExactly(front[0]);
      assert s[1..] == front[1..] + core + back;
      TrimExactly(front[1..], core, back);
    } else if back != [] {
      var n := |back| - 1;
      assert back[n] in front + back && s[|s| - 1] == back[n];
      SpaceExactly(back[n]);
      assert s[..|s| - 1] == front + core + back[..n];
      TrimExactly(front, core, back[..n]);
      LeftThenRight(front + core + back[..n], back[n]);
      assert front + core + back[..n] + [back[n]] == s;
    } else {
      assert s == core;
      if core != [] {
        SpaceExactly(core[0]);
        SpaceExactly(core[|core| - 1]);
      }
    }
  }

  /** A blank at the end makes no difference. */
  lemma {:induction false} LeftThenRight(s: string, c: char)
    requires IsSpace(c)
    ensures Trim(s + [c]) == Trim(s)
  {
    var t := s + [c];
    if s != [] && IsSpace(s[0]) {
      assert t[1..] == s[1..] + [c];
      LeftThenRight(s[1..], c);
    } else if s == [] {
      assert t[1..] == [];
    } else {
      assert t[..|s|] == s;
    }
  }

  /** What is left neither begins nor ends with a blank. */
  lemma TrimEdges(s: string)
    ensures Trim(s) != [] ==> Trim(s)[0] !in BLANKS && Trim(s)[|Trim(s)| - 1] !in BLANKS
  {
    TrimLeftEdge(s);
    TrimRightEdge(TrimLeft(s));
    if Trim(s) != [] {
      SpaceExactly(Trim(s)[0]);
      SpaceExactly(Trim(s)[|Trim(s)| - 1]);
    }
  }

  lemma {:induction false} TrimLeftEdge(s: string)
    ensures TrimLeft(s) != [] ==> !IsSpace(TrimLeft(s)[0])
  {
    if s != [] && IsSpace(s[0]) {
      TrimLeftEdge(s[1..]);
    }
  }

  lemma {:induction false} TrimRightEdge(s: string)
    ensures TrimRight(s) <= s && (TrimRight(s) != [] ==> !IsSpace(TrimRight(s)[|TrimRight(s)| - 1]))
  {
    if s != [] && IsSpace(s[|s| - 1]) {
      TrimRightEdge(s[..|s| - 1]);
    }
  }

  predicate Blank(s: string) {
    forall c <- s :: IsSpace(c)
  }

  // ---------- blanks ----------

  method SkipBlanks(text: string, cursor: nat) returns (next: nat)
    requires cursor <= |text|
    ensures cursor <= next <= |text| && text[next..] == TrimLeft(text[cursor..])
  {
    next := cursor;
    while next < |text| && IsSpace(text[next])
      invariant cursor <= next <= |text|
      invariant TrimLeft(text[next..]) == TrimLeft(text[cursor..])
    {
      assert text[next..][1..] == text[next + 1..];
      next := next + 1;
    }
  }

  /** A text that begins with no blank is found behind one. */
  lemma BlankSkipped(s: string)
    requires s != [] && !IsSpace(s[0])
    ensures TrimLeft(s) == s && TrimLeft(" " + s) == s
  {
    assert (" " + s)[1..] == s;
  }

  // ---------- words ----------

  function WordLength(s: string): (n: nat)
    ensures n <= |s|
  {
    if s != [] && IsIdentifierChar(s[0]) then 1 + WordLength(s[1..]) else 0
  }

  lemma WordStep(text: string, i: nat)
    requires i <= |text|
    ensures WordLength(text[i..]) == if IsIdentifierChar(At(text, i)) then 1 + WordLength(text[i + 1..]) else 0
    ensures IsIdentifierChar(At(text, i)) ==> i < |text|
  {
    if i < |text| {
      assert text[i..][1..] == text[i + 1..];
    }
  }

  lemma {:induction false} WordReads(word: string, rest: string)
    requires IsWord(word) && !IsIdentifierChar(At(rest, 0))
    ensures WordLength(word + rest) == |word|
  {
    if word == [] {
      assert word + rest == rest;
    } else {
      assert (word + rest)[1..] == word[1..] + rest;
      WordReads(word[1..], rest);
    }
  }

  // ---------- literals ----------

  /** The inside of a literal and its closing quote: quotes are doubled. */
  function PrintBody(v: string, rest: string): string {
    if v == [] then "'" + rest
    else if v[0] == '\'' then "''" + PrintBody(v[1..], rest)
    else [v[0]] + PrintBody(v[1..], rest)
  }

  function PrintLiteral(v: string, rest: string): string {
    "'" + PrintBody(v, rest)
  }

  lemma {:induction false} BodyInFront(v: string, rest: string)
    ensures PrintBody(v, rest) == PrintBody(v, "") + rest && PrintBody(v, "") != []
  {
    if v == [] {
      assert "'" + "" == "'";
    } else {
      BodyInFront(v[1..], rest);
    }
  }
}
