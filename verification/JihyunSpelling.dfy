/**
 What member-jihyun's parser accepts: lists between the parentheses that match, cut at the
 commas outside quotes, whatever stands in them.
 */
module JihyunSpelling {
  import opened Options
  import opened CStrings
  import opened SqlText
  import opened Splitters
  import opened JihyunGrammar

  // ---------- words ----------

  /** The text behind a word that s begins with, in any case, behind blanks. */
  function BehindWord(s: string, word: string): Option<string> {
    var t := TrimLeft(s);
    if |word| <= |t| && SameLetters(t[..|word|], word) then Some(t[|word|..]) else None
  }

  lemma LeadExactly(s: string, keyword: string)
    ensures Lead(s, keyword) == BehindWord(s, keyword)
  {
    hide TrimLeft;
    CaseStartsExactly(TrimLeft(s), keyword);
  }

  /** The name in lower case. */
  ghost predicate Lowered(name: string, lower: string) {
    |name| == |lower| && forall i | 0 <= i < |name| :: ToLower(name[i]) == lower[i]
  }

  /** A whole word stands behind the blanks, and t behind it. */
  ghost predicate Named(s: string, name: string, t: string) {
    var u := TrimLeft(s);
    && |t| < |u| && t == u[|u| - |t|..] && !IsIdentifierChar(At(t, 0))
    && IsWord(u[..|u| - |t|]) && Lowered(u[..|u| - |t|], name)
  }

  lemma WordExactly(s: string, name: string, t: string)
    ensures Word(s) == Some((name, t)) <==> Named(s, name, t)
  {
    hide TrimLeft, ToLower, IsWord;
    var u := TrimLeft(s);
    var n := WordLength(u);
    WholeWord(u);
    LowerExactly(u[..n], name);
    if Named(s, name, t) {
      var x := u[..|u| - |t|];
      assert u == x + t;
      WordReads(x, t);
    }
    if n > 0 && t == u[n..] {
      assert |u| - |t| == n;
    }
  }

  lemma LowerExactly(x: string, lower: string)
    ensures Lower(x) == lower <==> Lowered(x, lower)
  {
    hide ToLower;
  }

  lemma {:induction false} WholeWord(s: string)
    ensures IsWord(s[..WordLength(s)]) && !IsIdentifierChar(At(s[WordLength(s)..], 0))
  {
    if s != [] && IsIdentifierChar(s[0]) {
      WholeWord(s[1..]);
      assert s[..WordLength(s)] == [s[0]] + s[1..][..WordLength(s[1..])];
      assert s[WordLength(s)..] == s[1..][WordLength(s[1..])..];
    }
  }

  // ---------- literals ----------

  /** Quotes in a row. */
  function Quotes(n: nat): string {
    seq(n, i => '\'')
  }

  /** Of quotes in a row every second one counts, and the last one if their number is odd. */
  lemma {:induction false} UndoubleQuotes(n: nat, t: string)
    requires At(t, 0) != '\''
    ensures Undouble(Quotes(n) + t) == Quotes((n + 1) / 2) + Undouble(t)
  {
    var s := Quotes(n) + t;
    if n == 0 {
      assert s == t;
    } else if n == 1 {
      assert s[1..] == t && Quotes(1) == ['\''];
    } else {
      QuotesBegin(n, t, Undouble(t));
      UndoubleQuotes(n - 2, t);
    }
  }

  lemma QuotesBegin(n: nat, t: string, u: string)
    requires n >= 2
    ensures var s := Quotes(n) + t; s[0] == s[1] == '\'' && s[2..] == Quotes(n - 2) + t
    ensures ['\''] + (Quotes((n - 1) / 2) + u) == Quotes((n + 1) / 2) + u
  {
    assert ['\''] + Quotes((n - 1) / 2) == Quotes((n + 1) / 2);
  }

  /** Any other character stands for itself. */
  lemma UndoubleOther(c: char, t: string)
    requires c != '\''
    ensures Undouble([c] + t) == [c] + Undouble(t)
  {
    assert ([c] + t)[1..] == t;
  }

  /** What a trimmed list element stands for. */
  ghost predicate Means(core: string, decode: bool, item: string) {
    && core != []
    && if !decode then Lowered(core, item)
       else if exists inside :: core == "'" + inside + "'"
       then exists inside :: core == "'" + inside + "'" && item == Undouble(inside)
       else item == core
  }

  lemma MeansExactly(core: string, decode: bool, item: string)
    requires Trim(core) == core != []
    ensures ItemOf(decode, core) == item <==> Means(core, decode, item)
  {
    hide Trim, Undouble;
    LowerExactly(core, item);
    if InQuotes(core) {
      assert core == "'" + core[1..|core| - 1] + "'";
    }
    forall inside | core == "'" + inside + "'" ensures InQuotes(core) && inside == core[1..|core| - 1] {
    }
  }

  // ---------- parentheses ----------

  /** Behind a character, in quotes or not. */
  predicate Toggled(c: char, inQuotes: bool) {
    if c == '\'' then !inQuotes else inQuotes
  }

  function Turn(c: char, inQuotes: bool): int {
    if inQuotes then 0 else if c == '(' then 1 else if c == ')' then -1 else 0
  }

  /** How many more parentheses are opened than closed, outside quotes. */
  function Opened(s: string, inQuotes: bool): int {
    if s == [] then 0 else Turn(s[0], inQuotes) + Opened(s[1..], Toggled(s[0], inQuotes))
  }

  /** This closing parenthesis, outside quotes, closes the first of `depth` that are open before s. */
  ghost predicate Closes(s: string, depth: int, inQuotes: bool, k: nat) {
    && k < |s| && s[k] == ')' && !EndsInQuotes(s[..k], inQuotes) && depth + Opened(s[..k], inQuotes) == 1
    && forall j | 0 <= j < k && s[j] == ')' && !EndsInQuotes(s[..j], inQuotes) ::
         depth + Opened(s[..j], inQuotes) > 1
  }

  lemma ClosesStep(s: string, depth: nat, inQuotes: bool, k: nat)
    requires s != [] && 0 < k && depth > 0
    ensures Closes(s, depth, inQuotes, k)
       <==> && (!inQuotes && s[0] == ')' ==> depth > 1)
            && Closes(s[1..], depth + Turn(s[0], inQuotes), Toggled(s[0], inQuotes), k - 1)
  {
    hide EndsInQuotes, Opened, Toggled;
    var t := s[1..];
    forall j | 0 < j <= |s|
      ensures EndsInQuotes(s[..j], inQuotes) == EndsInQuotes(t[..j - 1], Toggled(s[0], inQuotes))
      ensures Opened(s[..j], inQuotes) == Turn(s[0], inQuotes) + Opened(t[..j - 1], Toggled(s[0], inQuotes))
    {
      PrefixStep(s, j, inQuotes);
    }
    NothingBefore(s, inQuotes);
    assert forall j | 0 < j < |s| :: s[j] == t[j - 1];
  }

  lemma PrefixStep(s: string, j: nat, inQuotes: bool)
    requires 0 < j <= |s|
    ensures EndsInQuotes(s[..j], inQuotes) == EndsInQuotes(s[1..][..j - 1], Toggled(s[0], inQuotes))
    ensures Opened(s[..j], inQuotes) == Turn(s[0], inQuotes) + Opened(s[1..][..j - 1], Toggled(s[0], inQuotes))
  {
    assert s[..j][1..] == s[1..][..j - 1] && s[..j][0] == s[0];
  }

  lemma NothingBefore(s: string, inQuotes: bool)
    ensures EndsInQuotes(s[..0], inQuotes) == inQuotes && Opened(s[..0], inQuotes) == 0
  {
  }

  lemma {:induction false} ClosingExactly(s: string, depth: nat, inQuotes: bool, k: nat)
    requires depth > 0
    ensures Closing(s, depth, inQuotes) == Some(k) <==> Closes(s, depth, inQuotes, k)
    decreases |s|
  {
    hide Closes;
    if s == [] {
      ClosesHere(s, depth, inQuotes);
    } else if s[0] == ')' && !inQuotes && depth == 1 {
      ClosesHere(s, depth, inQuotes);
      if k > 0 {
        ClosesStep(s, depth, inQuotes, k);
      }
    } else {
      ClosesHere(s, depth, inQuotes);
      if k > 0 {
        ClosesStep(s, depth, inQuotes, k);
        ClosingExactly(s[1..], depth + Turn(s[0], inQuotes), Toggled(s[0], inQuotes), k - 1);
      }
    }
  }

  lemma ClosesHere(s: string, depth: nat, inQuotes: bool)
    requires depth > 0
    ensures Closes(s, depth, inQuotes, 0) <==> s != [] && s[0] == ')' && !inQuotes && depth == 1
    ensures s == [] ==> forall k: nat :: !Closes(s, depth, inQuotes, k)
  {
  }

  /** Text in which every parenthesis outside quotes has its partner. */
  ghost predicate Enclosed(y: string) {
    && Balanced(y) && Opened(y, false) == 0
    && forall j | 0 <= j < |y| && y[j] == ')' && !EndsInQuotes(y[..j], false) :: Opened(y[..j], false) > 0
  }

  /** Behind blanks, the text y between parentheses, and t behind them. */
  ghost predicate Between(s: string, y: string, t: string) {
    TrimLeft(s) == "(" + y + ")" + t && Enclosed(y)
  }

  lemma EnclosedExactly(y: string, t: string)
    ensures Enclosed(y) <==> Closing(y + ")" + t, 1, false) == Some(|y|)
  {
    hide EndsInQuotes, Opened;
    var s := y + ")" + t;
    ClosingExactly(s, 1, false, |y|);
    assert s[..|y|] == y && s[|y|] == ')';
    forall j | 0 <= j < |y| ensures s[..j] == y[..j] && s[j] == y[j] {
    }
  }

  /** A list is found between the parentheses that match. */
  lemma SegmentExactly(s: string, x: string, t: string)
    ensures Segment(s) == Some((x, t)) <==> exists y :: Between(s, y, t) && x == Trim(y)
  {
    hide TrimLeft, Trim, Closing, Enclosed;
    var u := TrimLeft(s);
    forall y | u == "(" + y + ")" + t && Enclosed(y)
      ensures Segment(s) == Some((Trim(y), t))
    {
      EnclosedExactly(y, t);
      assert u[1..] == y + ")" + t;
      assert u[1..][..|y|] == y && u[1..][|y| + 1..] == t;
    }
    if Segment(s) == Some((x, t)) {
      var k := Closing(u[1..], 1, false).value;
      var y := u[1..][..k];
      ClosingExactly(u[1..], 1, false, k);
      assert u[1..] == y + ")" + t;
      assert u == "(" + y + ")" + t;
      EnclosedExactly(y, t);
      assert Between(s, y, t);
    }
  }

  // ---------- lists ----------

  lemma {:induction false} CollectedExactly(pieces: seq<string>, decode: bool, items: seq<string>)
    ensures Collected(pieces, decode) == Some(items)
       <==> |pieces| == |items| && forall i | 0 <= i < |pieces| :: Means(Trim(pieces[i]), decode, items[i])
    decreases |pieces|
  {
    hide Trim, Means, ItemOf;
    if pieces != [] {
      var core := Trim(pieces[0]);
      if core != [] {
        TrimTwice(pieces[0]);
        if items != [] {
          MeansExactly(core, decode, items[0]);
          CollectedExactly(pieces[1..], decode, items[1..]);
          assert items == [items[0]] + items[1..];
        }
      } else if items != [] {
        NothingMeant(decode, items[0]);
      }
    }
  }

  lemma NothingMeant(decode: bool, item: string)
    ensures !Means([], decode, item)
  {
  }

  lemma TrimTwice(s: string)
    ensures Trim(Trim(s)) == Trim(s)
  {
    TrimEdges(s);
    TrimExactly([], Trim(s), []);
    assert [] + Trim(s) + [] == Trim(s);
  }

  /** The text has these elements between its commas outside quotes, and these are the pieces they stand in. */
  ghost predicate Lists(x: string, decode: bool, items: seq<string>, pieces: seq<string>) {
    && ArePieces(',', pieces) && Joined(',', pieces) == x && Balanced(x)
    && |pieces| == |items| && forall i | 0 <= i < |pieces| :: Means(Trim(pieces[i]), decode, items[i])
  }

  lemma ListExactly(x: string, decode: bool, items: seq<string>)
    ensures SplitList(x, decode) == Some(items) <==> exists pieces :: Lists(x, decode, items, pieces)
  {
    hide Pieces, Collected, ArePieces, Joined, Means, Trim, EndsInQuotes;
    var r := Pieces(',', x, false, []);
    CollectedExactly(r, decode, items);
    PiecesExactly(',', x, r);
    if SplitList(x, decode) == Some(items) {
      assert Lists(x, decode, items, r);
    }
    if exists pieces :: Lists(x, decode, items, pieces) {
      var pieces :| Lists(x, decode, items, pieces);
      PiecesExactly(',', x, pieces);
    }
  }

  // ---------- SELECT ----------

  /** The keyword stands at i outside quotes, with an end of the text, a blank or punctuation on both sides. */
  ghost predicate StandsAt(s: string, i: nat, keyword: string) {
    && i + |keyword| <= |s| && SameLetters(s[i..i + |keyword|], keyword) && !EndsInQuotes(s[..i], false)
    && (i == 0 || s[i - 1] in BLANKS || s[i - 1] in ",();")
    && (i + |keyword| == |s| || s[i + |keyword|] in BLANKS || s[i + |keyword|] in ",();")
  }

  lemma BoundaryExactly(s: string, i: nat)
    ensures Boundary(s, i) <==> i >= |s| || s[i] in BLANKS || s[i] in ",();"
  {
    if i < |s| {
      SpaceExactly(s[i]);
    }
  }

  lemma StandsExactly(s: string, i: nat, keyword: string)
    requires i <= |s|
    ensures StandsAt(s, i, keyword) <==> KeywordAt(s, i, keyword) && !EndsInQuotes(s[..i], false)
  {
    hide BLANKS, SameLetters, EndsInQuotes, CaseStarts, Boundary;
    CaseStartsExactly(s[i..], keyword);
    if i + |keyword| <= |s| {
      assert s[i..][..|keyword|] == s[i..i + |keyword|];
      BoundaryExactly(s, i + |keyword|);
    }
    if i > 0 {
      BoundaryExactly(s, i - 1);
    }
  }

  /** The keyword is found where it stands first. */
  lemma {:induction false} FindExactly(s: string, i: nat, keyword: string, k: nat)
    requires i <= |s| && keyword != [] && keyword[0] != '\''
    ensures FindOutsideQuotes(s, i, EndsInQuotes(s[..i], false), keyword) == Some(k)
       <==> i <= k && StandsAt(s, k, keyword) && forall j | i <= j < k :: !StandsAt(s, j, keyword)
    decreases |s| - i
  {
    hide EndsInQuotes, KeywordAt;
    var q := EndsInQuotes(s[..i], false);
    if i < |s| {
      QuotesStep(s, i);
      FindExactly(s, i + 1, keyword, k);
      StandsExactly(s, i, keyword);
      if s[i] == '\'' {
        NotAtQuote(s, i, keyword);
      }
    }
  }

  lemma QuotesStep(s: string, i: nat)
    requires i < |s|
    ensures EndsInQuotes(s[..i + 1], false)
         == if s[i] == '\'' then !EndsInQuotes(s[..i], false) else EndsInQuotes(s[..i], false)
  {
    QuotesExactly(s[..i], false);
    QuotesExactly(s[..i + 1], false);
    assert s[..i + 1] == s[..i] + [s[i]];
  }

  lemma NotAtQuote(s: string, i: nat, keyword: string)
    requires i < |s| && s[i] == '\'' && keyword != [] && keyword[0] != '\''
    ensures !StandsAt(s, i, keyword)
  {
    if i + |keyword| <= |s| {
      assert s[i..i + |keyword|][0] == s[i];
    }
  }

  /** A star for all columns, or a list of names. */
  ghost predicate Selects(x: string, all: bool, columns: seq<string>) {
    if x == "*" then all && columns == []
    else !all && exists pieces :: Lists(x, false, columns, pieces)
  }

  // ---------- statements ----------

  predicate AllBlank(s: string) {
    forall c <- s :: c in BLANKS
  }

  lemma {:induction false} BlankExactly(s: string)
    ensures TrimLeft(s) == [] <==> AllBlank(s)
  {
    if s != [] {
      SpaceExactly(s[0]);
      assert s == [s[0]] + s[1..];
      if IsSpace(s[0]) {
        BlankExactly(s[1..]);
      } else {
        assert s[0] in s;
      }
    }
  }

  /** The texts that an INSERT consists of: behind the table, the names, behind them, the values and behind them. */
  datatype InsertParts = InsertParts(b: string, names: string, c: string, literals: string, rest: string)

  ghost predicate SpellsInsert(s: string, st: Statement, p: InsertParts) {
    && st.Insert?
    && BehindWord(s, "insert").Some?
    && BehindWord(BehindWord(s, "insert").value, "into").Some?
    && Named(BehindWord(BehindWord(s, "insert").value, "into").value, st.table, p.b)
    && Between(p.b, p.names, p.c)
    && (exists pieces :: Lists(Trim(p.names), false, st.columns, pieces))
    && BehindWord(p.c, "values").Some?
    && Between(BehindWord(p.c, "values").value, p.literals, p.rest)
    && (exists pieces :: Lists(Trim(p.literals), true, st.values, pieces))
    && AllBlank(p.rest)
  }

  /** What stands behind the word select, the place of the word from in it, and what stands behind the table. */
  datatype SelectParts = SelectParts(a: string, from: nat, rest: string)

  ghost predicate SpellsSelect(s: string, st: Statement, p: SelectParts) {
    && st.Select?
    && BehindWord(s, "select") == Some(p.a)
    && StandsAt(p.a, p.from, "from") && (forall j | 0 <= j < p.from :: !StandsAt(p.a, j, "from"))
    && Selects(Trim(p.a[..p.from]), st.all, st.columns)
    && Named(p.a[p.from + 4..], st.table, p.rest)
    && AllBlank(p.rest)
  }

  ghost predicate Spelled(text: string, st: Statement) {
    (exists p :: SpellsInsert(text, st, p)) || (exists p :: SpellsSelect(text, st, p))
  }

  lemma InsertSpells(text: string, st: Statement)
    requires BehindWord(text, "insert").Some? && ParseInsert(TrimLeft(text)) == Some(st)
    ensures exists p :: SpellsInsert(text, st, p)
  {
    hide TrimLeft, SameLetters, Word, Segment, Lead, SplitList, Lists, Between, Named, Trim, AllBlank;
    var i := BehindWord(text, "insert").value;
    LeadExactly(i, "into");
    var a := Lead(i, "into").value;
    var (table, b) := Word(a).value;
    WordExactly(a, table, b);
    var (x, c) := Segment(b).value;
    SegmentExactly(b, x, c);
    var names :| Between(b, names, c) && x == Trim(names);
    ListExactly(x, false, st.columns);
    LeadExactly(c, "values");
    var d := Lead(c, "values").value;
    var (z, rest) := Segment(d).value;
    SegmentExactly(d, z, rest);
    var literals :| Between(d, literals, rest) && z == Trim(literals);
    ListExactly(z, true, st.values);
    BlankExactly(rest);
    assert SpellsInsert(text, st, InsertParts(b, names, c, literals, rest));
  }

  lemma InsertParses(text: string, st: Statement, p: InsertParts)
    requires SpellsInsert(text, st, p)
    ensures BehindWord(text, "insert").Some? && ParseInsert(TrimLeft(text)) == Some(st)
  {
    hide TrimLeft, SameLetters, Word, Segment, Lead, SplitList, Lists, Between, Named, Trim, AllBlank;
    var i := BehindWord(text, "insert").value;
    LeadExactly(i, "into");
    var a := Lead(i, "into").value;
    WordExactly(a, st.table, p.b);
    SegmentExactly(p.b, Trim(p.names), p.c);
    ListExactly(Trim(p.names), false, st.columns);
    LeadExactly(p.c, "values");
    SegmentExactly(Lead(p.c, "values").value, Trim(p.literals), p.rest);
    ListExactly(Trim(p.literals), true, st.values);
    BlankExactly(p.rest);
  }

  lemma SelectsExactly(x: string, all: bool, columns: seq<string>)
    ensures SelectedColumns(x) == Some((all, columns)) <==> Selects(x, all, columns)
  {
    hide SplitList, Lists;
    ListExactly(x, false, columns);
  }

  lemma FindFirst(a: string, k: nat)
    ensures FindOutsideQuotes(a, 0, false, "from") == Some(k)
       <==> StandsAt(a, k, "from") && forall j | 0 <= j < k :: !StandsAt(a, j, "from")
  {
    FindExactly(a, 0, "from", k);
    assert a[..0] == [];
  }

  lemma SelectSpells(text: string, st: Statement)
    requires BehindWord(text, "select").Some? && ParseSelect(TrimLeft(text)) == Some(st)
    ensures exists p :: SpellsSelect(text, st, p)
  {
    hide TrimLeft, SameLetters, Word, FindOutsideQuotes, SelectedColumns, Selects, StandsAt, Named, Trim, AllBlank;
    var a := BehindWord(text, "select").value;
    var from := FindOutsideQuotes(a, 0, false, "from").value;
    FindFirst(a, from);
    var (all, columns) := SelectedColumns(Trim(a[..from])).value;
    SelectsExactly(Trim(a[..from]), all, columns);
    var (table, rest) := Word(a[from + 4..]).value;
    WordExactly(a[from + 4..], table, rest);
    BlankExactly(rest);
    assert SpellsSelect(text, st, SelectParts(a, from, rest));
  }

  lemma SelectParses(text: string, st: Statement, p: SelectParts)
    requires SpellsSelect(text, st, p)
    ensures BehindWord(text, "select").Some? && ParseSelect(TrimLeft(text)) == Some(st)
  {
    hide TrimLeft, SameLetters, Word, FindOutsideQuotes, SelectedColumns, Selects, StandsAt, Named, Trim, AllBlank;
    FindFirst(p.a, p.from);
    SelectsExactly(Trim(p.a[..p.from]), st.all, st.columns);
    WordExactly(p.a[p.from + 4..], st.table, p.rest);
    BlankExactly(p.rest);
  }

  lemma OneLead(text: string)
    ensures BehindWord(text, "insert").None? || BehindWord(text, "select").None?
  {
    hide TrimLeft;
    var t := TrimLeft(text);
    if |t| >= 6 {
      assert t[..6][0] == t[0];
    }
  }

  /** The parser makes exactly those statements of a text that the text spells. */
  lemma ParsesExactly(text: string, st: Statement)
    ensures ParseStatement(text) == Some(st) <==> Spelled(text, st)
  {
    hide TrimLeft, SameLetters, CaseStarts, ParseInsert, ParseSelect, SpellsInsert, SpellsSelect;
    var s := TrimLeft(text);
    CaseStartsExactly(s, "insert");
    CaseStartsExactly(s, "select");
    OneLead(text);
    if ParseStatement(text) == Some(st) {
      if CaseStarts(s, "insert") {
        InsertSpells(text, st);
      } else {
        SelectSpells(text, st);
      }
    }
    if exists p :: SpellsInsert(text, st, p) {
      var p :| SpellsInsert(text, st, p);
      InsertParses(text, st, p);
    }
    if exists p :: SpellsSelect(text, st, p) {
      var p :| SpellsSelect(text, st, p);
      SelectParses(text, st, p);
    }
  }
}
