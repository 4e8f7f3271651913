/**
 The grammar of member-jihyun's parser, whose lists are cut out by parenthesis and comma
 scans that look past quoted text, and the round trip from statements to text and back.
 */
module JihyunGrammar {
  import opened Options
  import opened CStrings
  import opened SqlText
  import opened Splitters

  datatype Statement =
    | Insert(table: string, columns: seq<string>, values: seq<string>)
    | Select(table: string, all: bool, columns: seq<string>)

  // ---------- tokens ----------

  function Lower(s: string): string {
    seq(|s|, i requires 0 <= i < |s| => ToLower(s[i]))
  }

  /** The inside of a literal, with each doubled quote taken for one. */
  function Undouble(s: string): string {
    if s == [] then []
    else if s[0] == '\'' && At(s, 1) == '\'' then ['\''] + Undouble(s[2..])
    else [s[0]] + Undouble(s[1..])
  }

  predicate InQuotes(token: string) {
    |token| >= 2 && token[0] == '\'' && token[|token| - 1] == '\''
  }

  function DecodeToken(token: string): string {
    var t := Trim(token);
    if InQuotes(t) then Undouble(t[1..|t| - 1]) else t
  }

  /** What a list element stands for: a value, or a name in lower case. */
  function ItemOf(decode: bool, token: string): string {
    if decode then DecodeToken(token) else Lower(Trim(token))
  }

  // ---------- lists ----------

  /** The elements that the pieces stand for; none may be blank. */
  function Collected(pieces: seq<string>, decode: bool): Option<seq<string>> {
    if pieces == [] then Some([])
    else
      var token := Trim(pieces[0]);
      if token == [] then None
      else
        var rest :- Collected(pieces[1..], decode);
        Some([ItemOf(decode, token)] + rest)
  }

  function SplitList(text: string, decode: bool): Option<seq<string>> {
    if Balanced(text) then Collected(Pieces(',', text, false, []), decode) else None
  }

  /** Where the parenthesis opened `depth` levels up is closed, outside quotes. */
  function Closing(s: string, depth: nat, inQuotes: bool): (r: Option<nat>)
    requires depth > 0
    ensures r.Some? ==> r.value < |s|
    decreases |s|
  {
    if s == [] then None
    else if s[0] == '\'' then Later(1, Closing(s[1..], depth, !inQuotes))
    else if !inQuotes && s[0] == '(' then Later(1, Closing(s[1..], depth + 1, false))
    else if !inQuotes && s[0] == ')' then
      if depth == 1 then Some(0) else Later(1, Closing(s[1..], depth - 1, false))
    else Later(1, Closing(s[1..], depth, inQuotes))
  }

  function Later(n: nat, r: Option<nat>): (later: Option<nat>)
    ensures later.Some? <==> r.Some?
  {
    match r
    case None => None
    case Some(k) => Some(n + k)
  }

  /** The trimmed text between parentheses, and what is behind them. */
  function Segment(s: string): Option<(string, string)> {
    var t := TrimLeft(s);
    if At(t, 0) != '(' then None
    else
      var k :- Closing(t[1..], 1, false);
      Some((Trim(t[1..][..k]), t[1..][k + 1..]))
  }

  function Word(s: string): Option<(string, string)> {
    var t := TrimLeft(s);
    var n := WordLength(t);
    if n == 0 then None else Some((Lower(t[..n]), t[n..]))
  }

  /** A keyword after blanks; what is behind it need not be a new word. */
  function Lead(s: string, keyword: string): Option<string> {
    var t := TrimLeft(s);
    if CaseStarts(t, keyword) then Some(t[|keyword|..]) else None
  }

  // ---------- statements ----------

  function ParseInsert(s: string): Option<Statement>
    requires |s| >= 6
  {
    var a :- Lead(s[6..], "into");
    var (table, b) :- Word(a);
    var (names, c) :- Segment(b);
    var columns :- SplitList(names, false);
    var d :- Lead(c, "values");
    var (literals, rest) :- Segment(d);
    var values :- SplitList(literals, true);
    if TrimLeft(rest) == [] then Some(Insert(table, columns, values)) else None
  }

  /** NUL, a blank, or punctuation around a keyword. */
  predicate Boundary(s: string, i: nat) {
    i >= |s| || IsSpace(s[i]) || s[i] == ',' || s[i] == '(' || s[i] == ')' || s[i] == ';'
  }

  predicate KeywordAt(s: string, i: nat, keyword: string)
    requires i <= |s|
  {
    (i == 0 || Boundary(s, i - 1)) && CaseStarts(s[i..], keyword) && Boundary(s, i + |keyword|)
  }

  /** The first place from i on, outside quotes, where the keyword stands between boundaries. */
  function FindOutsideQuotes(s: string, i: nat, inQuotes: bool, keyword: string): (r: Option<nat>)
    requires i <= |s|
    ensures r.Some? ==> i <= r.value < |s| && r.value + |keyword| <= |s|
    decreases |s| - i
  {
    if i == |s| then None
    else if s[i] == '\'' then FindOutsideQuotes(s, i + 1, !inQuotes, keyword)
    else if !inQuotes && KeywordAt(s, i, keyword) then Some(i)
    else FindOutsideQuotes(s, i + 1, inQuotes, keyword)
  }

  function SelectedColumns(s: string): Option<(bool, seq<string>)> {
    if s == "*" then Some((true, []))
    else
      var columns :- SplitList(s, false);
      Some((false, columns))
  }

  function ParseSelect(s: string): Option<Statement>
    requires |s| >= 6
  {
    var a := s[6..];
    var from :- FindOutsideQuotes(a, 0, false, "from");
    var (all, columns) :- SelectedColumns(Trim(a[..from]));
    var (table, rest) :- Word(a[from + 4..]);
    if TrimLeft(rest) == [] then Some(Select(table, all, columns)) else None
  }

  function ParseStatement(text: string): Option<Statement> {
    var s := TrimLeft(text);
    if CaseStarts(s, "insert") then ParseInsert(s)
    else if CaseStarts(s, "select") then ParseSelect(s)
    else None
  }

  // ---------- printing, in front of `rest` ----------

  function PrintElement(decode: bool, item: string, rest: string): string {
    if decode then PrintLiteral(item, rest) else item + rest
  }

  function PrintList(decode: bool, items: seq<string>, rest: string): string {
    if items == [] then rest
    else PrintElement(decode, items[0],
                      if |items| == 1 then rest else "," + (" " + PrintList(decode, items[1..], rest)))
  }

  function Print(st: Statement): string {
    match st
    case Insert(table, columns, values) =>
      "insert" + (" " + ("into" + (" " + (table + (" " + ("(" + PrintList(false, columns, ")" +
      (" " + ("values" + (" " + ("(" + PrintList(true, values, ")"))))))))))))
    case Select(table, all, columns) =>
      "select" + (" " + ((if all then "*" else PrintList(false, columns, "")) + (" " + ("from" + (" " + table)))))
  }

  /** A word in lower case. */
  predicate LowerWord(s: string) {
    s != [] && IsWord(s) && Lower(s) == s
  }

  predicate Fits(decode: bool, item: string) {
    if decode then NulFree(item) else LowerWord(item)
  }

  predicate AllFit(decode: bool, items: seq<string>) {
    items != [] && forall i | 0 <= i < |items| :: Fits(decode, items[i])
  }

  predicate Printable(st: Statement) {
    match st
    case Insert(table, columns, values) => LowerWord(table) && AllFit(false, columns) && AllFit(true, values)
    case Select(table, all, columns) => LowerWord(table) && if all then columns == [] else AllFit(false, columns)
  }

  // ---------- one element ----------

  /** No quote, comma or parenthesis: the scans pass it. */
  predicate Inert(s: string) {
    forall c <- s :: c != '\'' && c != ',' && c != '(' && c != ')'
  }

  lemma {:induction false} InertPassed(front: string, rest: string, depth: nat, piece: string)
    requires Inert(front) && depth > 0
    ensures Closing(front + rest, depth, false) == Later(|front|, Closing(rest, depth, false))
    ensures Pieces(',', front + rest, false, piece) == Pieces(',', rest, false, piece + front)
    ensures EndsInQuotes(front + rest, false) == EndsInQuotes(rest, false)
    decreases |front|
  {
    if front == [] {
      assert front + rest == rest && piece + front == piece;
    } else {
      assert (front + rest)[1..] == front[1..] + rest && front[0] in front;
      assert forall c <- front[1..] :: c in front;
      InertPassed(front[1..], rest, depth, piece + [front[0]]);
      assert piece + [front[0]] + front[1..] == piece + front;
    }
  }

  /** The inside of a literal and its closing quote are passed, whatever they hold. */
  lemma {:induction false} BodyPassed(v: string, rest: string, depth: nat, piece: string)
    requires depth > 0
    ensures PrintBody(v, rest) == PrintBody(v, "") + rest
    ensures Closing(PrintBody(v, rest), depth, true) == Later(|PrintBody(v, "")|, Closing(rest, depth, false))
    ensures Pieces(',', PrintBody(v, rest), true, piece) == Pieces(',', rest, false, piece + PrintBody(v, ""))
    ensures EndsInQuotes(PrintBody(v, rest), true) == EndsInQuotes(rest, false)
    decreases |v|
  {
    hide Closing, Pieces, EndsInQuotes;
    var s := PrintBody(v, rest);
    if v == [] {
      assert "'" + "" == "'";
      QuoteCloses(rest, depth, piece);
    } else {
      var width := if v[0] == '\'' then 2 else 1;
      var front := s[..width];
      var t := PrintBody(v[1..], rest);
      BodyPassed(v[1..], rest, depth, piece + front);
      assert s[width..] == t && PrintBody(v, "") == front + PrintBody(v[1..], "");
      assert piece + front + PrintBody(v[1..], "") == piece + (front + PrintBody(v[1..], ""));
      BodyStep(s, width, depth, piece);
    }
  }

  lemma QuoteCloses(rest: string, depth: nat, piece: string)
    requires depth > 0
    ensures Closing("'" + rest, depth, true) == Later(1, Closing(rest, depth, false))
    ensures Pieces(',', "'" + rest, true, piece) == Pieces(',', rest, false, piece + "'")
    ensures EndsInQuotes("'" + rest, true) == EndsInQuotes(rest, false)
  {
    assert ("'" + rest)[1..] == rest;
  }

  /** Two quotes or any other character, inside a literal. */
  lemma BodyStep(s: string, width: nat, depth: nat, piece: string)
    requires depth > 0 && 1 <= width <= 2 && width <= |s|
    requires if width == 2 then s[0] == '\'' && s[1] == '\'' else s[0] != '\''
    ensures Closing(s, depth, true) == Later(width, Closing(s[width..], depth, true))
    ensures Pieces(',', s, true, piece) == Pieces(',', s[width..], true, piece + s[..width])
    ensures EndsInQuotes(s, true) == EndsInQuotes(s[width..], true)
  {
    if width == 2 {
      var t := s[1..];
      assert t[0] == '\'' && t[1..] == s[2..];
      assert piece + [s[0]] + [t[0]] == piece + s[..2];
    } else {
      assert s[..1] == [s[0]];
    }
  }

  lemma ElementPassed(decode: bool, item: string, rest: string, piece: string)
    requires Fits(decode, item)
    ensures var text := PrintElement(decode, item, "");
            && PrintElement(decode, item, rest) == text + rest
            && Closing(text + rest, 1, false) == Later(|text|, Closing(rest, 1, false))
            && Pieces(',', text + rest, false, piece) == Pieces(',', rest, false, piece + text)
            && EndsInQuotes(text + rest, false) == EndsInQuotes(rest, false)
  {
    if decode {
      var body := PrintBody(item, "");
      BodyPassed(item, rest, 1, piece + "'");
      var s := "'" + PrintBody(item, rest);
      assert s[1..] == PrintBody(item, rest);
      assert "'" + (body + rest) == "'" + body + rest;
      assert piece + "'" + body == piece + ("'" + body);
    } else {
      assert item + "" == item;
      InertPassed(item, rest, 1, piece);
    }
  }

  lemma {:induction false} UndoubleBody(v: string)
    ensures PrintBody(v, "") != [] && PrintBody(v, "")[|PrintBody(v, "")| - 1] == '\''
    ensures Undouble(PrintBody(v, "")[..|PrintBody(v, "")| - 1]) == v
  {
    var s := PrintBody(v, "");
    if v == [] {
      assert s == "'";
    } else {
      UndoubleBody(v[1..]);
      var t := PrintBody(v[1..], "");
      assert v == [v[0]] + v[1..];
      if v[0] == '\'' {
        assert s[..|s| - 1][2..] == t[..|t| - 1];
      } else {
        assert s[..|s| - 1][1..] == t[..|t| - 1];
      }
    }
  }

  /** An element reads back from its text, also behind a blank. */
  lemma ElementReads(decode: bool, item: string)
    requires Fits(decode, item)
    ensures var text := PrintElement(decode, item, "");
            && text != [] && !IsSpace(text[0]) && !IsSpace(text[|text| - 1])
            && Trim(text) == text && Trim(" " + text) == text && ItemOf(decode, text) == item
  {
    hide Trim, Undouble, PrintBody, Lower;
    if decode {
      LiteralReads(item);
    } else {
      assert item + "" == item && item[0] in item && item[|item| - 1] in item;
      EdgesTrim(item);
    }
  }

  lemma LiteralReads(v: string)
    ensures var text := PrintLiteral(v, "");
            && text != [] && !IsSpace(text[0]) && !IsSpace(text[|text| - 1])
            && Trim(text) == text && Trim(" " + text) == text && DecodeToken(text) == v
  {
    hide Trim, Undouble, PrintBody;
    var text := PrintLiteral(v, "");
    var body := PrintBody(v, "");
    UndoubleBody(v);
    assert text == "'" + body;
    assert text[1..|text| - 1] == body[..|body| - 1];
    EdgesTrim(text);
  }

  lemma EdgesTrim(text: string)
    requires text != [] && !IsSpace(text[0]) && !IsSpace(text[|text| - 1])
    ensures Trim(text) == text && Trim(" " + text) == text && Trim(text + " ") == text
            && Trim(" " + (text + " ")) == text
  {
    BlankSkipped(text);
    BlankSkipped(text + " ");
    var t := text + " ";
    assert t[|text|] == ' ' && t[..|text|] == text;
    assert TrimRight(t) == TrimRight(text);
  }

  // ---------- lists ----------

  /** The scans pass a printed list. */
  lemma {:induction false} ListPassed(decode: bool, items: seq<string>, rest: string)
    requires AllFit(decode, items)
    ensures var text := PrintList(decode, items, "");
            && PrintList(decode, items, rest) == text + rest
            && Closing(text + rest, 1, false) == Later(|text|, Closing(rest, 1, false))
            && EndsInQuotes(text + rest, false) == EndsInQuotes(rest, false)
    decreases |items|
  {
    hide Fits, PrintElement, Closing, EndsInQuotes;
    if |items| == 1 {
      ElementPassed(decode, items[0], rest, "");
    } else {
      ListPassed(decode, items[1..], rest);
      ElementBeforeComma(decode, items[0], PrintList(decode, items[1..], ""), rest);
      ElementBeforeComma(decode, items[0], PrintList(decode, items[1..], ""), "");
      assert PrintList(decode, items[1..], "") + "" == PrintList(decode, items[1..], "");
    }
  }

  lemma ElementBeforeComma(decode: bool, item: string, more: string, rest: string)
    requires Fits(decode, item)
    ensures var text := PrintElement(decode, item, "," + (" " + more));
            && PrintElement(decode, item, "," + (" " + (more + rest))) == text + rest
            && |text| >= |more|
            && Closing(text + rest, 1, false) == Later(|text| - |more|, Closing(more + rest, 1, false))
            && EndsInQuotes(text + rest, false) == EndsInQuotes(more + rest, false)
  {
    hide Fits, PrintElement, Closing, EndsInQuotes;
    ElementPassed(decode, item, "," + (" " + (more + rest)), "");
    ElementPassed(decode, item, "," + (" " + more), "");
    SeparatorPassed(more + rest);
    var text := PrintElement(decode, item, "");
    assert text + ("," + (" " + (more + rest))) == text + ("," + (" " + more)) + rest;
  }

  lemma SeparatorPassed(rest: string)
    ensures Closing("," + (" " + rest), 1, false) == Later(2, Closing(rest, 1, false))
    ensures EndsInQuotes("," + (" " + rest), false) == EndsInQuotes(rest, false)
    ensures Pieces(',', "," + (" " + rest), false, "") == [""] + Pieces(',', rest, false, " ")
    ensures forall piece :: Pieces(',', "," + (" " + rest), false, piece) == [piece] + Pieces(',', rest, false, " ")
  {
    var s := "," + (" " + rest);
    assert s[1..] == " " + rest && s[1..][1..] == rest && [] + [' '] == " ";
  }

  lemma {:induction false} ListSplits(decode: bool, items: seq<string>, lead: string)
    requires AllFit(decode, items) && (lead == "" || lead == " ")
    ensures Collected(Pieces(',', PrintList(decode, items, ""), false, lead), decode) == Some(items)
    decreases |items|
  {
    hide Fits, PrintElement, Pieces, Trim, ItemOf;
    var text := PrintElement(decode, items[0], "");
    ElementReads(decode, items[0]);
    assert "" + text == text;
    if |items| == 1 {
      ElementPassed(decode, items[0], "", lead);
      LastPieceIs(lead + text);
      assert text + "" == text && [items[0]] + [] == items;
    } else {
      var more := PrintList(decode, items[1..], "");
      ListSplits(decode, items[1..], " ");
      ElementPassed(decode, items[0], "," + (" " + more), lead);
      SeparatorPassed(more);
      assert [items[0]] + items[1..] == items;
    }
  }

  lemma LastPieceIs(piece: string)
    ensures Pieces(',', "", false, piece) == [piece] + []
  {
  }

  lemma ListEdges(decode: bool, items: seq<string>)
    requires AllFit(decode, items)
    ensures var text := PrintList(decode, items, "");
            text != [] && !IsSpace(text[0]) && !IsSpace(text[|text| - 1])
    decreases |items|
  {
    hide Fits, PrintElement, Closing, Pieces, EndsInQuotes, ItemOf, Trim;
    ElementReads(decode, items[0]);
    if |items| > 1 {
      ListEdges(decode, items[1..]);
      var more := PrintList(decode, items[1..], "");
      ElementPassed(decode, items[0], "," + (" " + more), "");
    }
  }

  /** A printed list between parentheses is cut out and split into its elements. */
  lemma SegmentReads(decode: bool, items: seq<string>, rest: string)
    requires AllFit(decode, items)
    ensures var text := PrintList(decode, items, "");
            && Segment(" " + ("(" + PrintList(decode, items, ")" + rest))) == Some((text, rest))
            && SplitList(text, decode) == Some(items)
  {
    hide AllFit, PrintList, Closing, Pieces, Collected, EndsInQuotes, Trim;
    var text := PrintList(decode, items, "");
    var s := text + (")" + rest);
    ListPassed(decode, items, ")" + rest);
    ListPassed(decode, items, "");
    ListSplits(decode, items, "");
    ListEdges(decode, items);
    EdgesTrim(text);
    ClosesAtOnce(rest);
    BlankSkipped("(" + s);
    assert text + "" == text;
    assert ("(" + s)[1..] == s && s[..|text|] == text && s[|text| + 1..] == rest;
  }

  lemma ClosesAtOnce(rest: string)
    ensures Closing(")" + rest, 1, false) == Some(0) && !EndsInQuotes("", false)
  {
  }

  // ---------- statements ----------

  lemma LeadReads(keyword: string, rest: string)
    requires keyword != [] && IsWord(keyword)
    ensures Lead(" " + (keyword + rest), keyword) == Some(rest) && Lead(keyword + rest, keyword) == Some(rest)
  {
    assert keyword[0] in keyword;
    BlankSkipped(keyword + rest);
  }

  lemma WordReadsBack(word: string, rest: string)
    requires LowerWord(word) && !IsIdentifierChar(At(rest, 0))
    ensures Word(" " + (word + rest)) == Some((word, rest))
  {
    hide Lower;
    assert word[0] in word;
    BlankSkipped(word + rest);
    WordReads(word, rest);
    assert (word + rest)[..|word|] == word;
  }

  lemma KeywordsAreWords()
    ensures IsWord("insert") && IsWord("into") && IsWord("values") && IsWord("select") && IsWord("from")
  {
  }

  lemma InsertReads(st: Statement)
    requires st.Insert? && Printable(st)
    ensures ParseInsert(Print(st)) == Some(st)
  {
    hide Lead, Word, Segment, SplitList, PrintList, AllFit, LowerWord, IsWord, TrimLeft;
    KeywordsAreWords();
    var e := " " + ("(" + PrintList(true, st.values, ")" + ""));
    var d := " " + ("values" + e);
    var c := " " + ("(" + PrintList(false, st.columns, ")" + d));
    var b := " " + (st.table + c);
    var a := " " + ("into" + b);
    assert ")" + "" == ")";
    LeadReads("into", b);
    WordReadsBack(st.table, c);
    SegmentReads(false, st.columns, d);
    LeadReads("values", e);
    SegmentReads(true, st.values, "");
    assert Print(st)[6..] == a;
  }

  // ---------- SELECT ----------

  lemma {:induction false} PassInsideWord(s: string, i: nat, j: nat)
    requires 0 < i <= j <= |s| && forall k | i - 1 <= k < j :: IsIdentifierChar(s[k])
    ensures FindOutsideQuotes(s, i, false, "from") == FindOutsideQuotes(s, j, false, "from")
    decreases j - i
  {
    if i < j {
      assert IsIdentifierChar(s[i - 1]) && IsIdentifierChar(s[i]);
      PassInsideWord(s, i + 1, j);
    }
  }

  /** A character that is no letter and no quote. */
  lemma PassSeparator(s: string, i: nat)
    requires i < |s| && (s[i] == ' ' || s[i] == ',' || s[i] == '*')
    ensures FindOutsideQuotes(s, i, false, "from") == FindOutsideQuotes(s, i + 1, false, "from")
  {
    assert ToLower(s[i..][0]) != ToLower("from"[0]);
  }

  lemma FromHere(s: string, i: nat)
    requires i < |s| && s[i] != '\'' && (i == 0 || Boundary(s, i - 1))
    ensures FindOutsideQuotes(s, i, false, "from")
         == if CaseStarts(s[i..], "from") && Boundary(s, i + 4) then Some(i)
            else FindOutsideQuotes(s, i + 1, false, "from")
  {
  }

  /** A name that begins behind a blank is found if it is the keyword, else passed. */
  lemma PassName(s: string, i: nat, name: string, rest: string)
    requires LowerWord(name) && 0 < i <= |s| && s[i - 1] == ' ' && s[i..] == name + rest
    requires rest != [] && (rest[0] == ' ' || rest[0] == ',')
    ensures FindOutsideQuotes(s, i, false, "from")
         == if name == "from" then Some(i) else FindOutsideQuotes(s, i + |name|, false, "from")
  {
    hide FindOutsideQuotes;
    assert forall k | i <= k < i + |name| :: s[k] == s[i..][k - i] == name[k - i] && name[k - i] in name;
    assert s[i + |name|] == s[i..][|name|] == rest[0];
    FromHere(s, i);
    IsFrom(s, i, name, rest);
    if name != "from" {
      PassInsideWord(s, i + 1, i + |name|);
    }
  }

  lemma IsFrom(s: string, i: nat, name: string, rest: string)
    requires LowerWord(name) && i <= |s| && s[i..] == name + rest
    requires rest != [] && (rest[0] == ' ' || rest[0] == ',')
    ensures CaseStarts(s[i..], "from") && Boundary(s, i + 4) <==> name == "from"
  {
    var t := s[i..];
    assert Lower(name) == name;
    assert forall k | 0 <= k < |name| ::
             t[k] == name[k] && name[k] in name && ToLower(t[k]) == Lower(name)[k] == name[k];
    assert t[|name|] == rest[0];
    if |name| > 4 {
      assert s[i + 4] == t[4] == name[4];
    } else if |name| < 4 {
      assert ToLower(t[|name|]) != ToLower("from"[|name|]);
    } else {
      assert s[i + 4] == t[4];
      assert CaseStarts(t, "from") ==> forall k | 0 <= k < 4 :: name[k] == "from"[k];
    }
  }

  /** What stands in front of the first word from. */
  function Before(columns: seq<string>): string {
    if columns == [] || columns[0] == "from" then ""
    else if |columns| == 1 then columns[0] + " "
    else columns[0] + ("," + (" " + Before(columns[1..])))
  }

  lemma {:induction false} FindsFrom(s: string, i: nat, columns: seq<string>, rest: string)
    requires AllFit(false, columns) && 0 < i <= |s| && s[i - 1] == ' ' && rest != [] && rest[0] == ' '
    requires s[i..] == PrintList(false, columns, " " + ("from" + rest))
    ensures var before := Before(columns);
            FindOutsideQuotes(s, i, false, "from") == Some(i + |before|) && i + |before| <= |s|
            && s[i..i + |before|] == before
    decreases |columns|
  {
    hide FindOutsideQuotes, LowerWord;
    var c := columns[0];
    assert Fits(false, c);
    if |columns| == 1 {
      FindsOnlyColumn(s, i, c, rest);
    } else {
      FindsPastColumn(s, i, c, PrintList(false, columns[1..], " " + ("from" + rest)));
      if c != "from" {
        var next := i + |c| + 2;
        FindsFrom(s, next, columns[1..], rest);
        var more := Before(columns[1..]);
        assert s[i..next + |more|] == s[i..next] + s[next..next + |more|] == c + ("," + (" " + more));
      }
    }
  }

  lemma FindsOnlyColumn(s: string, i: nat, c: string, rest: string)
    requires LowerWord(c) && 0 < i <= |s| && s[i - 1] == ' ' && rest != [] && rest[0] == ' '
    requires s[i..] == c + (" " + ("from" + rest))
    ensures i + |c| + 1 <= |s| && s[i..i + |c| + 1] == c + " "
    ensures FindOutsideQuotes(s, i, false, "from") == Some(if c == "from" then i else i + |c| + 1)
  {
    hide FindOutsideQuotes, LowerWord;
    var next := i + |c| + 1;
    PassName(s, i, c, " " + ("from" + rest));
    assert s[i + |c|] == s[i..][|c|] == ' ' && s[next..] == s[i..][|c| + 1..] == "from" + rest;
    assert s[i..next] == s[i..][..|c| + 1] == c + " ";
    PassSeparator(s, i + |c|);
    FromIsWord();
    PassName(s, next, "from", rest);
  }

  lemma FromIsWord()
    ensures LowerWord("from")
  {
  }

  lemma FindsPastColumn(s: string, i: nat, c: string, more: string)
    requires LowerWord(c) && 0 < i <= |s| && s[i - 1] == ' '
    requires s[i..] == c + ("," + (" " + more))
    ensures var next := i + |c| + 2;
            && next <= |s| && s[next - 1] == ' ' && s[next..] == more && s[i..next] == c + ("," + " ")
            && FindOutsideQuotes(s, i, false, "from")
               == if c == "from" then Some(i) else FindOutsideQuotes(s, next, false, "from")
  {
    hide FindOutsideQuotes, LowerWord;
    PassName(s, i, c, "," + (" " + more));
    assert s[i + |c|] == s[i..][|c|] == ',' && s[i + |c| + 1] == s[i..][|c| + 1] == ' ';
    assert s[i + |c| + 2..] == s[i..][|c| + 2..] == more;
    assert s[i..i + |c| + 2] == s[i..][..|c| + 2] == c + ("," + " ");
    PassSeparator(s, i + |c|);
    PassSeparator(s, i + |c| + 1);
  }

  /** Without a column of that name, all columns stand in front of it. */
  lemma {:induction false} BeforeIsAll(columns: seq<string>)
    requires columns != [] && "from" !in columns
    ensures Before(columns) == PrintList(false, columns, " ")
    decreases |columns|
  {
    if |columns| > 1 {
      assert columns[0] in columns && forall c <- columns[1..] :: c in columns;
      BeforeIsAll(columns[1..]);
    } else {
      assert columns[0] in columns;
    }
  }

  /** With one, a list cut off behind a comma, without the blank behind it. */
  function Cut(columns: seq<string>): string {
    if columns == [] || columns[0] == "from" then ""
    else columns[0] + ("," + if Cut(columns[1..]) == "" then "" else " " + Cut(columns[1..]))
  }

  lemma {:induction false} BeforeIsCut(columns: seq<string>)
    requires "from" in columns
    ensures Before(columns) == if Cut(columns) == "" then "" else Cut(columns) + " "
  {
    if columns[0] != "from" {
      BeforeIsCut(columns[1..]);
    }
  }

  lemma {:induction false} CutFails(columns: seq<string>, lead: string)
    requires AllFit(false, columns) && "from" in columns && (lead == "" || lead == " ")
    ensures Collected(Pieces(',', Cut(columns), false, lead), false) == None
    decreases |columns|
  {
    hide Fits, Pieces, ItemOf;
    BlankFails(lead);
    if columns[0] != "from" {
      var c, t := columns[0], Cut(columns[1..]);
      CutFails(columns[1..], " ");
      BlankFails("");
      var more := "," + if t == "" then "" else " " + t;
      ElementPassed(false, c, more, lead);
      CommaCuts(t, lead + c);
      assert c + "" == c;
    }
  }

  lemma BlankFails(lead: string)
    requires lead == "" || lead == " "
    ensures Collected(Pieces(',', "", false, lead), false) == None
  {
    assert Trim("") == "" && Trim(" ") == "";
  }

  lemma CommaCuts(t: string, piece: string)
    ensures Pieces(',', "," + (if t == "" then "" else " " + t), false, piece)
         == [piece] + Pieces(',', t, false, if t == "" then "" else " ")
  {
    if t == "" {
      assert ("," + "")[1..] == "";
    } else {
      SeparatorPassed(t);
    }
  }

  lemma CutSelectsNothing(columns: seq<string>)
    requires AllFit(false, columns) && "from" in columns
    ensures SelectedColumns(Trim(" " + Before(columns))) == None
  {
    hide Pieces, Collected, Trim, EndsInQuotes;
    var t := Cut(columns);
    BeforeIsCut(columns);
    CutFails(columns, "");
    CutEdges(columns);
    if t == "" {
      NothingTrims();
      assert " " + "" == " ";
    } else {
      EdgesTrim(t);
    }
  }

  lemma NothingTrims()
    ensures Trim(" ") == ""
  {
  }

  lemma CutEdges(columns: seq<string>)
    requires AllFit(false, columns)
    ensures var t := Cut(columns); t != "" ==> !IsSpace(t[0]) && !IsSpace(t[|t| - 1]) && t != "*"
    decreases |columns|
  {
    hide Lower;
    assert Fits(false, columns[0]);
    assert columns[0][0] in columns[0];
    if |columns| > 1 {
      assert forall i | 0 <= i < |columns| - 1 :: columns[1..][i] == columns[i + 1];
      CutEdges(columns[1..]);
    }
  }

  lemma SelectUnfold(s: string, a: string, from: nat, tail: string)
    requires |s| >= 6 && s[6..] == a && FindOutsideQuotes(a, 0, false, "from") == Some(from)
    requires a[from..] == "from" + tail
    ensures ParseSelect(s)
         == match SelectedColumns(Trim(a[..from]))
            case None => None
            case Some((all, columns)) =>
              match Word(tail)
              case None => None
              case Some((table, rest)) => if TrimLeft(rest) == [] then Some(Select(table, all, columns)) else None
  {
    hide FindOutsideQuotes, SelectedColumns, Trim, Word, TrimLeft;
    assert a[from + 4..] == a[from..][4..] == tail;
  }

  lemma StarReads(st: Statement)
    requires st.Select? && Printable(st) && st.all
    ensures ParseSelect(Print(st)) == Some(st)
  {
    hide FindOutsideQuotes, Word, Trim, ParseSelect, LowerWord, SelectedColumns;
    var tail := " " + st.table;
    var a := " " + ("*" + (" " + ("from" + tail)));
    assert Print(st)[6..] == a && a[3..] == "from" + tail;
    PassSeparator(a, 0);
    PassSeparator(a, 1);
    PassSeparator(a, 2);
    FromIsWord();
    PassName(a, 3, "from", tail);
    StarSelected();
    assert a[..3] == " " + ("*" + " ");
    SelectUnfold(Print(st), a, 3, tail);
    assert st.table + "" == st.table;
    WordReadsBack(st.table, "");
  }

  lemma StarSelected()
    ensures SelectedColumns(Trim(" " + ("*" + " "))) == Some((true, []))
  {
    EdgesTrim("*");
  }

  lemma AllColumnsSelected(columns: seq<string>)
    requires AllFit(false, columns) && "from" !in columns
    ensures SelectedColumns(Trim(" " + Before(columns))) == Some((false, columns))
  {
    hide Pieces, Collected, Trim, EndsInQuotes;
    BeforeIsAll(columns);
    SegmentReads(false, columns, "");
    ListPassed(false, columns, " ");
    ListEdges(false, columns);
    EdgesTrim(PrintList(false, columns, ""));
    ListIsNoStar(columns);
  }

  lemma ListIsNoStar(columns: seq<string>)
    requires AllFit(false, columns)
    ensures PrintList(false, columns, "") != "*"
  {
    hide Lower;
    assert Fits(false, columns[0]) && columns[0][0] in columns[0];
    assert PrintList(false, columns, "")[0] == columns[0][0];
  }

  /** A SELECT reads back exactly if none of its columns is named from. */
  lemma SelectReadsExactly(st: Statement)
    requires st.Select? && Printable(st) && !st.all
    ensures ParseSelect(Print(st)) == if "from" in st.columns then None else Some(st)
  {
    hide FindOutsideQuotes, Word, Trim, ParseSelect, LowerWord, SelectedColumns, PrintList, Fits, Before, Closing,
         EndsInQuotes;
    var tail := " " + st.table;
    var a := " " + PrintList(false, st.columns, " " + ("from" + tail));
    ListPassed(false, st.columns, " " + ("from" + tail));
    assert Print(st)[6..] == a && a[1..] == PrintList(false, st.columns, " " + ("from" + tail)) by {
      assert PrintList(false, st.columns, "") + (" " + ("from" + tail)) == a[1..];
    }
    PassSeparator(a, 0);
    FindsFrom(a, 1, st.columns, tail);
    var before := Before(st.columns);
    var from := 1 + |before|;
    assert a[..from] == " " + before by {
      assert a[1..from] == before;
    }
    if "from" in st.columns {
      CutSelectsNothing(st.columns);
      SelectFails(Print(st), a, from);
    } else {
      AllColumnsSelected(st.columns);
      BeforeIsAll(st.columns);
      ListPassed(false, st.columns, " ");
      assert a[from..] == "from" + tail;
      SelectUnfold(Print(st), a, from, tail);
      assert st.table + "" == st.table;
      WordReadsBack(st.table, "");
    }
  }

  lemma SelectFails(s: string, a: string, from: nat)
    requires |s| >= 6 && s[6..] == a && FindOutsideQuotes(a, 0, false, "from") == Some(from)
    requires SelectedColumns(Trim(a[..from])) == None
    ensures ParseSelect(s) == None
  {
  }

  /** Parsing undoes printing, exactly as long as no selected column is named like the keyword. */
  lemma ParseUndoesPrintExactly(st: Statement)
    requires Printable(st)
    ensures ParseStatement(Print(st)) == Some(st) <==> !(st.Select? && "from" in st.columns)
  {
    hide ParseInsert, ParseSelect, PrintList, AllFit, LowerWord, TrimLeft;
    var s := Print(st);
    BlankSkipped(s);
    match st {
      case Insert(_, _, _) => InsertReads(st);
      case Select(_, _, _) =>
        if st.all {
          StarReads(st);
        } else {
          SelectReadsExactly(st);
        }
    }
  }
}
