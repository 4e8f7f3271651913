/**
 The parser of member-dragon as a whole: it makes a command of exactly the texts that spell
 it, once blanks at the ends and semicolons behind are taken off.
 */
module DragonRoundTrip {
  import opened Options
  import opened CStrings
  import opened SqlText
  import opened Commands
  import opened DragonGrammar
  import opened DragonTokens
  import opened DragonSpelling
  import opened DragonColumns

  // ---------- cleaning up ----------

  /** The statement without blanks around it and without semicolons behind it. */
  function Clean(sql: string): string {
    Trim(StripSemicolons(Trim(sql)))
  }

  predicate AllSemicolons(s: string) {
    forall c <- s :: c == ';'
  }

  lemma {:induction false} SemicolonsStripped(s: string, semicolons: string)
    requires AllSemicolons(semicolons) && (s != [] ==> s[|s| - 1] != ';')
    ensures StripSemicolons(s + semicolons) == s
  {
    if semicolons == [] {
      assert s + semicolons == s;
    } else {
      var n := |semicolons| - 1;
      assert semicolons[n] in semicolons && (s + semicolons)[..|s| + n] == s + semicolons[..n];
      assert forall c <- semicolons[..n] :: c in semicolons;
      SemicolonsStripped(s, semicolons[..n]);
    }
  }

  /** What the clean-up takes off: blanks in front, blanks, semicolons and blanks behind. */
  lemma CleanExactly(front: string, core: string, gap: string, semicolons: string, back: string)
    requires (forall c <- front + gap + back :: c in BLANKS) && AllSemicolons(semicolons)
    requires core != [] ==> core[0] !in BLANKS && core[|core| - 1] !in BLANKS && core[|core| - 1] != ';'
    ensures Clean(front + core + gap + semicolons + back) == core
  {
    hide Trim, BLANKS, StripSemicolons;
    var sql := front + core + gap + semicolons + back;
    SpaceExactly(';');
    if semicolons == [] {
      assert sql == front + core + (gap + back);
      TrimExactly(front, core, gap + back);
      SemicolonsStripped(core, []);
      assert core + [] == core;
      TrimExactly([], core, []);
      assert [] + core + [] == core;
    } else if core == [] {
      assert sql == (front + gap) + semicolons + back;
      EndsOfSemicolons(semicolons);
      TrimExactly(front + gap, semicolons, back);
      SemicolonsStripped([], semicolons);
      assert [] + semicolons == semicolons;
      TrimExactly([], [], []);
      assert [] + [] + [] == "";
    } else {
      var inner := core + gap + semicolons;
      assert sql == front + inner + back;
      EndsOfSemicolons(semicolons);
      TrimExactly(front, inner, back);
      SemicolonsStripped(core + gap, semicolons);
      TrimExactly([], core, gap);
      assert [] + core + gap == core + gap;
    }
  }

  lemma EndsOfSemicolons(s: string)
    requires AllSemicolons(s) && s != []
    ensures s[0] == s[|s| - 1] == ';'
  {
    assert s[0] in s && s[|s| - 1] in s;
  }

  // ---------- the statement ----------

  /** The text spells the command. */
  ghost predicate Spelled(text: string, cmd: Command) {
    match cmd
    case NoCommand => text == ""
    case InsertInto(_, columns, values) =>
      0 < |columns| <= 32 && 0 < |values| <= 32 && Spells(text, InsertTokens(cmd))
    case SelectFrom(_, _, _, _, _, _) => SpellsSelect(text, cmd)
    case DeleteFrom(_, _) => Spells(text, DeleteTokens(cmd))
    case UpdateSet(_, sets, _) => 0 < |sets| <= 32 && Spells(text, UpdateTokens(cmd))
  }

  /** The keyword with which a command begins. */
  function Verb(cmd: Command): string
    requires !cmd.NoCommand?
  {
    match cmd
    case InsertInto(_, _, _) => "INSERT"
    case SelectFrom(_, _, _, _, _, _) => "SELECT"
    case DeleteFrom(_, _) => "DELETE"
    case UpdateSet(_, _, _) => "UPDATE"
  }

  lemma SpelledBegins(text: string, cmd: Command)
    requires Spelled(text, cmd) && !cmd.NoCommand?
    ensures Behind(TrimLeft(text), Key(Verb(cmd))).Some?
  {
    hide Behind, ListTokens, WhereTokens, SetTokens, SpellsCut, TrimLeft, OnlyEnd;
  }

  lemma Dispatch(text: string)
    requires text != [] && !IsSpace(text[0])
    ensures TrimLeft(text) == text
    ensures KeywordMatches(text, "INSERT") <==> Behind(text, Key("INSERT")).Some?
    ensures KeywordMatches(text, "SELECT") <==> Behind(text, Key("SELECT")).Some?
    ensures KeywordMatches(text, "DELETE") <==> Behind(text, Key("DELETE")).Some?
    ensures KeywordMatches(text, "UPDATE") <==> Behind(text, Key("UPDATE")).Some?
  {
    hide Behind, KeywordMatches;
    BlankSkipped(text);
    KeywordExactly(text, "INSERT");
    KeywordExactly(text, "SELECT");
    KeywordExactly(text, "DELETE");
    KeywordExactly(text, "UPDATE");
  }

  /** Which parser reads a cleaned-up text. */
  function ParseCleaned(text: string): Option<Command> {
    if text == [] then Some(NoCommand)
    else if KeywordMatches(text, "INSERT") then ParseInsert(text)
    else if KeywordMatches(text, "SELECT") then ParseSelect(text)
    else if KeywordMatches(text, "DELETE") then ParseDelete(text)
    else if KeywordMatches(text, "UPDATE") then ParseUpdate(text)
    else None
  }

  lemma CleanedExactly(text: string, cmd: Command)
    requires text != [] ==> !IsSpace(text[0])
    ensures ParseCleaned(text) == Some(cmd) <==> Spelled(text, cmd)
  {
    hide Behind, KeywordMatches, ParseInsert, ParseSelect, ParseDelete, ParseUpdate, InsertTokens, DeleteTokens,
         UpdateTokens, Spells, SpellsSelect;
    if text == [] {
      if !cmd.NoCommand? && Spelled(text, cmd) {
        SpelledBegins(text, cmd);
        NothingBegins(Verb(cmd));
      }
    } else {
      Dispatch(text);
      InsertExactly(text, cmd);
      SelectExactly(text, cmd);
      DeleteExactly(text, cmd);
      UpdateExactly(text, cmd);
      NotBoth(text, "INSERT", "SELECT");
      NotBoth(text, "INSERT", "DELETE");
      NotBoth(text, "INSERT", "UPDATE");
      NotBoth(text, "SELECT", "DELETE");
      NotBoth(text, "SELECT", "UPDATE");
      NotBoth(text, "DELETE", "UPDATE");
      if !cmd.NoCommand? && Spelled(text, cmd) {
        SpelledBegins(text, cmd);
      }
    }
  }

  lemma NothingBegins(word: string)
    requires word != []
    ensures Behind(TrimLeft(""), Key(word)) == None
  {
  }

  /**
   The parser makes of a statement the command that it spells, and reports an error exactly if
   there is none: keywords in any case, any blanks between tokens, values quoted or bare.
   */
  lemma ParsesExactly(sql: string, cmd: Command)
    ensures ParseSql(sql) == Some(cmd) <==> |sql| < 8192 && Spelled(Clean(sql), cmd)
  {
    hide Spelled, Trim, StripSemicolons, KeywordMatches, ParseInsert, ParseSelect, ParseDelete, ParseUpdate, BLANKS;
    TrimEdges(StripSemicolons(Trim(sql)));
    if Clean(sql) != [] {
      SpaceExactly(Clean(sql)[0]);
    }
    CleanedExactly(Clean(sql), cmd);
  }
}
