/**
 Every verdict of the two BigQuery gates, each exactly when it is given, in terms of the tokens
 and the heads of the statements they make.
 */
module GateVerdicts {
  import opened GoogleSqlTokens
  import opened GoogleSqlCompose
  import opened GoogleSqlPieces
  import opened BigQueryGates

  // ---- Keywords ----

  /** The same letter, in whichever case. */
  predicate SameLetter(c: char, capital: char) {
    c == capital || ('A' <= capital <= 'Z' && c as int == capital as int + 32)
  }

  predicate Capital(keyword: string) {
    forall i :: 0 <= i < |keyword| ==> 'A' <= keyword[i] <= 'Z'
  }

  /** A token is a keyword exactly when their letters agree, case aside. */
  lemma IsCaseAside(token: string, keyword: string)
    requires Capital(keyword)
    ensures Is(token, keyword) <==>
      |token| == |keyword| && forall i :: 0 <= i < |token| ==> SameLetter(token[i], keyword[i])
  {
    var up := Upper(token);
    assert |up| == |token| && forall i :: 0 <= i < |token| ==> up[i] == UpperChar(token[i]);
    if |token| == |keyword| {
      forall i | 0 <= i < |token|
        ensures up[i] == keyword[i] <==> SameLetter(token[i], keyword[i])
      {
      }
      assert up == keyword <==> forall i :: 0 <= i < |token| ==> up[i] == keyword[i];
    }
  }

  /** The statements that change a table's rows. */
  predicate ChangesRows(head: string) {
    Is(head, "INSERT") || Is(head, "UPDATE") || Is(head, "DELETE") || Is(head, "MERGE") || Is(head, "TRUNCATE")
  }

  // ---- The read-only gate ----

  /** The tokens begin with opening parentheses up to i, and no further. */
  predicate StartsAt(words: seq<string>, i: nat) {
    i <= |words| && (forall k :: 0 <= k < i ==> words[k] == "(") && (i < |words| ==> words[i] != "(")
  }

  lemma {:induction false} StartIsParens(words: seq<string>, i: nat)
    requires StartsAt(words, i)
    ensures Parens(words) == i
  {
    if i > 0 {
      assert words[0] == "(";
      StartIsParens(words[1..], i - 1);
    }
  }

  /** Something but a semicolon stands after a semicolon. */
  predicate GoesOn(words: seq<string>) {
    exists i, j :: 0 <= i < j < |words| && words[i] == ";" && words[j] != ";"
  }

  lemma GoesOnMeans(words: seq<string>)
    ensures GoesOn(words) <==> !OnlySemicolons(words[Semicolon(words)..])
  {
    var k := Semicolon(words);
    if !OnlySemicolons(words[k..]) {
      var m :| 0 <= m < |words[k..]| && words[k..][m] != ";";
      assert words[k] == ";" && words[k + m] != ";";
    }
    if i, j :| 0 <= i < j < |words| && words[i] == ";" && words[j] != ";" {
      assert k <= i;
      assert words[k..][j - k] == words[j];
    }
  }

  /** Read-only, verdict by verdict: what the first token past the parentheses is, and whether
      anything but semicolons follows a semicolon. */
  lemma ReadOnlyVerdicts(words: seq<string>, i: nat)
    requires StartsAt(words, i)
    ensures var v := ReadOnly(Tokens(words));
      && (v == RefusesRead(NoStatement) <==> i == |words|)
      && (i < |words| ==> (v == RefusesRead(NotAQuery(Upper(words[i]))) <==> !Is(words[i], "SELECT") && !Is(words[i], "WITH")))
      && (v == RefusesRead(MoreThanOne) <==>
            i < |words| && (Is(words[i], "SELECT") || Is(words[i], "WITH")) && GoesOn(words))
      && (v == Accepts <==>
            i < |words| && (Is(words[i], "SELECT") || Is(words[i], "WITH")) && !GoesOn(words))
  {
    hide OnlySemicolons, Is;
    StartIsParens(words, i);
    GoesOnMeans(words);
  }

  /** A semicolon ends the statement wherever it stands outside quoted text and comments: with any
      token but a semicolon after it, directly or not, Read-only refuses. */
  lemma ReadOnlyEndsAtSemicolon(a: string, b: string)
    requires Lex(a).Tokens? && !OpenLine(a)
    requires Lex(b).Failed? || exists j :: 0 <= j < |Lex(b).words| && Lex(b).words[j] != ";"
    ensures ReadOnly(Lex(a + ";" + b)) != Accepts
  {
    hide Lex, OpenLine, ReadOnly, Is;
    MarkSeparates(a, ';', b);
    if Lex(b).Failed? {
      FailedIsRefused(Lex(b).fault);
    } else {
      var words := Lex(a).words + [";"] + Lex(b).words;
      var j :| 0 <= j < |Lex(b).words| && Lex(b).words[j] != ";";
      var k := |Lex(a).words|;
      assert words[k] == ";" && words[k + 1 + j] == Lex(b).words[j];
      assert GoesOn(words);
      ReadOnlyVerdicts(words, Parens(words));
    }
  }

  lemma FailedIsRefused(fault: Fault)
    ensures ReadOnly(Failed(fault)) == RefusesRead(Unlexable(fault))
  {
  }

  // ---- What opens a statement ----

  predicate IsHandler(seg: seq<string>) {
    |seg| == 4 && Is(seg[0], "EXCEPTION") && Is(seg[1], "WHEN") && Is(seg[2], "ERROR") && Is(seg[3], "THEN")
  }

  /** One opener: a parenthesis, BEGIN, or EXCEPTION WHEN ERROR THEN. */
  predicate IsOpening(seg: seq<string>) {
    (|seg| == 1 && (seg[0] == "(" || Is(seg[0], "BEGIN"))) || IsHandler(seg)
  }

  function Flat(segs: seq<seq<string>>): seq<string> {
    if segs == [] then [] else segs[0] + Flat(segs[1..])
  }

  /** Nothing, or tokens that no opener begins. */
  predicate OwnStart(stmt: seq<string>) {
    stmt == [] || (HeadsStatement(stmt) && !(3 < |stmt| && IsHandler(stmt[..4])))
  }

  lemma OwnStartOpensNothing(stmt: seq<string>)
    requires OwnStart(stmt)
    ensures Opening(stmt) == 0
  {
    hide Is;
    if 3 < |stmt| {
      assert stmt[..4][0] == stmt[0] && stmt[..4][1] == stmt[1] && stmt[..4][2] == stmt[2] && stmt[..4][3] == stmt[3];
    }
  }

  lemma KeywordsDiffer(token: string)
    ensures Is(token, "TRANSACTION") ==> !Is(token, "BEGIN") && !Is(token, "EXCEPTION") && token != "("
    ensures Is(token, "EXCEPTION") ==> !Is(token, "BEGIN") && token != "("
    ensures Is(token, "BEGIN") ==> token != "("
  {
    assert |Upper(token)| == |token|;
    assert |"TRANSACTION"| == 11 && |"BEGIN"| == 5 && |"EXCEPTION"| == 9;
  }

  /** BEGIN is the block's unless TRANSACTION follows it. */
  predicate EndsBeginTransaction(segs: seq<seq<string>>, stmt: seq<string>) {
    && segs != [] && stmt != [] && Is(stmt[0], "TRANSACTION")
    && |segs[|segs| - 1]| == 1 && Is(segs[|segs| - 1][0], "BEGIN")
  }

  lemma OpenerFirst(seg: seq<string>, rest: seq<string>)
    requires IsOpening(seg)
    requires |seg| == 1 && Is(seg[0], "BEGIN") ==> rest == [] || !Is(rest[0], "TRANSACTION")
    ensures Opener(seg + rest) == |seg|
  {
    hide Is;
    KeywordsDiffer(seg[0]);
    var cur := seg + rest;
    assert cur[0] == seg[0];
    if IsHandler(seg) {
      assert cur[1] == seg[1] && cur[2] == seg[2] && cur[3] == seg[3];
    } else if rest != [] {
      assert cur[1] == rest[0];
    }
  }

  lemma FlatStartsWithOpener(segs: seq<seq<string>>, stmt: seq<string>)
    requires segs != [] && IsOpening(segs[0])
    ensures Flat(segs) + stmt != [] && !Is((Flat(segs) + stmt)[0], "TRANSACTION")
  {
    hide Is;
    assert (Flat(segs) + stmt)[0] == segs[0][0];
    KeywordsDiffer(segs[0][0]);
  }

  /** Any openers, one after another, are stepped over, EXCEPTION WHEN ERROR THEN as one, and nothing
      after them is. */
  lemma {:induction false} OpeningIsOpeners(segs: seq<seq<string>>, stmt: seq<string>)
    requires forall i :: 0 <= i < |segs| ==> IsOpening(segs[i])
    requires OwnStart(stmt) && !EndsBeginTransaction(segs, stmt)
    ensures Opening(Flat(segs) + stmt) == |Flat(segs)|
    ensures Kept(Flat(segs) + stmt) == if stmt == [] then [] else [stmt]
  {
    hide Is, Opener, IsOpening, OwnStart;
    var cur := Flat(segs) + stmt;
    if segs == [] {
      assert cur == stmt;
      OwnStartOpensNothing(stmt);
    } else {
      var rest := Flat(segs[1..]) + stmt;
      assert cur == segs[0] + rest;
      if segs[1..] != [] {
        FlatStartsWithOpener(segs[1..], stmt);
      } else {
        assert rest == stmt;
      }
      OpeningIsOpeners(segs[1..], stmt);
      OpenerFirst(segs[0], rest);
      assert cur[|segs[0]|..] == rest;
      assert |segs[0]| > 0 by { OpeningIsNotEmpty(segs[0]); }
    }
    assert cur[|Flat(segs)|..] == stmt;
  }

  lemma OpeningIsNotEmpty(seg: seq<string>)
    requires IsOpening(seg)
    ensures seg != []
  {
  }

  // ---- The read-write gate ----

  lemma DmlIsChangesRows(head: string)
    ensures IsDml(Upper(head)) <==> ChangesRows(head)
  {
  }

  /** Every head is a query's. */
  predicate OnlyQueries(stmts: seq<seq<string>>)
    requires forall i :: 0 <= i < |stmts| ==> |stmts[i]| > 0
  {
    forall i :: 0 <= i < |stmts| ==> Is(stmts[i][0], "SELECT") || Is(stmts[i][0], "WITH")
  }

  predicate SomeChangesRows(stmts: seq<seq<string>>)
    requires forall i :: 0 <= i < |stmts| ==> |stmts[i]| > 0
  {
    exists i :: 0 <= i < |stmts| && ChangesRows(stmts[i][0])
  }

  lemma HeadsMean(stmts: seq<seq<string>>)
    requires forall i :: 0 <= i < |stmts| ==> |stmts[i]| > 0
    ensures AllRead(stmts) <==> OnlyQueries(stmts)
    ensures AnyDml(stmts) <==> SomeChangesRows(stmts)
    ensures SomeChangesRows(stmts) ==> !OnlyQueries(stmts)
  {
    hide ChangesRows, IsDml, Upper;
    forall i | 0 <= i < |stmts|
      ensures IsDml(Upper(stmts[i][0])) <==> ChangesRows(stmts[i][0])
      ensures ChangesRows(stmts[i][0]) ==> !Reads(stmts[i][0])
    {
      DmlIsChangesRows(stmts[i][0]);
      if ChangesRows(stmts[i][0]) {
        DmlIsNoRead(stmts[i][0]);
      }
    }
  }

  /** Read-write, verdict by verdict, for a text within the limit that lexes: refused exactly when all
      its statements are queries, none included; a script exactly when some statement changes rows
      and there are several or a block; a DML statement of its own by its keyword; and everything
      else, DDL above all, runs. */
  lemma WritableVerdicts(size: nat, words: seq<string>)
    requires size <= MAX_SCRIPT_BYTES
    ensures var v, stmts := Writable(size, Tokens(words)), Statements(words);
      var script := |stmts| > 1 || (words != [] && Is(words[0], "BEGIN"));
      && (v.RefusesWrite? <==> OnlyQueries(stmts))
      && (v == RefusesWrite(NoStatement) <==> stmts == [])
      && (v == RefusesWrite(OnlyReads) <==> stmts != [] && OnlyQueries(stmts))
      && (v == Runs("SCRIPT") <==> SomeChangesRows(stmts) && script)
      && (forall keyword :: v == Runs(keyword) && keyword != "" && keyword != "SCRIPT" <==>
            stmts != [] && !script && ChangesRows(stmts[0][0]) && keyword == Upper(stmts[0][0]))
      && (v == Runs("") <==> !OnlyQueries(stmts) && !SomeChangesRows(stmts))
  {
    hide Statements, OnlyQueries, SomeChangesRows, AllRead, AnyDml, Is, Upper, IsDml, ChangesRows;
    var stmts := Statements(words);
    HeadsMean(stmts);
    if stmts != [] {
      DmlIsChangesRows(stmts[0][0]);
      DmlKeyword(stmts[0][0]);
      FirstOfOne(stmts);
    } else {
      NoneMean(stmts);
    }
  }

  lemma NoneMean(stmts: seq<seq<string>>)
    requires stmts == []
    ensures OnlyQueries(stmts) && !SomeChangesRows(stmts)
  {
  }

  lemma FirstOfOne(stmts: seq<seq<string>>)
    requires stmts != [] && forall i :: 0 <= i < |stmts| ==> |stmts[i]| > 0
    ensures ChangesRows(stmts[0][0]) ==> SomeChangesRows(stmts)
    ensures |stmts| == 1 && SomeChangesRows(stmts) ==> ChangesRows(stmts[0][0])
  {
  }

  lemma DmlKeyword(head: string)
    ensures IsDml(Upper(head)) ==> Upper(head) != "" && Upper(head) != "SCRIPT"
  {
  }

  /** Over the limit nothing runs; within it a text that does not lex is BigQuery's to refuse. */
  lemma WritableWithoutTokens(size: nat, r: Lexed)
    ensures size > MAX_SCRIPT_BYTES <==> Writable(size, r) == RefusesWrite(TooLong)
    ensures size <= MAX_SCRIPT_BYTES && r.Failed? ==> Writable(size, r) == Runs("")
  {
  }

  /** CREATE TABLE t runs, with nothing to count. */
  lemma DdlRuns()
    ensures Writable(14, Lex(Spaced(["CREATE", "TABLE", "t"]))) == Runs("")
  {
    hide Lex, Writable;
    var words := ["CREATE", "TABLE", "t"];
    LexRoundTrips(words);
    DdlHead(words);
    WritableVerdicts(14, words);
  }

  lemma CreateIsOwn(token: string)
    requires token == "CREATE"
    ensures !Is(token, "SELECT") && !Is(token, "WITH") && !ChangesRows(token)
    ensures !Is(token, "BEGIN") && !Is(token, "EXCEPTION") && token != "("
  {
    assert |Upper(token)| == 6 && Upper(token)[0] == 'C';
  }

  lemma DdlHead(words: seq<string>)
    requires |words| == 3 && words[0] == "CREATE" && words[1] == "TABLE" && words[2] == "t"
    ensures Statements(words) == [words]
    ensures !OnlyQueries(Statements(words)) && !SomeChangesRows(Statements(words))
  {
    hide Is, ChangesRows, Statements, Kept, Opening;
    CreateIsOwn(words[0]);
    assert OwnStart(words);
    OpeningIsOpeners([], words);
    assert Flat([]) + words == words;
    StatementsWithoutSemicolon(words);
    assert Statements(words)[0][0] == words[0];
  }
}
