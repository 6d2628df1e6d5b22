/**
 The two gates of the BigQuery editor, read-only and read-write, over one token list.
 */
module BigQueryGates {
  import opened GoogleSqlTokens
  import opened GoogleSqlCompose

  const MAX_SCRIPT_BYTES := 32768

  function UpperChar(c: char): char {
    if 'a' <= c <= 'z' then c - 'a' + 'A' else c
  }

  function Upper(s: string): string {
    seq(|s|, i requires 0 <= i < |s| => UpperChar(s[i]))
  }

  /** A token is a keyword, case aside. */
  predicate Is(token: string, keyword: string) {
    Upper(token) == keyword
  }

  predicate Reads(token: string) {
    Is(token, "SELECT") || Is(token, "WITH")
  }

  predicate IsDml(keyword: string) {
    keyword in {"INSERT", "UPDATE", "DELETE", "MERGE", "TRUNCATE"}
  }

  // ---- The read-only gate ----

  datatype Refusal =
    | Unlexable(fault: Fault)
    | NoStatement
    | NotAQuery(first: string)
    | MoreThanOne
    | TooLong
    | OnlyReads

  datatype ReadVerdict = Accepts | RefusesRead(why: Refusal)

  /** How many opening parentheses tokens begin with. */
  function Parens(tokens: seq<string>): (n: nat)
    ensures n <= |tokens|
    ensures forall i :: 0 <= i < n ==> tokens[i] == "("
    ensures n < |tokens| ==> tokens[n] != "("
  {
    if tokens == [] || tokens[0] != "(" then 0 else 1 + Parens(tokens[1..])
  }

  /** Where the first semicolon is, or the end. */
  function Semicolon(tokens: seq<string>): (n: nat)
    ensures n <= |tokens|
    ensures forall i :: 0 <= i < n ==> tokens[i] != ";"
    ensures n < |tokens| ==> tokens[n] == ";"
  {
    if tokens == [] || tokens[0] == ";" then 0 else 1 + Semicolon(tokens[1..])
  }

  predicate OnlySemicolons(tokens: seq<string>) {
    forall i :: 0 <= i < |tokens| ==> tokens[i] == ";"
  }

  function ReadOnly(r: Lexed): ReadVerdict {
    match r
    case Failed(fault) => RefusesRead(Unlexable(fault))
    case Tokens(words) =>
      var i := Parens(words);
      if i == |words| then RefusesRead(NoStatement)
      else if !Reads(words[i]) then RefusesRead(NotAQuery(Upper(words[i])))
      else if !OnlySemicolons(words[Semicolon(words)..]) then RefusesRead(MoreThanOne)
      else Accepts
  }

  /** Whether nothing but semicolons follows the first one. */
  method OneStatement(tokens: seq<string>) returns (one: bool)
    ensures one == OnlySemicolons(tokens[Semicolon(tokens)..])
  {
    for j := 0 to |tokens|
      invariant j <= Semicolon(tokens)
    {
      if tokens[j] == ";" {
        for k := j + 1 to |tokens|
          invariant forall m :: j <= m < k ==> tokens[m] == ";"
        {
          if tokens[k] != ";" {
            assert tokens[j..][k - j] != ";";
            return false;
          }
        }
        return true;
      }
    }
    return true;
  }

  method ReadOnlyBigQuery(statement: string) returns (v: ReadVerdict)
    ensures v == ReadOnly(Lex(statement))
  {
    hide Lex, Upper, OnlySemicolons;
    var r := BigQueryTokens(statement);
    if r.Failed? {
      return RefusesRead(Unlexable(r.fault));
    }
    var tokens := r.words;
    var i := 0;
    while i < |tokens| && tokens[i] == "("
      invariant 0 <= i <= Parens(tokens)
    {
      i := i + 1;
    }
    if i == |tokens| {
      return RefusesRead(NoStatement);
    }
    var first := Upper(tokens[i]);
    if first != "SELECT" && first != "WITH" {
      return RefusesRead(NotAQuery(first));
    }
    var one := OneStatement(tokens);
    return if one then Accepts else RefusesRead(MoreThanOne);
  }

  // ---- Statements ----

  /** How many tokens one opener takes at the start: BEGIN of a block, EXCEPTION WHEN ERROR THEN, or
      a parenthesis. */
  function Opener(cur: seq<string>): (n: nat)
    ensures n <= |cur|
  {
    if cur == [] then 0
    else if Is(cur[0], "BEGIN") && !(1 < |cur| && Is(cur[1], "TRANSACTION")) then 1
    else if Is(cur[0], "EXCEPTION") && 3 < |cur| && Is(cur[1], "WHEN") && Is(cur[2], "ERROR") && Is(cur[3], "THEN") then 4
    else if cur[0] == "(" then 1
    else 0
  }

  /** How many tokens open a statement without being it. */
  function Opening(cur: seq<string>): (n: nat)
    ensures n <= |cur|
    decreases |cur|
  {
    if Opener(cur) == 0 then 0 else Opener(cur) + Opening(cur[Opener(cur)..])
  }

  function Kept(cur: seq<string>): seq<seq<string>> {
    if Opening(cur) < |cur| then [cur[Opening(cur)..]] else []
  }

  /** The statements of a token list, each with what opens it stepped over; empty ones dropped. */
  function Statements(tokens: seq<string>): (stmts: seq<seq<string>>)
    ensures forall i :: 0 <= i < |stmts| ==> |stmts[i]| > 0
    decreases |tokens|
  {
    var k := Semicolon(tokens);
    Kept(tokens[..k]) + if k < |tokens| then Statements(tokens[k + 1..]) else []
  }

  method SkipOpening(cur: seq<string>) returns (i: nat)
    ensures i == Opening(cur)
  {
    hide Is;
    i := 0;
    ghost var goal := Opening(cur);
    assert cur[0..] == cur;
    while i < |cur|
      invariant i <= |cur|
      invariant goal == i + Opening(cur[i..])
    {
      OpeningFrom(cur, i);
      if Is(cur[i], "BEGIN") && !(i + 1 < |cur| && Is(cur[i + 1], "TRANSACTION")) {
        i := i + 1;
      } else if Is(cur[i], "EXCEPTION") && i + 3 < |cur| && Is(cur[i + 1], "WHEN") &&
                Is(cur[i + 2], "ERROR") && Is(cur[i + 3], "THEN") {
        i := i + 4;
      } else if cur[i] == "(" {
        i := i + 1;
      } else {
        return;
      }
    }
  }

  lemma OpeningFrom(cur: seq<string>, i: nat)
    requires i < |cur|
    ensures Opening(cur[i..]) ==
      if Opener(cur[i..]) == 0 then 0 else Opener(cur[i..]) + Opening(cur[i + Opener(cur[i..])..])
  {
    hide Opener;
    assert cur[i..][Opener(cur[i..])..] == cur[i + Opener(cur[i..])..];
  }

  lemma {:induction false} SemicolonAfter(cur: seq<string>, rest: seq<string>)
    requires ";" !in cur
    ensures Semicolon(cur + rest) == |cur| + Semicolon(rest)
  {
    if cur == [] {
      assert cur + rest == rest;
    } else {
      assert (cur + rest)[1..] == cur[1..] + rest;
      assert cur[0] in cur;
      SemicolonAfter(cur[1..], rest);
    }
  }

  lemma StatementsWithoutSemicolon(cur: seq<string>)
    requires ";" !in cur
    ensures Statements(cur) == Kept(cur)
  {
    hide Kept;
    SemicolonAfter(cur, []);
    assert cur + [] == cur && cur[..|cur|] == cur;
  }

  lemma StatementsAtSemicolon(cur: seq<string>, rest: seq<string>)
    requires ";" !in cur
    ensures Statements(cur + ([";"] + rest)) == Kept(cur) + Statements(rest)
  {
    hide Kept, Semicolon;
    SemicolonAfter(cur, [";"] + rest);
    assert ([";"] + rest)[0] == ";";
    var all := cur + ([";"] + rest);
    assert all[..|cur|] == cur && all[|cur| + 1..] == rest;
  }

  method AddStatement(stmts: seq<seq<string>>, cur: seq<string>) returns (more: seq<seq<string>>)
    ensures more == stmts + Kept(cur)
  {
    hide Opening;
    var i := SkipOpening(cur);
    more := stmts;
    if i < |cur| {
      more := more + [cur[i..]];
    }
  }

  method BigQueryStatements(tokens: seq<string>) returns (stmts: seq<seq<string>>)
    ensures stmts == Statements(tokens)
  {
    hide Statements, Kept;
    var cur: seq<string> := [];
    stmts := [];
    ghost var goal := Statements(tokens);
    assert cur + tokens[0..] == tokens;
    for t := 0 to |tokens|
      invariant ";" !in cur
      invariant goal == stmts + Statements(cur + tokens[t..])
    {
      if tokens[t] == ";" {
        StatementsAtSemicolon(cur, tokens[t + 1..]);
        assert tokens[t..] == [";"] + tokens[t + 1..];
        stmts := AddStatement(stmts, cur);
        cur := [];
        assert cur + tokens[t + 1..] == tokens[t + 1..];
      } else {
        assert cur + tokens[t..] == cur + [tokens[t]] + tokens[t + 1..];
        cur := cur + [tokens[t]];
      }
    }
    assert cur + tokens[|tokens|..] == cur;
    StatementsWithoutSemicolon(cur);
    stmts := AddStatement(stmts, cur);
  }

  /** Splitting composes: the statements of two token lists with a semicolon between are the first's
      and then the second's. */
  lemma {:induction false} StatementsCompose(a: seq<string>, b: seq<string>)
    ensures Statements(a + ([";"] + b)) == Statements(a) + Statements(b)
    decreases |a|
  {
    hide Kept, Semicolon;
    var k := Semicolon(a);
    if k == |a| {
      assert ";" !in a;
      StatementsAtSemicolon(a, b);
      StatementsWithoutSemicolon(a);
    } else {
      var cur, rest := a[..k], a[k + 1..];
      assert ";" !in cur;
      assert a == cur + ([";"] + rest);
      assert a + ([";"] + b) == cur + ([";"] + (rest + ([";"] + b)));
      StatementsAtSemicolon(cur, rest);
      StatementsAtSemicolon(cur, rest + ([";"] + b));
      StatementsCompose(rest, b);
      assert Kept(cur) + (Statements(rest) + Statements(b)) == Kept(cur) + Statements(rest) + Statements(b);
    }
  }

  /** Only parentheses, block openers and the words of an exception handler are stepped over. */
  predicate IsOpener(token: string) {
    token == "(" || Is(token, "BEGIN") || Is(token, "EXCEPTION") || Is(token, "WHEN") || Is(token, "ERROR") || Is(token, "THEN")
  }

  /** A token that is a statement's own: no parenthesis, and no BEGIN but of BEGIN TRANSACTION. */
  predicate HeadsStatement(stmt: seq<string>) {
    && stmt != [] && stmt[0] != "("
    && (Is(stmt[0], "BEGIN") ==> 1 < |stmt| && Is(stmt[1], "TRANSACTION"))
  }

  lemma OpenerIsOpeners(cur: seq<string>)
    ensures forall i :: 0 <= i < Opener(cur) ==> IsOpener(cur[i])
    ensures cur != [] && Opener(cur) == 0 ==> HeadsStatement(cur)
  {
    hide Is;
  }

  /** What is stepped over is openers, and what is kept starts with a token of its own. */
  lemma {:induction false} OpeningStepsOverOpeners(cur: seq<string>)
    ensures forall i :: 0 <= i < Opening(cur) ==> IsOpener(cur[i])
    ensures Opening(cur) < |cur| ==> HeadsStatement(cur[Opening(cur)..])
    decreases |cur|
  {
    hide Opener, IsOpener, HeadsStatement;
    var k := Opener(cur);
    OpenerIsOpeners(cur);
    if k > 0 {
      var rest := cur[k..];
      OpeningStepsOverOpeners(rest);
      assert forall i :: k <= i < |cur| ==> cur[i] == rest[i - k];
      assert rest[Opening(rest)..] == cur[k + Opening(rest)..];
    } else {
      assert cur[0..] == cur;
    }
  }

  // ---- The read-write gate ----

  datatype WriteVerdict = Runs(kind: string) | RefusesWrite(why: Refusal)

  predicate AllRead(stmts: seq<seq<string>>)
    requires forall i :: 0 <= i < |stmts| ==> |stmts[i]| > 0
  {
    forall i :: 0 <= i < |stmts| ==> Reads(stmts[i][0])
  }

  predicate AnyDml(stmts: seq<seq<string>>)
    requires forall i :: 0 <= i < |stmts| ==> |stmts[i]| > 0
  {
    exists i :: 0 <= i < |stmts| && IsDml(Upper(stmts[i][0]))
  }

  function Writable(size: nat, r: Lexed): WriteVerdict {
    if size > MAX_SCRIPT_BYTES then RefusesWrite(TooLong)
    else match r
      case Failed(_) => Runs("")
      case Tokens(words) =>
        var stmts := Statements(words);
        if stmts == [] then RefusesWrite(NoStatement)
        else if AllRead(stmts) then RefusesWrite(OnlyReads)
        else if AnyDml(stmts) && (|stmts| > 1 || (words != [] && Is(words[0], "BEGIN"))) then Runs("SCRIPT")
        else if IsDml(Upper(stmts[0][0])) then Runs(Upper(stmts[0][0]))
        else Runs("")
  }

  lemma SomeTokens(words: seq<string>)
    ensures Statements(words) != [] ==> words != []
  {
  }

  method WritableBigQuery(statement: string) returns (v: WriteVerdict)
    ensures v == Writable(|statement|, Lex(statement))
  {
    hide Lex, Statements, Upper;
    if |statement| > MAX_SCRIPT_BYTES {
      return RefusesWrite(TooLong);
    }
    var r := BigQueryTokens(statement);
    if r.Failed? {
      return Runs("");
    }
    var tokens := r.words;
    var stmts := BigQueryStatements(tokens);
    if |stmts| == 0 {
      return RefusesWrite(NoStatement);
    }
    SomeTokens(tokens);
    var onlyReads, dml := true, false;
    for i := 0 to |stmts|
      invariant onlyReads == forall j :: 0 <= j < i ==> Reads(stmts[j][0])
      invariant dml == exists j :: 0 <= j < i && IsDml(Upper(stmts[j][0]))
    {
      var h := Upper(stmts[i][0]);
      if IsDml(h) {
        dml := true;
      }
      if h != "SELECT" && h != "WITH" {
        onlyReads := false;
      }
    }
    if onlyReads {
      return RefusesWrite(OnlyReads);
    }
    var script := |stmts| > 1 || Is(tokens[0], "BEGIN");
    var h := Upper(stmts[0][0]);
    if dml && script {
      return Runs("SCRIPT");
    }
    if IsDml(h) {
      return Runs(h);
    }
    return Runs("");
  }

  /** DML in a script of several statements is answered as a script, wherever it stands in it. */
  lemma DmlAmongSeveralIsScript(size: nat, a: seq<string>, b: seq<string>)
    requires size <= MAX_SCRIPT_BYTES && Statements(a) != [] && Statements(b) != []
    requires AnyDml(Statements(a)) || AnyDml(Statements(b))
    ensures Writable(size, Tokens(a + ([";"] + b))) == Runs("SCRIPT")
  {
    hide Statements, Upper, IsDml, AllRead, AnyDml;
    StatementsCompose(a, b);
    var p, q := Statements(a), Statements(b);
    if AnyDml(p) {
      DmlSomewhere(p, q, p);
    } else {
      DmlSomewhere(p, q, q);
    }
  }

  lemma DmlSomewhere(p: seq<seq<string>>, q: seq<seq<string>>, part: seq<seq<string>>)
    requires forall i :: 0 <= i < |p| ==> |p[i]| > 0
    requires forall i :: 0 <= i < |q| ==> |q[i]| > 0
    requires (part == p || part == q) && AnyDml(part)
    ensures AnyDml(p + q) && !AllRead(p + q)
  {
    hide IsDml, Reads, Upper;
    var all := p + q;
    var i :| 0 <= i < |part| && IsDml(Upper(part[i][0]));
    var k := if part == p then i else |p| + i;
    assert all[k] == part[i];
    DmlIsNoRead(all[k][0]);
  }

  lemma DmlIsNoRead(token: string)
    requires IsDml(Upper(token))
    ensures !Reads(token)
  {
  }

  // ---- The gates agree ----

  lemma KeywordsAreNoMarks(token: string)
    ensures Reads(token) ==> token != ";" && token != "("
    ensures Reads(token) ==> !Is(token, "BEGIN") && !Is(token, "EXCEPTION")
  {
    assert |Upper(token)| == |token|;
    assert |"SELECT"| == 6 && |"WITH"| == 4 && |"BEGIN"| == 5 && |"EXCEPTION"| == 9;
  }

  /** The first token past the parentheses is no semicolon and opens no block. */
  predicate PlainStart(words: seq<string>) {
    var i := Parens(words);
    i < |words| ==> words[i] != ";" && !Is(words[i], "BEGIN") && !Is(words[i], "EXCEPTION")
  }

  lemma {:induction false} OpeningIsParens(words: seq<string>)
    requires PlainStart(words)
    ensures Opening(words) == Parens(words)
  {
    if words != [] && words[0] == "(" {
      assert !Is("(", "BEGIN") && !Is("(", "EXCEPTION") by {
        assert |Upper("(")| == 1;
      }
      OpeningIsParens(words[1..]);
    }
  }

  lemma {:induction false} SemicolonsHoldNothing(words: seq<string>)
    requires OnlySemicolons(words)
    ensures Statements(words) == []
    decreases |words|
  {
    if words != [] {
      assert words[..0] == [];
      SemicolonsHoldNothing(words[1..]);
    }
  }

  lemma {:induction false} ParensOfPrefix(words: seq<string>, k: nat)
    requires Parens(words) < k <= |words|
    ensures Parens(words[..k]) == Parens(words)
  {
    if words[0] == "(" {
      assert words[..k][1..] == words[1..][..k - 1];
      ParensOfPrefix(words[1..], k - 1);
    }
  }

  /** A plain start makes what follows the parentheses, up to the semicolon, the first statement. */
  lemma PlainStartIsFirst(words: seq<string>)
    requires PlainStart(words) && Parens(words) < |words|
    ensures Statements(words) != []
    ensures Statements(words)[0][0] == words[Parens(words)]
    ensures OnlySemicolons(words[Semicolon(words)..]) ==> |Statements(words)| == 1
  {
    var i, k := Parens(words), Semicolon(words);
    assert k > i;
    ParensOfPrefix(words, k);
    OpeningIsParens(words[..k]);
    assert Kept(words[..k]) == [words[..k][i..]];
    if OnlySemicolons(words[k..]) && k < |words| {
      assert words[k + 1..] == words[k..][1..];
      SemicolonsHoldNothing(words[k + 1..]);
    }
  }

  /** A DML statement of its own is answered with its keyword. */
  lemma LoneDmlIsNamed(size: nat, words: seq<string>)
    requires size <= MAX_SCRIPT_BYTES && PlainStart(words) && Parens(words) < |words|
    requires IsDml(Upper(words[Parens(words)])) && OnlySemicolons(words[Semicolon(words)..])
    ensures Writable(size, Tokens(words)) == Runs(Upper(words[Parens(words)]))
  {
    hide Statements, Upper;
    PlainStartIsFirst(words);
    DmlIsNoRead(words[Parens(words)]);
    var stmts := Statements(words);
    assert stmts[0][0] == words[Parens(words)];
    if Is(words[0], "BEGIN") {
      BeginIsNoParen(words[0]);
    }
  }

  lemma BeginIsNoParen(token: string)
    requires Is(token, "BEGIN")
    ensures token != "("
  {
    assert |Upper(token)| == |token|;
  }

  lemma ReadStartIsPlain(words: seq<string>)
    requires Parens(words) < |words| && Reads(words[Parens(words)])
    ensures PlainStart(words)
  {
    KeywordsAreNoMarks(words[Parens(words)]);
  }

  lemma AcceptsMeans(words: seq<string>)
    requires Parens(words) < |words|
    ensures ReadOnly(Tokens(words)) == Accepts <==>
      Reads(words[Parens(words)]) && OnlySemicolons(words[Semicolon(words)..])
  {
  }

  lemma ParensHoldNothing(words: seq<string>)
    requires Parens(words) == |words|
    ensures Statements(words) == []
  {
    OpeningIsParens(words);
    StatementsWithoutSemicolon(words);
  }

  /** What the read-only gate accepts is one statement headed SELECT or WITH, and the read-write
      gate refuses it: no text passes both. */
  lemma GatesExclude(s: string)
    requires ReadOnly(Lex(s)) == Accepts
    ensures |Statements(Lex(s).words)| == 1 && Reads(Statements(Lex(s).words)[0][0])
    ensures Writable(|s|, Lex(s)).RefusesWrite?
  {
    hide Lex, Reads, Statements, PlainStart;
    var words := Lex(s).words;
    ReadStartIsPlain(words);
    PlainStartIsFirst(words);
  }

  /** A text the read-write gate sends back as only reading is accepted by the read-only gate
      exactly when it starts plainly and nothing but semicolons follows its first one. */
  lemma SentBackIsAcceptedIff(s: string)
    requires Writable(|s|, Lex(s)) == RefusesWrite(OnlyReads)
    ensures ReadOnly(Lex(s)) == Accepts <==>
      PlainStart(Lex(s).words) && OnlySemicolons(Lex(s).words[Semicolon(Lex(s).words)..])
  {
    hide Lex, ReadOnly, Reads, Statements, PlainStart, OnlySemicolons;
    var words := Lex(s).words;
    var i := Parens(words);
    if i == |words| {
      ParensHoldNothing(words);
    } else {
      AcceptsMeans(words);
      if Reads(words[i]) {
        ReadStartIsPlain(words);
      }
      if PlainStart(words) {
        PlainStartIsFirst(words);
      }
    }
  }

  // ---- Two scripts of queries that neither gate runs ----

  lemma TwoSelectsLex()
    ensures Lex("SELECT" + "\n" + (";" + "\n" + "SELECT")) == Tokens(["SELECT"] + ([";"] + ["SELECT"]))
  {
    hide Lex;
    LexToken("SELECT");
    LexToken(";");
    LexComposes("SELECT", '\n', ";" + "\n" + "SELECT");
    LexComposes(";", '\n', "SELECT");
  }

  lemma TwoReadsRefused(q: seq<string>)
    requires |q| == 1 && Reads(q[0])
    ensures ReadOnly(Tokens(q + ([";"] + q))) == RefusesRead(MoreThanOne)
    ensures |Statements(q + ([";"] + q))| == 2 && AllRead(Statements(q + ([";"] + q)))
  {
    KeywordsAreNoMarks(q[0]);
    var words := q + ([";"] + q);
    SemicolonAfter(q, [";"] + q);
    assert words[1..][1] == q[0];
    PlainStartIsFirst(q);
    StatementsCompose(q, q);
    StatementsWithoutSemicolon(q);
  }

  /** "SELECT" twice with a semicolon between: sent back as a query, and not accepted as one. */
  lemma QueriesRefusedByBoth()
    ensures var s := "SELECT" + "\n" + (";" + "\n" + "SELECT");
      Writable(|s|, Lex(s)) == RefusesWrite(OnlyReads) && ReadOnly(Lex(s)) == RefusesRead(MoreThanOne)
  {
    hide Lex, Statements, AllRead, ReadOnly;
    TwoSelectsLex();
    assert Upper("SELECT") == "SELECT";
    TwoReadsRefused(["SELECT"]);
  }

  /** Replacing one quoted text or comment by another changes neither verdict, while the text
      stays within the read-write limit. */
  lemma VerdictsIgnoreHidden(a: string, before: char, g: Hidden, h: Hidden, after: char, b: string)
    requires Lex(a).Tokens? && Legal(g) && Legal(h) && IsSpace(before) && IsSpace(after)
    requires before == '\n' || !OpenLine(a)
    requires after == '\n' || (!g.Line? && !h.Line?)
    ensures var s, t := a + [before] + (Text(g) + [after] + b), a + [before] + (Text(h) + [after] + b);
      && ReadOnly(Lex(s)) == ReadOnly(Lex(t))
      && (|s| <= MAX_SCRIPT_BYTES && |t| <= MAX_SCRIPT_BYTES ==> Writable(|s|, Lex(s)) == Writable(|t|, Lex(t)))
  {
    hide Lex, ReadOnly;
    HiddenAddsNothing(a, before, g, after, b);
    HiddenAddsNothing(a, before, h, after, b);
  }
}
