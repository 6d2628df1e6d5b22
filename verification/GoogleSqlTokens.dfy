/**
 The GoogleSQL scanner behind the BigQuery editor: words and punctuation are kept, quoted text
 and comments are dropped. A character stands for one byte of the statement.
 */
module GoogleSqlTokens {
  import opened Options

  datatype Fault = OpenComment | OpenQuote

  datatype Lexed = Tokens(words: seq<string>) | Failed(fault: Fault)

  predicate IsSpace(c: char) {
    c == ' ' || c == '\t' || c == '\n' || c == '\r' || c == '\U{000C}'
  }

  predicate IsStringPrefix(c: char) {
    c == 'r' || c == 'R' || c == 'b' || c == 'B'
  }

  predicate IsWordByte(c: char) {
    c == '_' || '0' <= c <= '9' || 'a' <= c <= 'z' || 'A' <= c <= 'Z' || c >= '\U{0080}'
  }

  predicate IsMark(c: char) {
    c == '(' || c == ')' || c == ';' || c == '@' || c == '{' || c == '}'
  }

  predicate IsQuote(c: char) {
    c == '\'' || c == '"' || c == '`'
  }

  /** The two letters of a prefix differ, case aside: rb and br, not rr. */
  predicate SamePrefix(c: char, d: char) {
    (c == 'r' || c == 'R') == (d == 'r' || d == 'R')
  }

  predicate Starts(s: string, c: char, d: char) {
    |s| >= 2 && s[0] == c && s[1] == d
  }

  function WordLength(s: string): (n: nat)
    ensures n <= |s|
    ensures s != "" && IsWordByte(s[0]) ==> n > 0
  {
    if s == "" || !IsWordByte(s[0]) then 0 else 1 + WordLength(s[1..])
  }

  /** Where `mark` first occurs in s. */
  function Find(s: string, mark: string): (r: Option<nat>)
    ensures r.Some? ==> r.value + |mark| <= |s|
  {
    if mark <= s then Some(0)
    else if s == "" then None
    else match Find(s[1..], mark) case None => None case Some(k) => Some(k + 1)
  }

  /** The delimiter of the quoted text s begins with: its quote, or three of it. */
  function Delimiter(s: string): (d: string)
    requires s != ""
    ensures d <= s && (|d| == 1 || |d| == 3) && d[0] == s[0]
    ensures forall i :: 0 <= i < |d| ==> d[i] == s[0]
  {
    if s[0] != '`' && Starts(s, s[0], s[0]) && |s| > 2 && s[2] == s[0] then [s[0], s[0], s[0]] else [s[0]]
  }

  /** How much of s is taken up to and including an unescaped delimiter. */
  function Closing(s: string, delim: string): (r: Option<nat>)
    ensures r.Some? ==> |delim| <= r.value <= |s|
  {
    if s == "" then None
    else if s[0] == '\\' then (if |s| == 1 then None else Shift(2, Closing(s[2..], delim)))
    else if delim <= s then Some(|delim|)
    else Shift(1, Closing(s[1..], delim))
  }

  function Shift(k: nat, r: Option<nat>): Option<nat> {
    match r case None => None case Some(n) => Some(k + n)
  }

  function QuotedLength(s: string): (r: Option<nat>)
    requires s != ""
    ensures r.Some? ==> 1 < r.value <= |s|
  {
    var d := Delimiter(s);
    Shift(|d|, Closing(s[|d|..], d))
  }

  /** What the scanner does at the start of s. */
  datatype Bite = Skip(n: nat) | Word(n: nat) | End | Bad(fault: Fault)

  function Skipping(k: nat, r: Option<nat>, fault: Fault): Bite {
    match r case None => Bad(fault) case Some(n) => Skip(k + n)
  }

  function NextBite(s: string): (b: Bite)
    requires s != ""
    ensures b.Skip? || b.Word? ==> 0 < b.n <= |s|
  {
    var c := s[0];
    if IsSpace(c) then Skip(1)
    else if c == '#' || Starts(s, '-', '-') then
      (match Find(s, "\n") case None => End case Some(k) => Skip(k + 1))
    else if Starts(s, '/', '*') then Skipping(4, Find(s[2..], "*/"), OpenComment)
    else if IsQuote(c) then Skipping(0, QuotedLength(s), OpenQuote)
    else if IsStringPrefix(c) && 1 < |s| then
      var j := if IsStringPrefix(s[1]) && !SamePrefix(s[1], c) then 2 else 1;
      if j < |s| && (s[j] == '\'' || s[j] == '"') then Skipping(j, QuotedLength(s[j..]), OpenQuote)
      else Word(WordLength(s))
    else if IsMark(c) then Word(1)
    else if IsWordByte(c) then Word(WordLength(s))
    else Skip(1)
  }

  function Prepend(words: seq<string>, r: Lexed): Lexed {
    match r case Failed(_) => r case Tokens(more) => Tokens(words + more)
  }

  function Lex(s: string): Lexed
    decreases |s|
  {
    if s == "" then Tokens([])
    else match NextBite(s)
      case Bad(fault) => Failed(fault)
      case End => Tokens([])
      case Skip(n) => Lex(s[n..])
      case Word(n) => Prepend([s[..n]], Lex(s[n..]))
  }

  // ---- The scanner as it runs ----

  lemma PrependTwice(a: seq<string>, b: seq<string>, r: Lexed)
    ensures Prepend(a, Prepend(b, r)) == Prepend(a + b, r)
  {
    if r.Tokens? {
      assert a + (b + r.words) == a + b + r.words;
    }
  }

  lemma PrependNothing(r: Lexed)
    ensures Prepend([], r) == r
  {
    if r.Tokens? {
      assert [] + r.words == r.words;
    }
  }

  method WordLen(s: string) returns (n: nat)
    ensures n == WordLength(s)
  {
    n := 0;
    while n < |s| && IsWordByte(s[n])
      invariant n <= |s|
      invariant WordLength(s) == n + WordLength(s[n..])
    {
      assert s[n..][1..] == s[n + 1..];
      n := n + 1;
    }
  }

  method SkipQuoted(s: string) returns (r: Option<nat>)
    requires s != ""
    ensures r == QuotedLength(s)
  {
    var q := s[0];
    var delim := [q];
    if q != '`' && Starts(s, q, q) && |s| > 2 && s[2] == q {
      delim := [q, q, q];
    }
    r := SkipToDelimiter(s, delim);
  }

  /** Where the scan from i closes, counted from the start of s. */
  function ClosingAt(s: string, i: nat, delim: string): Option<nat> {
    if i <= |s| then Shift(i, Closing(s[i..], delim)) else None
  }

  lemma ClosingStep(s: string, i: nat, delim: string)
    requires i < |s|
    ensures ClosingAt(s, i, delim) ==
      if s[i] == '\\' then ClosingAt(s, i + 2, delim)
      else if delim <= s[i..] then Some(i + |delim|)
      else ClosingAt(s, i + 1, delim)
  {
    if s[i] == '\\' && i + 1 < |s| {
      assert s[i..][2..] == s[i + 2..];
    } else if s[i] != '\\' {
      assert s[i..][1..] == s[i + 1..];
    }
  }

  method SkipToDelimiter(s: string, delim: string) returns (r: Option<nat>)
    requires |delim| <= |s|
    ensures r == ClosingAt(s, |delim|, delim)
  {
    var i := |delim|;
    ghost var goal := ClosingAt(s, i, delim);
    while i < |s|
      invariant |delim| <= i
      invariant goal == ClosingAt(s, i, delim)
    {
      ClosingStep(s, i, delim);
      if s[i] == '\\' {
        i := i + 2;
      } else if delim <= s[i..] {
        return Some(i + |delim|);
      } else {
        i := i + 1;
      }
    }
    return None;
  }

  method IndexOf(s: string, from: nat, mark: string) returns (r: Option<nat>)
    requires from <= |s|
    ensures r == Find(s[from..], mark)
  {
    var i := from;
    while i <= |s|
      invariant from <= i <= |s| + 1
      invariant i <= |s| ==> Find(s[from..], mark) == Shift(i - from, Find(s[i..], mark))
      invariant i > |s| ==> Find(s[from..], mark).None?
    {
      if mark <= s[i..] {
        return Some(i - from);
      }
      assert i < |s| ==> s[i..][1..] == s[i + 1..];
      i := i + 1;
    }
    return None;
  }

  /** Lexing one bite at i and then the rest. */
  lemma LexFrom(s: string, i: nat, out: seq<string>, b: Bite)
    requires i < |s| && b == NextBite(s[i..])
    ensures b.Bad? ==> Lex(s[i..]) == Failed(b.fault)
    ensures b.End? ==> Lex(s[i..]) == Tokens([])
    ensures b.Skip? ==> Lex(s[i..]) == Lex(s[i + b.n..])
    ensures b.Word? ==> Prepend(out, Lex(s[i..])) == Prepend(out + [s[i..i + b.n]], Lex(s[i + b.n..]))
  {
    if b.Skip? || b.Word? {
      assert s[i..][b.n..] == s[i + b.n..];
      assert s[i..][..b.n] == s[i..i + b.n];
    }
    if b.Word? {
      PrependTwice(out, [s[i..i + b.n]], Lex(s[i + b.n..]));
    }
  }

  method BigQueryTokens(s: string) returns (r: Lexed)
    ensures r == Lex(s)
  {
    hide NextBite;
    var out: seq<string> := [];
    var i := 0;
    ghost var goal := Lex(s);
    PrependNothing(goal);
    assert s[0..] == s;
    while i < |s|
      invariant 0 <= i <= |s|
      invariant goal == Prepend(out, Lex(s[i..]))
    {
      var b := NextBiteAt(s, i);
      LexFrom(s, i, out, b);
      match b {
        case Bad(fault) => return Failed(fault);
        case End => return Tokens(out);
        case Skip(n) =>
          i := i + n;
        case Word(n) =>
          out := out + [s[i..i + n]];
          i := i + n;
      }
    }
    return Tokens(out);
  }

  method NextBiteAt(s: string, i: nat) returns (b: Bite)
    requires i < |s|
    ensures b == NextBite(s[i..])
  {
    var c := s[i];
    var found: Option<nat>;
    if IsSpace(c) {
      return Skip(1);
    }
    if c == '#' || Starts(s[i..], '-', '-') {
      found := IndexOf(s, i, "\n");
      return if found.None? then End else Skip(found.value + 1);
    }
    if Starts(s[i..], '/', '*') {
      found := IndexOf(s, i + 2, "*/");
      assert s[i..][2..] == s[i + 2..];
      return Skipping(4, found, OpenComment);
    }
    if IsQuote(c) {
      found := SkipQuoted(s[i..]);
      return Skipping(0, found, OpenQuote);
    }
    if IsStringPrefix(c) && i + 1 < |s| {
      var j := i + 1;
      if IsStringPrefix(s[j]) && !SamePrefix(s[j], c) {
        j := j + 1;
      }
      if j < |s| && (s[j] == '\'' || s[j] == '"') {
        found := SkipQuoted(s[j..]);
        assert s[i..][j - i..] == s[j..];
        return Skipping(j - i, found, OpenQuote);
      }
      var n := WordLen(s[i..]);
      return Word(n);
    }
    if IsMark(c) {
      return Word(1);
    }
    if IsWordByte(c) {
      var n := WordLen(s[i..]);
      return Word(n);
    }
    return Skip(1);
  }
}
