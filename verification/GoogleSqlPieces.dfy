/**
 What the scanner accepts, and how it takes a text apart: exactly the texts that are written as
 words, marks, quoted texts, comments and other characters, each set apart from what follows it,
 give tokens, and the tokens are the words and marks. A text that is not faults where a comment
 or a quoted text is opened and never closed.
 */
module GoogleSqlPieces {
  import opened GoogleSqlTokens
  import opened GoogleSqlCompose
  import opened Options

  datatype Piece = Token(text: string) | Dropped(hidden: Hidden) | Other(c: char)

  function Written(p: Piece): string {
    match p
    case Token(text) => text
    case Dropped(h) => Text(h)
    case Other(c) => [c]
  }

  function TokensOf(p: Piece): seq<string> {
    if p.Token? then [p.text] else []
  }

  predicate LegalPiece(p: Piece) {
    match p
    case Token(text) => IsToken(text)
    case Dropped(h) => Legal(h)
    case Other(c) => !IsMark(c) && !IsWordByte(c) && !IsQuote(c) && c != '#'
  }

  predicate Begins(t: string, c: char) {
    t != "" && t[0] == c
  }

  /** The piece ends before t: a word is not continued, nor a string prefix by its string; two quotes
      do not become three; a line comment has its newline or the end; and no comment mark is
      completed. A mark and a block comment end before anything. */
  predicate Apart(p: Piece, t: string) {
    match p
    case Token(text) =>
      text != "" && IsWordByte(text[0]) ==>
        && (t == "" || !IsWordByte(t[0]))
        && !(LegalPrefix(text) && (Begins(t, '\'') || Begins(t, '"')))
    case Dropped(Quoted(_, delim, body)) =>
      |delim| == 1 && body == "" && delim != "`" ==> !Begins(t, delim[0])
    case Dropped(Block(_)) => true
    case Dropped(Line(_, _)) => t == "" || t[0] == '\n'
    case Other(c) => !(c == '-' && Begins(t, '-')) && !(c == '/' && Begins(t, '*'))
  }

  function WriteAll(ps: seq<Piece>): string {
    if ps == [] then "" else Written(ps[0]) + WriteAll(ps[1..])
  }

  function TokenList(ps: seq<Piece>): seq<string> {
    if ps == [] then [] else TokensOf(ps[0]) + TokenList(ps[1..])
  }

  /** Legal pieces, each apart from what follows it, the rest at the end included. */
  predicate WellWritten(ps: seq<Piece>, rest: string) {
    ps == [] ||
    (LegalPiece(ps[0]) && Apart(ps[0], WriteAll(ps[1..]) + rest) && WellWritten(ps[1..], rest))
  }

  // ---- One piece ----

  lemma {:induction false} WordStops(w: string, t: string)
    requires forall i :: 0 <= i < |w| ==> IsWordByte(w[i])
    requires t == "" || !IsWordByte(t[0])
    ensures WordLength(w + t) == |w|
  {
    if w == "" {
      assert w + t == t;
    } else {
      assert (w + t)[1..] == w[1..] + t;
      WordStops(w[1..], t);
    }
  }

  lemma WordBite(w: string, t: string)
    requires w != "" && forall i :: 0 <= i < |w| ==> IsWordByte(w[i])
    requires Apart(Token(w), t)
    ensures NextBite(w + t) == Word(|w|)
  {
    hide Find, QuotedLength, WordLength;
    var s := w + t;
    WordStops(w, t);
    assert s[0] == w[0] && IsWordByte(w[0]);
    assert |w| > 1 ==> s[1] == w[1] && IsWordByte(w[1]);
    assert |w| > 2 ==> s[2] == w[2] && IsWordByte(w[2]);
    assert |w| == 1 && t != "" ==> s[1] == t[0];
    assert |w| == 2 && t != "" ==> s[2] == t[0];
  }

  lemma MarkBite(m: char, t: string)
    requires IsMark(m)
    ensures NextBite([m] + t) == Word(1)
  {
    hide Find, QuotedLength, WordLength;
  }

  lemma OtherBite(c: char, t: string)
    requires LegalPiece(Other(c)) && Apart(Other(c), t)
    ensures NextBite([c] + t) == Skip(1)
  {
    hide Find, QuotedLength, WordLength;
    assert t != "" ==> ([c] + t)[1] == t[0];
  }

  lemma BlockBiteThen(body: string, t: string)
    requires NoBlockEnd(body)
    ensures NextBite(Text(Block(body)) + t) == Skip(|Text(Block(body))|)
  {
    hide Find;
    var s := Text(Block(body)) + t;
    FindBlockEnd(body);
    FindStable(body + "*/", t, "*/");
    assert s[0] == '/' && s[1] == '*' && s[2..] == body + "*/" + t;
  }

  lemma DelimiterThen(delim: string, body: string, t: string)
    requires LegalDelimiter(delim) && LegalBody(body, delim) && Apart(Dropped(Quoted("", delim, body)), t)
    ensures Delimiter(delim + (body + delim) + t) == delim
  {
    var s := delim + (body + delim) + t;
    if |delim| == 1 && body != "" {
      assert s[1] == body[0];
    } else if |delim| == 1 {
      assert s[1] == delim[0] && (t != "" ==> s[2] == t[0]);
    } else {
      assert s[0] == delim[0] && s[1] == delim[1] && s[2] == delim[2];
    }
  }

  lemma AfterFirst(d: string, x: string, t: string)
    ensures (d + x + t)[|d|..] == x + t
  {
  }

  lemma QuotedLengthThen(delim: string, body: string, t: string)
    requires LegalDelimiter(delim) && LegalBody(body, delim) && Apart(Dropped(Quoted("", delim, body)), t)
    ensures QuotedLength(delim + (body + delim) + t) == Some(2 * |delim| + |body|)
  {
    hide Closing, LegalBody, Delimiter, Apart, LegalDelimiter;
    DelimiterThen(delim, body, t);
    AfterFirst(delim, body + delim, t);
    DelimiterIsQuote(delim);
    LegalBodyCloses(body, delim);
    ClosingStable(body + delim, t, delim);
  }

  lemma DelimiterIsQuote(delim: string)
    requires LegalDelimiter(delim)
    ensures delim != "" && IsQuote(delim[0]) && delim[0] != '\\'
  {
  }

  lemma QuotedBiteThen(prefix: string, delim: string, body: string, t: string)
    requires Legal(Quoted(prefix, delim, body)) && Apart(Dropped(Quoted(prefix, delim, body)), t)
    ensures NextBite(Text(Quoted(prefix, delim, body)) + t) == Skip(|prefix| + 2 * |delim| + |body|)
  {
    hide NextBite, QuotedLength, LegalBody;
    var q := delim + (body + delim) + t;
    QuotedLengthThen(delim, body, t);
    assert q[0] == delim[0];
    PrefixedBite(prefix, q);
    assert prefix + (delim + (body + delim)) + t == prefix + q;
  }

  lemma LineLexes(mark: string, body: string, t: string)
    requires Legal(Line(mark, body)) && (t == "" || t[0] == '\n')
    ensures Lex(mark + body + t) == Lex(t)
  {
    hide NextBite;
    LineBite(mark, body);
    if t == "" {
      assert mark + body + t == mark + body;
      LexEmpty();
    } else {
      OpenLineSwallows(mark + body, t);
      assert t == ['\n'] + t[1..];
      SpaceFirst('\n', t[1..]);
      assert Find(t, "\n") == Some(0);
    }
  }

  lemma LexOfBite(u: string, t: string)
    requires u != ""
    ensures NextBite(u + t) == Word(|u|) ==> Lex(u + t) == Prepend([u], Lex(t))
    ensures NextBite(u + t) == Skip(|u|) ==> Lex(u + t) == Lex(t)
  {
    hide NextBite;
    assert (u + t)[|u|..] == t && (u + t)[..|u|] == u;
  }

  /** A piece apart from what follows gives its token, if it has one, before the tokens of that. */
  lemma PieceLexes(p: Piece, t: string)
    requires LegalPiece(p) && Apart(p, t)
    ensures Written(p) != ""
    ensures Lex(Written(p) + t) == Prepend(TokensOf(p), Lex(t))
  {
    hide Lex, NextBite, Apart;
    PrependNothing(Lex(t));
    match p
    case Token(w) =>
      if IsWordByte(w[0]) {
        WordBite(w, t);
      } else {
        assert w == [w[0]] && IsMark(w[0]);
        MarkBite(w[0], t);
      }
      LexOfBite(w, t);
    case Dropped(h) => HiddenLexes(h, t);
    case Other(c) =>
      OtherBite(c, t);
      LexOfBite([c], t);
  }

  lemma HiddenLexes(h: Hidden, t: string)
    requires Legal(h) && Apart(Dropped(h), t)
    ensures Text(h) != "" && Lex(Text(h) + t) == Lex(t)
  {
    hide Lex, NextBite, LegalBody;
    match h
    case Quoted(prefix, delim, body) =>
      QuotedBiteThen(prefix, delim, body, t);
      LexOfBite(Text(h), t);
    case Block(body) =>
      BlockBiteThen(body, t);
      LexOfBite(Text(h), t);
    case Line(mark, body) => LineLexes(mark, body, t);
  }

  /** Pieces written one after another lex to their tokens, and then to what the rest does. */
  lemma {:induction false} PiecesLex(ps: seq<Piece>, rest: string)
    requires WellWritten(ps, rest)
    ensures Lex(WriteAll(ps) + rest) == Prepend(TokenList(ps), Lex(rest))
  {
    hide Lex, Apart, LegalPiece, Written;
    if ps == [] {
      assert WriteAll(ps) + rest == rest;
      PrependNothing(Lex(rest));
    } else {
      var t := WriteAll(ps[1..]) + rest;
      assert WriteAll(ps) + rest == Written(ps[0]) + t;
      PieceLexes(ps[0], t);
      PiecesLex(ps[1..], rest);
      PrependTwice(TokensOf(ps[0]), TokenList(ps[1..]), Lex(rest));
    }
  }

  // ---- Every text has its pieces ----

  /** A text that closes: it starts with an escape, with the delimiter, or with neither. */
  lemma ClosingCases(s: string, delim: string)
    requires delim != "" && Closing(s, delim).Some?
    ensures s != ""
    ensures s[0] == '\\' ==>
      |s| > 1 && Closing(s[2..], delim).Some? && Closing(s, delim).value == 2 + Closing(s[2..], delim).value
    ensures s[0] != '\\' && delim <= s ==> Closing(s, delim).value == |delim|
    ensures s[0] != '\\' && !(delim <= s) ==>
      Closing(s[1..], delim).Some? && Closing(s, delim).value == 1 + Closing(s[1..], delim).value
  {
  }

  ghost predicate ClosesAt(s: string, delim: string, n: nat) {
    |delim| <= n <= |s| && s[n - |delim|..n] == delim && LegalBody(s[..n - |delim|], delim)
  }

  lemma {:induction false} ClosedBodyIsLegal(s: string, delim: string)
    requires delim != "" && Closing(s, delim).Some?
    ensures ClosesAt(s, delim, Closing(s, delim).value)
    decreases |s|
  {
    hide Closing, ClosesAt;
    ClosingCases(s, delim);
    if s[0] == '\\' {
      ClosedBodyIsLegal(s[2..], delim);
      ClosesAfterEscape(s, delim, Closing(s[2..], delim).value);
    } else if delim <= s {
      ClosesAtOnce(s, delim);
    } else {
      ClosedBodyIsLegal(s[1..], delim);
      ClosesAfterChar(s, delim, Closing(s[1..], delim).value);
    }
  }

  lemma ClosesAtOnce(s: string, delim: string)
    requires delim <= s
    ensures ClosesAt(s, delim, |delim|)
  {
    assert s[0..|delim|] == delim && s[..0] == "";
  }

  lemma Slid(s: string, k: nat, m: nat, n: nat)
    requires k <= m <= n <= |s|
    ensures s[k..][m - k..n - k] == s[m..n] && s[k..][..m - k] == s[..m][k..]
  {
  }

  lemma ClosesAfterEscape(s: string, delim: string, n: nat)
    requires |s| > 1 && s[0] == '\\' && ClosesAt(s[2..], delim, n)
    ensures ClosesAt(s, delim, n + 2)
  {
    hide LegalBody;
    var m := n + 2 - |delim|;
    Slid(s, 2, m, n + 2);
    LegalEscape(s[..m], delim);
  }

  lemma ClosesAfterChar(s: string, delim: string, n: nat)
    requires s != "" && s[0] != '\\' && !(delim <= s) && ClosesAt(s[1..], delim, n)
    ensures ClosesAt(s, delim, n + 1)
  {
    hide LegalBody;
    var m := n + 1 - |delim|;
    Slid(s, 1, m, n + 1);
    assert s[..n + 1] == s[..m] + delim;
    PrefixOfPrefix(s, n + 1, delim);
    LegalChar(s[..m], delim);
  }

  lemma LegalEscape(body: string, delim: string)
    requires |body| > 1 && body[0] == '\\' && LegalBody(body[2..], delim)
    ensures LegalBody(body, delim)
  {
  }

  lemma LegalChar(body: string, delim: string)
    requires body != "" && body[0] != '\\' && !(delim <= body + delim) && LegalBody(body[1..], delim)
    ensures LegalBody(body, delim)
  {
  }

  lemma PrefixOfPrefix(s: string, n: nat, delim: string)
    requires n <= |s|
    ensures delim <= s[..n] ==> delim <= s
  {
    assert s == s[..n] + s[n..];
  }

  lemma DelimiterIsLegal(q: string)
    requires q != "" && IsQuote(q[0])
    ensures LegalDelimiter(Delimiter(q)) && (Delimiter(q) == "`" <==> q[0] == '`')
    ensures |Delimiter(q)| == 1 && q[0] != '`' && |q| > 2 && q[1] == q[0] ==> q[2] != q[0]
  {
  }

  lemma QuotedPiece(prefix: string, q: string) returns (h: Hidden)
    requires q != "" && IsQuote(q[0]) && QuotedLength(q).Some?
    requires LegalPrefix(prefix) && (q[0] == '`' ==> prefix == "")
    ensures Legal(h) && Text(h) == prefix + q[..QuotedLength(q).value]
    ensures Apart(Dropped(h), q[QuotedLength(q).value..])
  {
    hide Closing, LegalBody, LegalPrefix, LegalDelimiter, Delimiter;
    var d := Delimiter(q);
    var n := Closing(q[|d|..], d).value;
    DelimiterIsLegal(q);
    ClosedBodyIsLegal(q[|d|..], d);
    var body := q[|d|..][..n - |d|];
    h := Quoted(prefix, d, body);
    assert q[..|d| + n] == d + (body + d) by { Reassembled(q, d, n); }
    if |d| == 1 && body == "" {
      assert q[1] == q[|d|..][0] == d[0];
    }
  }

  lemma Reassembled(q: string, d: string, n: nat)
    requires d <= q && |d| <= n <= |q| - |d| && q[|d|..][n - |d|..n] == d
    ensures q[..|d| + n] == d + (q[|d|..][..n - |d|] + d)
  {
    var r := q[|d|..];
    assert q[..|d| + n] == d + r[..n] && r[..n] == r[..n - |d|] + r[n - |d|..n];
  }

  lemma EndsHere(s: string)
    ensures "*/" <= s <==> |s| > 1 && s[0] == '*' && s[1] == '/'
  {
    if |s| > 1 {
      assert s[..2] == [s[0], s[1]];
    }
  }

  lemma {:induction false} FoundEnd(s: string)
    requires Find(s, "*/").Some?
    ensures var k := Find(s, "*/").value; s[k..k + 2] == "*/" && NoBlockEnd(s[..k])
  {
    var k := Find(s, "*/").value;
    EndsHere(s);
    if "*/" <= s {
      assert s[..2] == "*/";
    } else {
      FoundEnd(s[1..]);
      assert s[1..][k - 1..k + 1] == s[k..k + 2];
      var body, rest := s[..k], s[1..][..k - 1];
      forall i | 0 <= i < |body| - 1
        ensures !(body[i] == '*' && body[i + 1] == '/')
      {
        assert body[i] == s[i] && body[i + 1] == s[i + 1];
        assert i > 0 ==> body[i] == rest[i - 1] && body[i + 1] == rest[i];
      }
    }
  }

  lemma BlockPiece(s: string) returns (h: Hidden)
    requires Starts(s, '/', '*') && Find(s[2..], "*/").Some?
    ensures Legal(h) && h.Block? && Text(h) <= s
  {
    hide NoBlockEnd, Find;
    var k := Find(s[2..], "*/").value;
    FoundEnd(s[2..]);
    h := Block(s[2..][..k]);
    assert s == "/*" + s[2..];
    assert s[2..] == s[2..][..k] + (s[2..][k..k + 2] + s[2..][k + 2..]);
    assert Text(h) + s[2..][k + 2..] == s;
  }

  lemma {:induction false} BeforeNewline(s: string)
    ensures var k := if Find(s, "\n").Some? then Find(s, "\n").value else |s|;
      '\n' !in s[..k] && (k < |s| ==> s[k] == '\n')
  {
    if s != "" && s[0] != '\n' {
      assert !("\n" <= s);
      BeforeNewline(s[1..]);
      var k := if Find(s, "\n").Some? then Find(s, "\n").value else |s|;
      assert s[..k] == [s[0]] + s[1..][..k - 1];
    } else if s != "" {
      assert "\n" <= s;
    }
  }

  lemma LinePiece(s: string) returns (h: Hidden)
    requires s != "" && (s[0] == '#' || Starts(s, '-', '-'))
    ensures Legal(h) && h.Line? && Text(h) <= s && Apart(Dropped(h), s[|Text(h)|..])
  {
    hide Find;
    BeforeNewline(s);
    var k := if Find(s, "\n").Some? then Find(s, "\n").value else |s|;
    var mark := if s[0] == '#' then "#" else "--";
    assert s[..|mark|] == mark;
    assert k >= |mark| by {
      assert k < |s| ==> s[k] == '\n';
    }
    h := Line(mark, s[|mark|..k]);
    assert Text(h) == s[..k];
  }

  /** After a string prefix that is taken as a word no string begins. */
  lemma PrefixWordStands(s: string, n: nat)
    requires 0 < n < |s| && LegalPrefix(s[..n]) && !IsWordByte(s[n]) && NextBite(s).Word?
    ensures s[n] != '\'' && s[n] != '"'
  {
    hide Find, QuotedLength, WordLength;
    assert s[..n][0] == s[0] && (n == 2 ==> s[..n][1] == s[1]);
  }

  lemma WordPiece(s: string)
    requires s != "" && IsWordByte(s[0])
    requires NextBite(s) == Word(WordLength(s))
    ensures var n := WordLength(s); LegalPiece(Token(s[..n])) && Apart(Token(s[..n]), s[n..])
  {
    hide NextBite, WordLength, LegalPrefix;
    var n := WordLength(s);
    WordEnds(s);
    WordPrefix(s);
    if LegalPrefix(s[..n]) && n < |s| {
      PrefixWordStands(s, n);
    }
  }

  lemma {:induction false} WordEnds(s: string)
    ensures WordLength(s) < |s| ==> !IsWordByte(s[WordLength(s)])
  {
    if s != "" && IsWordByte(s[0]) {
      WordEnds(s[1..]);
    }
  }

  /** What the scanner takes first is a piece, apart from what follows. */
  lemma FirstPiece(s: string) returns (p: Piece)
    requires s != "" && !NextBite(s).Bad?
    ensures LegalPiece(p) && Written(p) <= s && Apart(p, s[|Written(p)|..])
  {
    hide Find, QuotedLength, WordLength, LegalBody, NoBlockEnd;
    var c := s[0];
    if c == '#' || Starts(s, '-', '-') {
      var h := LinePiece(s);
      p := Dropped(h);
    } else if Starts(s, '/', '*') {
      var h := BlockPiece(s);
      p := Dropped(h);
    } else if IsQuote(c) {
      var h := QuotedPiece("", s);
      p := Dropped(h);
      assert "" + s[..QuotedLength(s).value] == s[..QuotedLength(s).value];
    } else if IsMark(c) {
      p := Token([c]);
      assert s[..1] == [c];
    } else if IsWordByte(c) {
      if NextBite(s) == Word(WordLength(s)) {
        WordPiece(s);
        p := Token(s[..WordLength(s)]);
      } else {
        var h := PrefixedPiece(s);
        p := Dropped(h);
      }
    } else {
      p := Other(c);
      assert s[..1] == [c];
      assert |s| > 1 ==> s[1..][0] == s[1];
    }
  }

  /** A bite that drops text from a word byte on is a prefixed quoted text. */
  lemma PrefixedSkip(s: string) returns (j: nat)
    requires s != "" && IsWordByte(s[0]) && NextBite(s).Skip?
    ensures 0 < j < |s| && LegalPrefix(s[..j]) && IsQuote(s[j]) && s[j] != '`' && QuotedLength(s[j..]).Some?
  {
    hide Find, QuotedLength, WordLength;
    j := if IsStringPrefix(s[1]) && !SamePrefix(s[1], s[0]) then 2 else 1;
  }

  lemma PrefixedPiece(s: string) returns (h: Hidden)
    requires s != "" && IsWordByte(s[0]) && NextBite(s).Skip?
    ensures Legal(h) && Text(h) <= s && Apart(Dropped(h), s[|Text(h)|..])
  {
    hide NextBite, QuotedLength, LegalBody, LegalPrefix, Legal, Text, Apart;
    var j := PrefixedSkip(s);
    var q := s[j..];
    var n := QuotedLength(q).value;
    h := QuotedPiece(s[..j], q);
    assert s[..j] + q[..n] == s[..j + n] && q[n..] == s[j + n..];
  }

  /** The pieces of a text up to where the scan ends: at the end of the text, or at a fault. */
  lemma {:induction false} PiecesOf(s: string) returns (ps: seq<Piece>, rest: string)
    ensures WellWritten(ps, rest) && s == WriteAll(ps) + rest
    ensures rest == "" || NextBite(rest).Bad?
    decreases |s|
  {
    hide NextBite, Apart, LegalPiece, Written, Lex;
    if s == "" || NextBite(s).Bad? {
      ps, rest := [], s;
    } else {
      var p := FirstPiece(s);
      var n := |Written(p)|;
      PieceLexes(p, s[n..]);
      assert s == Written(p) + s[n..];
      var more;
      more, rest := PiecesOf(s[n..]);
      ps := [p] + more;
      assert ps[1..] == more;
      assert WriteAll(ps) + rest == Written(p) + (WriteAll(more) + rest);
    }
  }

  // ---- Exactly which texts lex, and to what ----

  ghost predicate WrittenAs(s: string, words: seq<string>) {
    exists ps :: WellWritten(ps, "") && WriteAll(ps) == s && TokenList(ps) == words
  }

  /** A text lexes to some tokens exactly when it is written as pieces whose words and marks they are:
      so the pieces of a text may be chosen in many ways, and their tokens in one. */
  lemma LexesIffWrittenAs(s: string, words: seq<string>)
    ensures Lex(s) == Tokens(words) <==> WrittenAs(s, words)
  {
    hide Lex, WellWritten, WriteAll, TokenList;
    if Lex(s) == Tokens(words) {
      var ps, rest := PiecesOf(s);
      PiecesLex(ps, rest);
      if rest != "" {
        BadFaults(rest);
      }
      assert WriteAll(ps) + "" == WriteAll(ps);
      LexEmpty();
      assert TokenList(ps) + [] == TokenList(ps);
    }
    if ps :| WellWritten(ps, "") && WriteAll(ps) == s && TokenList(ps) == words {
      PiecesLex(ps, "");
      assert WriteAll(ps) + "" == WriteAll(ps);
      LexEmpty();
      assert TokenList(ps) + [] == TokenList(ps);
    }
  }

  lemma BadFaults(rest: string)
    requires rest != "" && NextBite(rest).Bad?
    ensures Lex(rest) == Failed(NextBite(rest).fault)
  {
  }

  /** No unescaped delimiter in the text. */
  predicate NeverCloses(s: string, delim: string) {
    s == "" ||
    if s[0] == '\\' then |s| == 1 || NeverCloses(s[2..], delim)
    else !(delim <= s) && NeverCloses(s[1..], delim)
  }

  predicate OpensComment(s: string) {
    Starts(s, '/', '*') && NoBlockEnd(s[2..])
  }

  predicate OpensQuote(s: string, prefix: string) {
    && LegalPrefix(prefix) && prefix < s && IsQuote(s[|prefix|]) && (s[|prefix|] == '`' ==> prefix == "")
    && var q := s[|prefix|..];
       NeverCloses(q[|Delimiter(q)|..], Delimiter(q))
  }

  /** A comment, or a quoted text with or without a prefix, is opened and never closed. */
  ghost predicate Opens(s: string, fault: Fault) {
    if fault.OpenComment? then OpensComment(s) else exists prefix :: OpensQuote(s, prefix)
  }

  lemma {:induction false} ClosingNone(s: string, delim: string)
    requires delim != ""
    ensures Closing(s, delim).None? <==> NeverCloses(s, delim)
    decreases |s|
  {
    if s != "" && s[0] == '\\' && |s| > 1 {
      ClosingNone(s[2..], delim);
    } else if s != "" && s[0] != '\\' {
      ClosingNone(s[1..], delim);
    }
  }

  lemma {:induction false} FindEndNone(s: string)
    ensures Find(s, "*/").None? <==> NoBlockEnd(s)
  {
    if s != "" {
      FindEndNone(s[1..]);
      EndsHere(s);
      assert forall i :: 0 < i < |s| ==> s[i] == s[1..][i - 1];
      if NoBlockEnd(s) {
        var t := s[1..];
        forall i | 0 <= i < |t| - 1
          ensures !(t[i] == '*' && t[i + 1] == '/')
        {
          var j := i + 1;
          assert t[i] == s[j] && t[i + 1] == s[j + 1];
        }
      }
    }
  }

  lemma OpenedFaults(s: string, fault: Fault)
    requires Opens(s, fault)
    ensures s != "" && NextBite(s) == Bad(fault)
  {
    hide Find, NoBlockEnd, NeverCloses, Closing;
    if fault.OpenComment? {
      FindEndNone(s[2..]);
    } else {
      var prefix :| OpensQuote(s, prefix);
      var q := s[|prefix|..];
      ClosingNone(q[|Delimiter(q)|..], Delimiter(q));
      PrefixedBite(prefix, q);
      assert s == prefix + q;
    }
  }

  lemma FaultOpens(s: string)
    requires s != "" && NextBite(s).Bad?
    ensures Opens(s, NextBite(s).fault)
  {
    hide Find, NoBlockEnd, NeverCloses, Closing, WordLength;
    if Starts(s, '/', '*') {
      FindEndNone(s[2..]);
    } else {
      var j := if IsQuote(s[0]) then 0 else if IsStringPrefix(s[1]) && !SamePrefix(s[1], s[0]) then 2 else 1;
      var q := s[j..];
      ClosingNone(q[|Delimiter(q)|..], Delimiter(q));
      assert s == s[..j] + q;
      assert OpensQuote(s, s[..j]);
    }
  }

  ghost predicate StopsAt(s: string, ps: seq<Piece>, rest: string, fault: Fault) {
    WellWritten(ps, rest) && WriteAll(ps) + rest == s && Opens(rest, fault)
  }

  ghost predicate FaultsAs(s: string, fault: Fault) {
    exists ps, rest :: StopsAt(s, ps, rest, fault)
  }

  /** A text faults exactly when, after pieces set apart, it opens what it never closes. */
  lemma FaultsIffOpened(s: string, fault: Fault)
    ensures Lex(s) == Failed(fault) <==> FaultsAs(s, fault)
  {
    hide Lex, WellWritten, WriteAll, TokenList, NextBite, Opens;
    if Lex(s) == Failed(fault) {
      var ps, rest := PiecesOf(s);
      PiecesLex(ps, rest);
      if rest == "" {
        LexEmpty();
      } else {
        BadFaults(rest);
        FaultOpens(rest);
        assert StopsAt(s, ps, rest, fault);
      }
    }
    if ps, rest :| StopsAt(s, ps, rest, fault) {
      PiecesLex(ps, rest);
      OpenedFaults(rest, fault);
      BadFaults(rest);
    }
  }

  // ---- Marks ----

  /** A mark is a token by itself, whatever stands directly before and after it. */
  lemma MarkSeparates(a: string, m: char, b: string)
    requires Lex(a).Tokens? && !OpenLine(a) && IsMark(m)
    ensures Lex(a + [m] + b) == Prepend(Lex(a).words + [[m]], Lex(b))
  {
    hide Lex, OpenLine;
    assert a + [m] + b == a + ([m] + b);
    LexThen(a, [m] + b);
    MarkBite(m, b);
    LexOfBite([m], b);
    PrependTwice(Lex(a).words, [[m]], Lex(b));
  }

  /** The word bytes are every byte but the ASCII spaces, controls and punctuation, _ aside. */
  lemma WordBytesAre(c: char)
    ensures IsWordByte(c) <==>
      c >= '\U{0080}' || ('!' <= c <= '~' && c !in "!\"#$%&'()*+,-./:;<=>?@[\\]^`{|}~")
  {
  }
}
