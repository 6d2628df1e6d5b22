/**
 Lexing is compositional: text lexed on its own gives the same tokens with more text after it,
 and quoted text or a comment contributes nothing, whatever it holds.
 */
module GoogleSqlCompose {
  import opened GoogleSqlTokens
  import opened Options

  // ---- Prefix stability ----

  /** A character that never joins with what stands before it: it extends no word, opens or closes no
      quoted text, and completes no comment mark. Spaces, marks and most punctuation are such. */
  predicate Breaks(c: char) {
    !IsWordByte(c) && !IsQuote(c) && c != '-' && c != '*'
  }

  lemma {:induction false} WordLengthStable(a: string, t: string)
    requires t != "" && !IsWordByte(t[0])
    ensures WordLength(a + t) == WordLength(a)
  {
    if a == "" {
      assert a + t == t;
    } else {
      assert (a + t)[1..] == a[1..] + t;
      WordLengthStable(a[1..], t);
    }
  }

  lemma {:induction false} FindStable(a: string, t: string, mark: string)
    requires Find(a, mark).Some?
    ensures Find(a + t, mark) == Find(a, mark)
  {
    if !(mark <= a) {
      assert (a + t)[1..] == a[1..] + t;
      FindStable(a[1..], t, mark);
    }
  }

  /** A newline that a does not hold is found first in what follows. */
  lemma {:induction false} FindNewlineAfter(a: string, t: string)
    requires Find(a, "\n").None?
    ensures Find(a + t, "\n") == Shift(|a|, Find(t, "\n"))
  {
    if a == "" {
      assert a + t == t;
    } else {
      assert (a + t)[1..] == a[1..] + t;
      FindNewlineAfter(a[1..], t);
    }
  }

  lemma {:induction false} ClosingStable(a: string, t: string, delim: string)
    requires delim != "" && Closing(a, delim).Some?
    ensures Closing(a + t, delim) == Closing(a, delim)
    decreases |a|
  {
    if a[0] == '\\' {
      assert (a + t)[2..] == a[2..] + t;
      ClosingStable(a[2..], t, delim);
    } else if !(delim <= a) {
      assert (a + t)[1..] == a[1..] + t;
      ClosingStable(a[1..], t, delim);
      ClosedWithin(a, t, delim);
    }
  }

  /** Text that closes within a does not open earlier because of what follows a. */
  lemma {:induction false} ClosedWithin(a: string, t: string, delim: string)
    requires delim != "" && Closing(a, delim).Some? && a[0] != '\\'
    ensures delim <= a + t <==> delim <= a
  {
    if delim <= a + t {
      assert Closing(a, delim).value >= |delim|;
      assert |delim| <= |a|;
      forall i | 0 <= i < |delim|
        ensures delim[i] == a[i]
      {
        assert (a + t)[i] == a[i];
      }
    }
  }

  lemma QuotedLengthStable(a: string, t: string)
    requires a != "" && QuotedLength(a).Some?
    requires t != "" && Breaks(t[0]) && IsQuote(a[0])
    ensures QuotedLength(a + t) == QuotedLength(a)
  {
    var d := Delimiter(a);
    assert |a| > 1 && (a + t)[0] == a[0] && (a + t)[1] == a[1];
    assert (a + t)[2] == if |a| > 2 then a[2] else t[0];
    assert Delimiter(a + t) == d;
    assert (a + t)[|d|..] == a[|d|..] + t;
    ClosingStable(a[|d|..], t, d);
  }

  /** A bite taken from a is the same with a breaking character and more text after a. */
  lemma NextBiteStable(a: string, t: string)
    requires a != "" && (NextBite(a).Skip? || NextBite(a).Word?)
    requires t != "" && Breaks(t[0])
    ensures NextBite(a + t) == NextBite(a)
  {
    hide Find, QuotedLength, WordLength;
    var s, c := a + t, a[0];
    assert s[0] == c && s[1] == if |a| > 1 then a[1] else t[0];
    if IsSpace(c) {
    } else if c == '#' || Starts(a, '-', '-') {
      FindStable(a, t, "\n");
    } else if Starts(a, '/', '*') {
      assert s[2..] == a[2..] + t;
      FindStable(a[2..], t, "*/");
    } else if IsQuote(c) {
      QuotedLengthStable(a, t);
    } else {
      WordLengthStable(a, t);
      if IsStringPrefix(c) && 1 < |a| {
        var j := if IsStringPrefix(a[1]) && !SamePrefix(a[1], c) then 2 else 1;
        assert s[j] == if j < |a| then a[j] else t[0];
        if j < |a| && (a[j] == '\'' || a[j] == '"') {
          assert s[j..] == a[j..] + t;
          QuotedLengthStable(a[j..], t);
        }
      }
    }
  }

  // ---- Composition ----

  /** The scan of s ends inside a line comment that no newline closes. */
  predicate OpenLine(s: string)
    decreases |s|
  {
    s != "" &&
    match NextBite(s)
    case Bad(_) => false
    case End => true
    case Skip(n) => OpenLine(s[n..])
    case Word(n) => OpenLine(s[n..])
  }

  /** What a line comment left open leaves of the text after it. */
  function AfterLine(t: string): string {
    match Find(t, "\n") case None => "" case Some(k) => t[k + 1..]
  }

  lemma OpenLineBite(a: string, t: string)
    requires a != "" && NextBite(a).End?
    requires t != "" && Breaks(t[0])
    ensures NextBite(a + t) ==
      match Find(t, "\n") case None => End case Some(k) => Skip(|a| + k + 1)
  {
    assert (a + t)[0] == a[0] && (|a| > 1 ==> (a + t)[1] == a[1]);
    FindNewlineAfter(a, t);
  }

  lemma OpenLineSwallows(a: string, t: string)
    requires a != "" && NextBite(a).End?
    requires t != "" && Breaks(t[0])
    ensures Lex(a + t) == Lex(AfterLine(t))
  {
    hide NextBite, Find, Breaks;
    OpenLineBite(a, t);
    if k :| Find(t, "\n") == Some(k) {
      assert (a + t)[|a| + k + 1..] == t[k + 1..];
    }
  }

  lemma SpaceFirst(separator: char, b: string)
    requires IsSpace(separator)
    ensures Lex([separator] + b) == Lex(b)
    ensures AfterLine([separator] + b) == if separator == '\n' then b else AfterLine(b)
  {
    var t := [separator] + b;
    assert t[1..] == b;
    assert NextBite(t) == Skip(1);
    assert "\n" <= t <==> separator == '\n';
    if separator != '\n' && Find(b, "\n").Some? {
      var k := Find(b, "\n").value;
      assert t[k + 2..] == b[k + 1..];
    }
  }

  /** Text that starts with a breaking character is lexed from there on, unless a line comment is
      still open. */
  lemma {:induction false} LexThen(a: string, t: string)
    requires Lex(a).Tokens?
    requires t != "" && Breaks(t[0])
    ensures Lex(a + t) == Prepend(Lex(a).words, if OpenLine(a) then Lex(AfterLine(t)) else Lex(t))
    decreases |a|
  {
    hide NextBite;
    PrependNothing(Lex(t));
    PrependNothing(Lex(AfterLine(t)));
    if a == "" {
      assert a + t == t;
    } else if NextBite(a).End? {
      OpenLineSwallows(a, t);
    } else {
      var b := NextBite(a);
      NextBiteStable(a, t);
      var n := b.n;
      assert 0 < n <= |a|;
      assert (a + t)[n..] == a[n..] + t && (a + t)[..n] == a[..n];
      LexThen(a[n..], t);
      PrependTwice([a[..n]], Lex(a[n..]).words, if OpenLine(a) then Lex(AfterLine(t)) else Lex(t));
    }
  }

  /** Lexing a, a separator and b gives a's tokens and then b's, b's fault passed through. It
      holds for a newline always, and for another space exactly up to a line comment left open,
      which takes the rest of b's first line. */
  lemma LexComposes(a: string, separator: char, b: string)
    requires Lex(a).Tokens? && IsSpace(separator)
    ensures Lex(a + [separator] + b) ==
      Prepend(Lex(a).words, if OpenLine(a) && separator != '\n' then Lex(AfterLine(b)) else Lex(b))
  {
    assert a + [separator] + b == a + ([separator] + b);
    LexThen(a, [separator] + b);
    SpaceFirst(separator, b);
  }

  // ---- Tokens ----

  /** One of the six marks, or a run of word bytes. */
  predicate IsToken(t: string) {
    || t == "(" || t == ")" || t == ";" || t == "@" || t == "{" || t == "}"
    || (t != "" && forall i :: 0 <= i < |t| ==> IsWordByte(t[i]))
  }

  lemma {:induction false} WordPrefix(s: string)
    ensures forall i :: 0 <= i < WordLength(s) ==> IsWordByte(s[i])
    ensures (forall i :: 0 <= i < |s| ==> IsWordByte(s[i])) ==> WordLength(s) == |s|
  {
    if s != "" && IsWordByte(s[0]) {
      WordPrefix(s[1..]);
      assert forall i :: 0 < i < |s| ==> s[i] == s[1..][i - 1];
    }
  }

  lemma WordBiteIsToken(s: string)
    requires s != "" && NextBite(s).Word?
    ensures IsToken(s[..NextBite(s).n])
  {
    WordPrefix(s);
    assert IsMark(s[0]) ==> s[..1] == [s[0]];
  }

  lemma {:induction false} TokensAreWordsOrMarks(s: string)
    ensures Lex(s).Tokens? ==> forall i :: 0 <= i < |Lex(s).words| ==> IsToken(Lex(s).words[i])
    decreases |s|
  {
    hide NextBite, IsToken;
    if s != "" {
      var b := NextBite(s);
      if b.Skip? || b.Word? {
        TokensAreWordsOrMarks(s[b.n..]);
      }
      if b.Word? {
        WordBiteIsToken(s);
      }
    }
  }

  lemma TokenBite(t: string)
    requires IsToken(t)
    ensures t != "" && NextBite(t) == Word(|t|)
  {
    hide Find, QuotedLength, WordLength;
    WordPrefix(t);
    assert IsMark(t[0]) || IsWordByte(t[0]);
    assert IsMark(t[0]) ==> |t| == 1;
    assert |t| > 1 ==> IsWordByte(t[1]);
    assert |t| > 2 ==> IsWordByte(t[2]);
  }

  lemma LexToken(t: string)
    requires IsToken(t)
    ensures Lex(t) == Tokens([t]) && !OpenLine(t)
  {
    hide NextBite, IsToken;
    TokenBite(t);
    assert t[..|t|] == t && t[|t|..] == "";
  }

  /** Tokens written out, each with a space after it. */
  function Spaced(tokens: seq<string>): string {
    if tokens == [] then "" else tokens[0] + [' '] + Spaced(tokens[1..])
  }

  /** Lexing what is written of a token list gives the list back. */
  lemma {:induction false} LexRoundTrips(tokens: seq<string>)
    requires forall i :: 0 <= i < |tokens| ==> IsToken(tokens[i])
    ensures Lex(Spaced(tokens)) == Tokens(tokens)
  {
    hide Lex, IsToken, OpenLine;
    if tokens == [] {
      LexEmpty();
    } else {
      LexToken(tokens[0]);
      LexComposes(tokens[0], ' ', Spaced(tokens[1..]));
      LexRoundTrips(tokens[1..]);
    }
  }

  lemma LexEmpty()
    ensures Lex("") == Tokens([])
  {
  }

  /** So a statement can be replaced by its tokens, one space apart, without any gate noticing. */
  lemma LexIsNormal(s: string)
    requires Lex(s).Tokens?
    ensures Lex(Spaced(Lex(s).words)) == Lex(s)
  {
    TokensAreWordsOrMarks(s);
    LexRoundTrips(Lex(s).words);
  }

  // ---- Quoted text and comments are silent ----

  datatype Hidden =
    | Quoted(prefix: string, delim: string, body: string)
    | Block(body: string)
    | Line(mark: string, body: string)

  function Text(h: Hidden): string {
    match h
    case Quoted(prefix, delim, body) => prefix + (delim + (body + delim))
    case Block(body) => "/*" + (body + "*/")
    case Line(mark, body) => mark + body
  }

  predicate LegalDelimiter(delim: string) {
    delim == "'" || delim == "\"" || delim == "`" || delim == "'''" || delim == "\"\"\""
  }

  predicate LegalPrefix(prefix: string) {
    && |prefix| <= 2
    && (forall i :: 0 <= i < |prefix| ==> IsStringPrefix(prefix[i]))
    && (|prefix| == 2 ==> !SamePrefix(prefix[1], prefix[0]))
  }

  /** No unescaped delimiter before the closing one, and no backslash that would escape it. */
  predicate LegalBody(body: string, delim: string) {
    body == "" ||
    if body[0] == '\\' then |body| > 1 && LegalBody(body[2..], delim)
    else !(delim <= body + delim) && LegalBody(body[1..], delim)
  }

  predicate NoBlockEnd(body: string) {
    forall i :: 0 <= i < |body| - 1 ==> !(body[i] == '*' && body[i + 1] == '/')
  }

  predicate Legal(h: Hidden) {
    match h
    case Quoted(prefix, delim, body) =>
      && LegalDelimiter(delim) && LegalPrefix(prefix) && (delim == "`" ==> prefix == "")
      && LegalBody(body, delim)
    case Block(body) => NoBlockEnd(body)
    case Line(mark, body) => (mark == "#" || mark == "--") && '\n' !in body
  }

  lemma {:induction false} LegalBodyCloses(body: string, delim: string)
    requires delim != "" && delim[0] != '\\' && LegalBody(body, delim)
    ensures Closing(body + delim, delim) == Some(|body| + |delim|)
    decreases |body|
  {
    var s := body + delim;
    if body == "" {
      assert s == delim;
    } else if body[0] == '\\' {
      assert s[2..] == body[2..] + delim;
      LegalBodyCloses(body[2..], delim);
    } else {
      assert s[1..] == body[1..] + delim;
      LegalBodyCloses(body[1..], delim);
    }
  }

  /** A legal body opened by one quote does not read as opened by three. */
  lemma DelimiterIsOwn(delim: string, body: string)
    requires LegalDelimiter(delim) && LegalBody(body, delim)
    ensures Delimiter(delim + (body + delim)) == delim
  {
    var s := delim + (body + delim);
    if |delim| == 1 && body != "" {
      assert s[1] == body[0];
    } else if |delim| == 1 {
      assert |s| == 2;
    } else {
      assert s[0] == delim[0] && s[1] == delim[1] && s[2] == delim[2];
    }
  }

  lemma QuotedIsOneLength(delim: string, body: string)
    requires LegalDelimiter(delim) && LegalBody(body, delim)
    ensures QuotedLength(delim + (body + delim)) == Some(2 * |delim| + |body|)
  {
    hide Closing, LegalBody, Delimiter;
    DelimiterIsOwn(delim, body);
    assert (delim + (body + delim))[|delim|..] == body + delim;
    LegalBodyCloses(body, delim);
  }

  lemma {:induction false} FindBlockEnd(body: string)
    requires NoBlockEnd(body)
    ensures Find(body + "*/", "*/") == Some(|body|)
  {
    var s := body + "*/";
    if body == "" {
      assert s == "*/";
    } else {
      assert s[1..] == body[1..] + "*/";
      FindBlockEnd(body[1..]);
      assert !("*/" <= s) by {
        assert s[0] == body[0] && s[1] == if |body| > 1 then body[1] else '*';
      }
    }
  }

  lemma {:induction false} NoNewline(s: string)
    requires '\n' !in s
    ensures Find(s, "\n").None?
  {
    if s != "" {
      assert s[0] in s;
      NoNewline(s[1..]);
    }
  }

  lemma LineBite(mark: string, body: string)
    requires mark == "#" || mark == "--"
    requires '\n' !in body
    ensures NextBite(mark + body) == End
  {
    NoNewline(mark);
    NoNewline(body);
    FindNewlineAfter(mark, body);
  }

  lemma BlockBite(body: string)
    requires NoBlockEnd(body)
    ensures NextBite("/*" + (body + "*/")) == Skip(|body| + 4)
  {
    hide Find;
    FindBlockEnd(body);
    assert ("/*" + (body + "*/"))[2..] == body + "*/";
  }

  lemma PrefixedBite(prefix: string, q: string)
    requires LegalPrefix(prefix) && q != "" && IsQuote(q[0]) && (q[0] == '`' ==> prefix == "")
    ensures NextBite(prefix + q) == Skipping(|prefix|, QuotedLength(q), OpenQuote)
  {
    hide QuotedLength, WordLength, Find;
    var s := prefix + q;
    assert s[|prefix|..] == q && s[|prefix|] == q[0];
    if prefix == "" {
      assert s == q;
    } else {
      assert s[0] == prefix[0];
      assert |prefix| == 2 ==> s[1] == prefix[1];
    }
  }

  lemma QuotedBite(prefix: string, delim: string, body: string)
    requires Legal(Quoted(prefix, delim, body))
    ensures NextBite(prefix + (delim + (body + delim))) == Skip(|prefix| + 2 * |delim| + |body|)
  {
    hide NextBite, QuotedLength, LegalBody;
    QuotedIsOneLength(delim, body);
    PrefixedBite(prefix, delim + (body + delim));
  }

  lemma HiddenBite(h: Hidden)
    requires Legal(h)
    ensures Text(h) != ""
    ensures NextBite(Text(h)) == if h.Line? then End else Skip(|Text(h)|)
  {
    hide NextBite;
    match h
    case Quoted(prefix, delim, body) => QuotedBite(prefix, delim, body);
    case Block(body) => BlockBite(body);
    case Line(mark, body) => LineBite(mark, body);
  }

  lemma HiddenIsSilent(h: Hidden)
    requires Legal(h)
    ensures Lex(Text(h)) == Tokens([])
    ensures OpenLine(Text(h)) == h.Line?
  {
    hide NextBite;
    HiddenBite(h);
    var s := Text(h);
    assert s[|s|..] == "";
  }

  /** A quoted text or a comment between a and b adds no token: the tokens are a's and then b's,
      whatever it holds. */
  lemma HiddenAddsNothing(a: string, before: char, h: Hidden, after: char, b: string)
    requires Lex(a).Tokens? && Legal(h) && IsSpace(before) && IsSpace(after)
    requires before == '\n' || !OpenLine(a)
    requires after == '\n' || !h.Line?
    ensures Lex(a + [before] + (Text(h) + [after] + b)) == Prepend(Lex(a).words, Lex(b))
  {
    LexComposes(a, before, Text(h) + [after] + b);
    HiddenIsSilent(h);
    LexComposes(Text(h), after, b);
    PrependNothing(Lex(b));
  }
}
