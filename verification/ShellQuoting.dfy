/**
 Arguments quoted for a POSIX shell, and the reading of them by sections 2.2.1 and 2.2.2 of the
 POSIX.1-2017 Shell Command Language: a backslash quotes the next character, single quotes quote
 every character between them.
 */
module ShellQuoting {
  import opened Options

  predicate IsSafe(c: char) {
    'a' <= c <= 'z' || 'A' <= c <= 'Z' || '0' <= c <= '9' ||
    c == '-' || c == '_' || c == '.' || c == '/' || c == ':' || c == '@'
  }

  /** Safe characters cut from both ends. */
  function TrimSafe(s: string): string {
    if s != "" && IsSafe(s[0]) then TrimSafe(s[1..])
    else if s != "" && IsSafe(s[|s| - 1]) then TrimSafe(s[..|s| - 1])
    else s
  }

  function EscapeQuotes(s: string): string {
    if s == "" then ""
    else (if s[0] == '\'' then "'\\''" else [s[0]]) + EscapeQuotes(s[1..])
  }

  function ShellQuote(s: string): string {
    if s != "" && TrimSafe(s) == "" then s else "'" + EscapeQuotes(s) + "'"
  }

  predicate AllSafe(s: string) {
    forall i :: 0 <= i < |s| ==> IsSafe(s[i])
  }

  /** Cutting from the ends leaves nothing exactly when every character is safe. */
  lemma {:induction false} TrimmedAwayIff(s: string)
    ensures TrimSafe(s) == "" <==> AllSafe(s)
    decreases |s|
  {
    if s != "" && IsSafe(s[0]) {
      TrimmedAwayIff(s[1..]);
      assert AllSafe(s) <==> AllSafe(s[1..]) by {
        assert forall i :: 0 < i < |s| ==> s[i] == s[1..][i - 1];
      }
    } else if s != "" && IsSafe(s[|s| - 1]) {
      TrimmedAwayIff(s[..|s| - 1]);
    }
  }

  lemma {:induction false} EscapedIsNoShorter(s: string)
    ensures |EscapeQuotes(s)| >= |s|
  {
    if s != "" {
      EscapedIsNoShorter(s[1..]);
    }
  }

  /** An argument is left as it is exactly when it is not empty and every character is safe. */
  lemma LeftAloneIff(s: string)
    ensures ShellQuote(s) == s <==> s != "" && AllSafe(s)
  {
    TrimmedAwayIff(s);
    EscapedIsNoShorter(s);
  }

  // ---- The shell's reading ----

  predicate IsBlank(c: char) {
    c == ' ' || c == '\t'
  }

  /** Characters that mean something else to the shell when not quoted. */
  predicate IsSpecial(c: char) {
    || c == '|' || c == '&' || c == ';' || c == '<' || c == '>' || c == '(' || c == ')'
    || c == '$' || c == '`' || c == '"' || c == '*' || c == '?' || c == '[' || c == '#'
    || c == '~' || c == '=' || c == '%' || c == '{' || c == '}' || c == '!' || c == '^' || c == '\n'
  }

  /** The words of a text, from inside single quotes or not, with the word under way if any; none
      when the text has an operator or an expansion in it, or a quote left open. */
  function Read(s: string, quoted: bool, word: Option<string>): Option<seq<string>>
    decreases |s|
  {
    var sofar := if word.Some? then word.value else "";
    if s == "" then (if quoted then None else Some(if word.Some? then [word.value] else []))
    else if quoted then
      (if s[0] == '\'' then Read(s[1..], false, Some(sofar)) else Read(s[1..], true, Some(sofar + [s[0]])))
    else if IsBlank(s[0]) then
      (match Read(s[1..], false, None)
       case None => None
       case Some(words) => Some((if word.Some? then [word.value] else []) + words))
    else if s[0] == '\'' then Read(s[1..], true, Some(sofar))
    else if s[0] == '\\' then (if |s| == 1 || s[1] == '\n' then None else Read(s[2..], false, Some(sofar + [s[1]])))
    else if IsSpecial(s[0]) then None
    else Read(s[1..], false, Some(sofar + [s[0]]))
  }

  function Words(s: string): Option<seq<string>> {
    Read(s, false, None)
  }

  lemma SafeCharIsRead(c: char, rest: string, word: Option<string>)
    requires IsSafe(c)
    ensures Read([c] + rest, false, word) == Read(rest, false, Some((if word.Some? then word.value else "") + [c]))
  {
    assert ([c] + rest)[1..] == rest;
  }

  lemma {:induction false} SafeTextIsRead(w: string, rest: string, sofar: string)
    requires AllSafe(w)
    ensures Read(w + rest, false, Some(sofar)) == Read(rest, false, Some(sofar + w))
    decreases |w|
  {
    hide Read;
    if w == "" {
      assert w + rest == rest && sofar + w == sofar;
    } else {
      assert w + rest == [w[0]] + (w[1..] + rest);
      SafeCharIsRead(w[0], w[1..] + rest, Some(sofar));
      SafeTextIsRead(w[1..], rest, sofar + [w[0]]);
      assert sofar + [w[0]] + w[1..] == sofar + w;
    }
  }

  lemma {:induction false} EscapedTextIsRead(s: string, rest: string, sofar: string)
    ensures Read(EscapeQuotes(s) + ("'" + rest), true, Some(sofar)) == Read(rest, false, Some(sofar + s))
    decreases |s|
  {
    var t := "'" + rest;
    if s == "" {
      assert EscapeQuotes(s) + t == t && t[1..] == rest && sofar + s == sofar;
    } else {
      var tail := EscapeQuotes(s[1..]) + t;
      EscapedTextIsRead(s[1..], rest, sofar + [s[0]]);
      assert sofar + [s[0]] + s[1..] == sofar + s;
      if s[0] == '\'' {
        QuoteIsRead(tail, sofar);
        assert EscapeQuotes(s) + t == "'\\''" + tail;
      } else {
        assert EscapeQuotes(s) + t == [s[0]] + tail;
        assert ([s[0]] + tail)[1..] == tail;
      }
    }
  }

  /** A quote ended, a quoted quote and a quote begun read as one quote character. */
  lemma QuoteIsRead(tail: string, sofar: string)
    ensures Read("'\\''" + tail, true, Some(sofar)) == Read(tail, true, Some(sofar + "'"))
  {
    var a := "'\\''" + tail;
    var b := "\\''" + tail;
    var c := "'" + tail;
    assert a[1..] == b && b[2..] == c && c[1..] == tail;
    assert Read(a, true, Some(sofar)) == Read(b, false, Some(sofar));
    assert b[0] == '\\' && b[1] == '\'';
    assert Read(b, false, Some(sofar)) == Read(c, false, Some(sofar + ['\'']));
    assert Read(c, false, Some(sofar + ['\''])) == Read(tail, true, Some(sofar + ['\'']));
  }

  lemma SafeWordIsRead(s: string, rest: string)
    requires s != "" && AllSafe(s)
    ensures Read(s + rest, false, None) == Read(rest, false, Some(s))
  {
    hide Read;
    assert s + rest == [s[0]] + (s[1..] + rest);
    SafeCharIsRead(s[0], s[1..] + rest, None);
    assert "" + [s[0]] == [s[0]] && [s[0]] + s[1..] == s;
    SafeTextIsRead(s[1..], rest, [s[0]]);
  }

  lemma QuotedWordIsRead(s: string, rest: string)
    ensures Read("'" + EscapeQuotes(s) + "'" + rest, false, None) == Read(rest, false, Some(s))
  {
    var inner := EscapeQuotes(s) + ("'" + rest);
    assert "'" + EscapeQuotes(s) + "'" + rest == "'" + inner;
    assert ("'" + inner)[1..] == inner;
    EscapedTextIsRead(s, rest, "");
    assert "" + s == s;
  }

  /** Where a word starts, a quoted argument is read as exactly that argument. */
  lemma QuotedIsRead(s: string, rest: string)
    ensures Read(ShellQuote(s) + rest, false, None) == Read(rest, false, Some(s))
  {
    hide Read;
    TrimmedAwayIff(s);
    if s != "" && AllSafe(s) {
      SafeWordIsRead(s, rest);
    } else {
      QuotedWordIsRead(s, rest);
    }
  }

  /** Quoting round trip: the shell reads one word, the argument itself. */
  lemma QuoteRoundTrips(s: string)
    ensures Words(ShellQuote(s)) == Some([s])
  {
    QuotedIsRead(s, "");
    assert ShellQuote(s) + "" == ShellQuote(s);
  }

  // ---- The flags that name an instance ----

  datatype Config = Config(name: string, stateDir: string)

  const DEFAULT_NAME := "cloudburrow"

  function Flags(cfg: Config, defaultStateDir: string): string {
    (if cfg.name != DEFAULT_NAME then " --name " + ShellQuote(cfg.name) else "") +
    (if cfg.stateDir != defaultStateDir then " --state-dir " + ShellQuote(cfg.stateDir) else "")
  }

  function FlagWords(cfg: Config, defaultStateDir: string): seq<string> {
    (if cfg.name != DEFAULT_NAME then ["--name", cfg.name] else []) +
    (if cfg.stateDir != defaultStateDir then ["--state-dir", cfg.stateDir] else [])
  }

  function Prepended(words: seq<string>, r: Option<seq<string>>): Option<seq<string>> {
    match r case None => None case Some(more) => Some(words + more)
  }

  function Pending(word: Option<string>): seq<string> {
    if word.Some? then [word.value] else []
  }

  lemma SpaceIsRead(rest: string, word: Option<string>)
    ensures Read(" " + rest, false, word) == Prepended(Pending(word), Read(rest, false, None))
  {
    assert (" " + rest)[1..] == rest;
  }

  lemma PrependedTwice(a: seq<string>, b: seq<string>, r: Option<seq<string>>)
    ensures Prepended(a, Prepended(b, r)) == Prepended(a + b, r)
  {
    if r.Some? {
      assert a + (b + r.value) == a + b + r.value;
    }
  }

  /** A space, a plain flag, a space and a quoted value, after a word under way. */
  lemma FlagIsRead(word: Option<string>, flag: string, value: string, rest: string)
    requires flag != "" && AllSafe(flag)
    ensures Read(" " + flag + " " + ShellQuote(value) + rest, false, word) ==
      Prepended(Pending(word) + [flag], Read(rest, false, Some(value)))
  {
    hide Read, ShellQuote, Prepended;
    var tail := ShellQuote(value) + rest;
    assert " " + flag + " " + ShellQuote(value) + rest == " " + (flag + (" " + tail));
    SpaceIsRead(flag + (" " + tail), word);
    SafeWordIsRead(flag, " " + tail);
    SpaceIsRead(tail, Some(flag));
    QuotedIsRead(value, rest);
    PrependedTwice(Pending(word), [flag], Read(rest, false, Some(value)));
  }

  /** An optional flag with its value, at the end of a text. */
  lemma LastFlagIsRead(word: string, flag: string, value: string, given: bool)
    requires flag != "" && AllSafe(flag)
    ensures Read(if given then " " + flag + " " + ShellQuote(value) else "", false, Some(word)) ==
      Some(if given then [word, flag, value] else [word])
  {
    if given {
      FlagIsRead(Some(word), flag, value, "");
      assert " " + flag + " " + ShellQuote(value) + "" == " " + flag + " " + ShellQuote(value);
      assert Read("", false, Some(value)) == Some([value]);
      assert [word] + [flag] + [value] == [word, flag, value];
    }
  }

  /** The flags after any word split into exactly the flags and values meant. */
  lemma FlagsSplit(cfg: Config, defaultStateDir: string, word: string)
    ensures Read(Flags(cfg, defaultStateDir), false, Some(word)) == Some([word] + FlagWords(cfg, defaultStateDir))
  {
    hide Read, ShellQuote;
    var named, placed := cfg.name != DEFAULT_NAME, cfg.stateDir != defaultStateDir;
    var dir := if placed then " --state-dir " + ShellQuote(cfg.stateDir) else "";
    var w := if named then cfg.name else word;
    LastFlagIsRead(w, "--state-dir", cfg.stateDir, placed);
    assert " " + "--state-dir" + " " == " --state-dir ";
    if named {
      FlagIsRead(Some(word), "--name", cfg.name, dir);
      assert " " + "--name" + " " == " --name ";
      var tail := if placed then [w, "--state-dir", cfg.stateDir] else [w];
      assert [word] + ["--name"] + tail == [word] + FlagWords(cfg, defaultStateDir);
    } else {
      assert "" + dir == dir;
      assert placed ==> [w, "--state-dir", cfg.stateDir] == [word] + FlagWords(cfg, defaultStateDir);
      assert !placed ==> [w] == [word] + FlagWords(cfg, defaultStateDir);
    }
  }

  /** The flags written for an instance, after any word of a command line, are read as exactly the
      flags and values meant. */
  method InstanceFlags(cfg: Config, defaultStateDir: string) returns (flags: string)
    ensures forall word :: Read(flags, false, Some(word)) == Some([word] + FlagWords(cfg, defaultStateDir))
  {
    flags := "";
    if cfg.name != DEFAULT_NAME {
      flags := flags + (" --name " + ShellQuote(cfg.name));
    }
    if cfg.stateDir != defaultStateDir {
      flags := flags + (" --state-dir " + ShellQuote(cfg.stateDir));
    }
    hide Read, FlagWords, ShellQuote;
    assert flags == Flags(cfg, defaultStateDir);
    forall word
      ensures Read(flags, false, Some(word)) == Some([word] + FlagWords(cfg, defaultStateDir))
    {
      FlagsSplit(cfg, defaultStateDir, word);
    }
  }
}
