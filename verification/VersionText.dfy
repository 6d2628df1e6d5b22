/**
 Reading a version from what `version --short` prints: the scan the pattern makes, proved to accept
 exactly the texts of its grammar and to take them apart in the only way there is.
 */
module VersionText {
  import opened Text
  import opened Versions

  // ---- Runs of one kind of character ----

  predicate All(s: string, kind: char -> bool) {
    forall i :: 0 <= i < |s| ==> kind(s[i])
  }

  lemma {:induction false} SpanIsRun(s: string, kind: char -> bool)
    ensures All(s[..Span(s, kind)], kind)
    ensures Span(s, kind) < |s| ==> !kind(s[Span(s, kind)])
  {
    if s != "" && kind(s[0]) {
      SpanIsRun(s[1..], kind);
      assert forall i :: 0 < i < Span(s, kind) ==> s[i] == s[1..][..Span(s[1..], kind)][i - 1];
    }
  }

  lemma {:induction false} SpanOfRun(s: string, rest: string, kind: char -> bool)
    requires All(s, kind) && (rest == "" || !kind(rest[0]))
    ensures Span(s + rest, kind) == |s|
  {
    if s == "" {
      assert s + rest == rest;
    } else {
      SpanOfRun(s[1..], rest, kind);
      assert (s + rest)[1..] == s[1..] + rest;
    }
  }

  // ---- The scan ----

  predicate IsIdChar(c: char) {
    IsDigit(c) || 'a' <= c <= 'z' || 'A' <= c <= 'Z' || c == '.' || c == '-'
  }

  datatype Taken = NotTaken | Taken(text: string, rest: string)

  function TakeNumber(s: string): (t: Taken)
    ensures t.Taken? ==> Numeric(t.text) && s == t.text + t.rest
  {
    SpanIsRun(s, IsDigit);
    var n := Span(s, IsDigit);
    if n == 0 then NotTaken else Taken(s[..n], s[n..])
  }

  function TakeDotted(s: string): (t: Taken)
    ensures t.Taken? ==> Numeric(t.text) && s == t.text + "." + t.rest
  {
    var t := TakeNumber(s);
    if t.NotTaken? || t.rest == "" || t.rest[0] != '.' then NotTaken else Taken(t.text, t.rest[1..])
  }

  /** Nothing, or a plus and build metadata. */
  predicate IsBuild(s: string) {
    s == "" || (|s| > 1 && s[0] == '+' && Span(s[1..], IsIdChar) == |s| - 1)
  }

  /** The prerelease text of what follows the numbers, empty if there is none. */
  function TakeSuffix(s: string): Taken {
    if s == "" || s[0] != '-' then (if IsBuild(s) then Taken("", s) else NotTaken)
    else
      var n := Span(s[1..], IsIdChar);
      if n == 0 || !IsBuild(s[1 + n..]) then NotTaken else Taken(s[1..1 + n], s[1 + n..])
  }

  function Unprefixed(s: string): string {
    if s != "" && s[0] == 'v' then s[1..] else s
  }

  /** What `version --short` printed: a version, or something else. */
  datatype Printed = Unplaced | Placed(version: Version)

  function ParseVersion(printed: string): Printed {
    var major := TakeDotted(Unprefixed(Trim(printed)));
    if major.NotTaken? then Unplaced
    else
      var minor := TakeDotted(major.rest);
      if minor.NotTaken? then Unplaced
      else
        var patch := TakeNumber(minor.rest);
        if patch.NotTaken? then Unplaced
        else
          var pre := TakeSuffix(patch.rest);
          if pre.NotTaken? then Unplaced
          else Placed(FromParts(Value(major.text), Value(minor.text), Value(patch.text), pre.text))
  }

  // ---- The grammar ----

  /** The parts of a version's text; an empty prerelease or build is an absent one. */
  datatype Parts = Parts(v: bool, major: string, minor: string, patch: string, pre: string, build: string)

  predicate Wellformed(p: Parts) {
    Numeric(p.major) && Numeric(p.minor) && Numeric(p.patch) && All(p.pre, IsIdChar) && All(p.build, IsIdChar)
  }

  function Tail(mark: char, s: string): string {
    if s == "" then "" else [mark] + s
  }

  function Suffix(pre: string, build: string): string {
    Tail('-', pre) + Tail('+', build)
  }

  function Numbers(p: Parts): string {
    p.major + "." + (p.minor + "." + (p.patch + Suffix(p.pre, p.build)))
  }

  function Write(p: Parts): string {
    if p.v then ['v'] + Numbers(p) else Numbers(p)
  }

  function Meaning(p: Parts): Version
    requires Wellformed(p)
  {
    FromParts(Value(p.major), Value(p.minor), Value(p.patch), p.pre)
  }

  // ---- What is written is read ----

  lemma TakeNumberOf(d: string, rest: string)
    requires Numeric(d) && (rest == "" || !IsDigit(rest[0]))
    ensures TakeNumber(d + rest) == Taken(d, rest)
  {
    SpanOfRun(d, rest, IsDigit);
  }

  lemma TakeDottedOf(d: string, rest: string)
    requires Numeric(d)
    ensures TakeDotted(d + "." + rest) == Taken(d, rest)
  {
    assert d + "." + rest == d + ("." + rest);
    TakeNumberOf(d, "." + rest);
  }

  lemma BuildWritten(build: string)
    requires All(build, IsIdChar)
    ensures IsBuild(Tail('+', build))
  {
    if build != "" {
      SpanOfRun(build, "", IsIdChar);
      assert build + "" == build == Tail('+', build)[1..];
    }
  }

  lemma TakePreOf(pre: string, rest: string)
    requires pre != "" && All(pre, IsIdChar) && IsBuild(rest)
    ensures TakeSuffix(['-'] + pre + rest) == Taken(pre, rest)
  {
    hide All;
    var s := ['-'] + pre + rest;
    assert s[1..] == pre + rest;
    SpanOfRun(pre, rest, IsIdChar);
    assert s[1..1 + |pre|] == pre && s[1 + |pre|..] == rest;
  }

  lemma TakeSuffixOf(pre: string, build: string)
    requires All(pre, IsIdChar) && All(build, IsIdChar)
    ensures TakeSuffix(Suffix(pre, build)) == Taken(pre, Tail('+', build))
  {
    hide IsBuild, All;
    BuildWritten(build);
    if pre == "" {
      assert Suffix(pre, build) == Tail('+', build);
    } else {
      hide TakeSuffix;
      TakePreOf(pre, Tail('+', build));
    }
  }

  lemma ParseNumbers(p: Parts, printed: string)
    requires Wellformed(p) && Unprefixed(Trim(printed)) == Numbers(p)
    ensures ParseVersion(printed) == Placed(Meaning(p))
  {
    hide TakeDotted, TakeNumber, TakeSuffix, FromParts, Trim, Unprefixed;
    var suffix := Suffix(p.pre, p.build);
    TakeDottedOf(p.major, p.minor + "." + (p.patch + suffix));
    TakeDottedOf(p.minor, p.patch + suffix);
    TakeNumberOf(p.patch, suffix);
    TakeSuffixOf(p.pre, p.build);
  }

  /** Every text of the grammar is read as what its parts mean. */
  lemma WrittenIsRead(p: Parts, printed: string)
    requires Wellformed(p) && Trim(printed) == Write(p)
    ensures ParseVersion(printed) == Placed(Meaning(p))
  {
    hide Numbers, ParseVersion, Trim;
    assert Unprefixed(Write(p)) == Numbers(p) by {
      NumbersStart(p);
      assert p.v ==> Write(p)[1..] == Numbers(p);
    }
    ParseNumbers(p, printed);
  }

  lemma NumbersStart(p: Parts)
    requires Wellformed(p)
    ensures Numbers(p) != "" && IsDigit(Numbers(p)[0])
  {
  }

  // ---- What is read was written ----

  lemma BuildTaken(s: string) returns (build: string)
    requires IsBuild(s)
    ensures All(build, IsIdChar) && s == Tail('+', build)
  {
    build := if s == "" then "" else s[1..];
    SpanIsRun(build, IsIdChar);
    assert build[..|build|] == build;
  }

  lemma PreTaken(s: string)
    requires TakeSuffix(s).Taken?
    ensures var t := TakeSuffix(s); All(t.text, IsIdChar) && IsBuild(t.rest) && s == Tail('-', t.text) + t.rest
  {
    hide IsBuild;
    if s != "" && s[0] == '-' {
      var n := Span(s[1..], IsIdChar);
      SpanIsRun(s[1..], IsIdChar);
      assert s[1..1 + n] == s[1..][..n];
    }
  }

  lemma SuffixTaken(s: string) returns (build: string)
    requires TakeSuffix(s).Taken?
    ensures All(TakeSuffix(s).text, IsIdChar) && All(build, IsIdChar)
    ensures s == Suffix(TakeSuffix(s).text, build)
  {
    hide TakeSuffix, IsBuild, All, Tail;
    PreTaken(s);
    build := BuildTaken(TakeSuffix(s).rest);
  }

  lemma PrefixIsV(s: string)
    ensures s == if s != "" && s[0] == 'v' then ['v'] + Unprefixed(s) else Unprefixed(s)
  {
  }

  /** Every text that is read is one of the grammar's, and is read as what its parts mean. */
  lemma ReadWasWritten(printed: string) returns (p: Parts)
    requires ParseVersion(printed).Placed?
    ensures Wellformed(p) && Trim(printed) == Write(p)
    ensures ParseVersion(printed) == Placed(Meaning(p))
  {
    hide TakeDotted, TakeNumber, TakeSuffix, FromParts, Trim, Unprefixed, Suffix, All, Numeric, Value;
    var s := Trim(printed);
    var major := TakeDotted(Unprefixed(s));
    var minor := TakeDotted(major.rest);
    var patch := TakeNumber(minor.rest);
    var build := SuffixTaken(patch.rest);
    p := Parts(s != "" && s[0] == 'v', major.text, minor.text, patch.text, TakeSuffix(patch.rest).text, build);
    PrefixIsV(s);
  }

  ghost predicate InGrammar(text: string) {
    exists p: Parts :: Wellformed(p) && Write(p) == text
  }

  /** A version is read exactly from the texts of the grammar, blanks around them aside. */
  lemma ReadIffInGrammar(printed: string)
    ensures ParseVersion(printed).Placed? <==> InGrammar(Trim(printed))
  {
    hide ParseVersion, Trim, Write, Wellformed;
    if ParseVersion(printed).Placed? {
      var p := ReadWasWritten(printed);
    } else if InGrammar(Trim(printed)) {
      var p :| Wellformed(p) && Write(p) == Trim(printed);
      WrittenIsRead(p, printed);
    }
  }

  // ---- Describe builds and prereleases ----

  predicate DescribeParts(pre: string, commits: string, commit: string, dirty: bool) {
    && Numeric(commits) && commit != "" && All(commit, IsHex)
    && pre == commits + ("-g" + (commit + if dirty then "-dirty" else ""))
  }

  ghost predicate InDescribeForm(pre: string) {
    exists commits, commit, dirty :: DescribeParts(pre, commits, commit, dirty)
  }

  lemma HexTaken(s: string)
    ensures var m := Span(s, IsHex); All(s[..m], IsHex) && s == s[..m] + s[m..]
  {
    hide IsHex, All, Span;
    SpanIsRun(s, IsHex);
  }

  lemma DescribeTaken(pre: string)
    requires IsDescribe(pre)
    ensures InDescribeForm(pre)
  {
    hide IsHex, Span;
    var n := Span(pre, IsDigit);
    var rest := pre[n + 2..];
    var m := Span(rest, IsHex);
    SpanIsRun(pre, IsDigit);
    assert Numeric(pre[..n]);
    HexTaken(rest);
    var end := pre[n + 2 + m..];
    assert rest[m..] == end;
    assert pre == pre[..n] + pre[n..] && pre[n..] == "-g" + rest;
    assert DescribeParts(pre, pre[..n], rest[..m], end == "-dirty");
  }

  lemma DescribeWritten(pre: string, commits: string, commit: string, dirty: bool)
    requires DescribeParts(pre, commits, commit, dirty)
    ensures IsDescribe(pre)
  {
    var end := if dirty then "-dirty" else "";
    SpanOfRun(commits, "-g" + (commit + end), IsDigit);
    assert pre[|commits|..] == "-g" + (commit + end);
    assert pre[|commits| + 2..] == commit + end;
    SpanOfRun(commit, end, IsHex);
    assert pre[|commits| + 2 + |commit|..] == end;
  }

  lemma DescribeIffInForm(pre: string)
    ensures IsDescribe(pre) <==> InDescribeForm(pre)
  {
    hide IsDescribe, DescribeParts;
    if IsDescribe(pre) {
      DescribeTaken(pre);
    } else if commits, commit, dirty :| DescribeParts(pre, commits, commit, dirty) {
      DescribeWritten(pre, commits, commit, dirty);
    }
  }

  function Dotted(ids: seq<string>): string
    requires ids != []
  {
    if |ids| == 1 then ids[0] else ids[0] + "." + Dotted(ids[1..])
  }

  predicate Undotted(ids: seq<string>) {
    forall i :: 0 <= i < |ids| ==> '.' !in ids[i]
  }

  /** Splitting at dots is undone by joining, and leaves no dot. */
  lemma {:induction false} SplitJoins(s: string)
    ensures Undotted(Split(s)) && Dotted(Split(s)) == s
  {
    if s != "" {
      var ids, rest := Split(s), Split(s[1..]);
      SplitJoins(s[1..]);
      if s[0] == '.' {
        assert ids[1..] == rest;
        assert Dotted(ids) == "" + "." + Dotted(rest);
      } else {
        assert ids[1..] == rest[1..] && ids[0] == [s[0]] + rest[0];
        hide Split;
        assert |rest| > 1 ==> [s[0]] + rest[0] + "." + Dotted(rest[1..]) == [s[0]] + (rest[0] + "." + Dotted(rest[1..]));
      }
      assert s == [s[0]] + s[1..];
    }
  }

  lemma {:induction false} SplitFirst(id: string, rest: string)
    requires '.' !in id
    ensures Split(id) == [id]
    ensures Split(id + "." + rest) == [id] + Split(rest)
  {
    if id == "" {
      assert (id + "." + rest)[1..] == rest;
    } else {
      SplitFirst(id[1..], rest);
      assert (id + "." + rest)[1..] == id[1..] + "." + rest;
      assert id == [id[0]] + id[1..];
    }
  }

  /** And joining is undone by splitting. */
  lemma {:induction false} JoinSplits(ids: seq<string>)
    requires ids != [] && Undotted(ids)
    ensures Split(Dotted(ids)) == ids
  {
    if |ids| == 1 {
      SplitFirst(ids[0], "");
    } else {
      SplitFirst(ids[0], Dotted(ids[1..]));
      JoinSplits(ids[1..]);
    }
  }

  /** What the parts after the numbers come to: the numbers as they are; a describe build or a dirty
      tree keeps no prerelease, and any other text keeps its identifiers. */
  lemma SuffixMeans(p: Parts)
    requires Wellformed(p)
    ensures var v := Meaning(p);
      && v.major == Value(p.major) && v.minor == Value(p.minor) && v.patch == Value(p.patch)
      && (v.describe <==> InDescribeForm(p.pre))
      && (v.pre == [] <==> p.pre == "" || p.pre == "dirty" || InDescribeForm(p.pre))
      && (v.pre != [] ==> Undotted(v.pre) && Dotted(v.pre) == p.pre)
  {
    hide IsDescribe, InDescribeForm;
    DescribeIffInForm(p.pre);
    SplitJoins(p.pre);
  }

  // ---- Builds described from a tag ----

  /** The parts of a tag's text with a hyphen and d after it, as `git describe` prints a build. */
  function Described(tag: Parts, d: string): Parts {
    if tag.build != "" then tag.(build := tag.build + "-" + d)
    else if tag.pre != "" then tag.(pre := tag.pre + "-" + d)
    else tag.(pre := d)
  }

  lemma SuffixGrows(tag: Parts, d: string)
    requires d != ""
    ensures Suffix(Described(tag, d).pre, Described(tag, d).build) == Suffix(tag.pre, tag.build) + ("-" + d)
  {
    hide Tail;
    var end, pre, build := "-" + d, Tail('-', tag.pre), Tail('+', tag.build);
    if tag.build != "" {
      assert tag.build + "-" + d == tag.build + end;
      TailGrows('+', tag.build, end);
      assert pre + (build + end) == pre + build + end;
    } else if tag.pre != "" {
      assert tag.pre + "-" + d == tag.pre + end;
      TailGrows('-', tag.pre, end);
      NoTail('+');
      assert pre + end + "" == pre + "" + end;
    } else {
      NoTail('-');
      NoTail('+');
      assert Tail('-', d) == end by { OneTail('-', d); }
      assert end + "" == "" + "" + end;
    }
  }

  lemma NoTail(mark: char)
    ensures Tail(mark, "") == ""
  {
  }

  lemma OneTail(mark: char, s: string)
    requires s != ""
    ensures Tail(mark, s) == [mark] + s
  {
  }

  lemma TailGrows(mark: char, s: string, end: string)
    requires s != ""
    ensures Tail(mark, s + end) == Tail(mark, s) + end
  {
  }

  lemma NumbersGrow(p: Parts, q: Parts, end: string)
    requires p.major == q.major && p.minor == q.minor && p.patch == q.patch
    requires Suffix(q.pre, q.build) == Suffix(p.pre, p.build) + end
    ensures Numbers(q) == Numbers(p) + end
  {
    hide Suffix;
    var patch, minor := p.patch + Suffix(p.pre, p.build), p.minor + ".";
    assert q.patch + Suffix(q.pre, q.build) == patch + end;
    assert minor + (patch + end) == (minor + patch) + end;
    assert p.major + "." + ((minor + patch) + end) == (p.major + "." + (minor + patch)) + end;
  }

  lemma DescribedIsWritten(tag: Parts, d: string)
    requires d != ""
    ensures Write(Described(tag, d)) == Write(tag) + "-" + d
  {
    hide Suffix, Numbers;
    SuffixGrows(tag, d);
    NumbersGrow(tag, Described(tag, d), "-" + d);
    assert ['v'] + (Numbers(tag) + ("-" + d)) == ['v'] + Numbers(tag) + "-" + d;
  }

  lemma DescribedIsWellformed(tag: Parts, d: string)
    requires Wellformed(tag) && IsDescribe(d)
    ensures Wellformed(Described(tag, d)) && '.' !in d && '-' in d
  {
    hide IsDescribe;
    DescribeTaken(d);
    var commits, commit, dirty :| DescribeParts(d, commits, commit, dirty);
    DescribeIsIdText(d, commits, commit, dirty);
    DescribeHasNoDot(d, commits, commit, dirty);
    assert All("-", IsIdChar);
  }

  lemma DescribeHasNoDot(pre: string, commits: string, commit: string, dirty: bool)
    requires DescribeParts(pre, commits, commit, dirty)
    ensures '.' !in pre && '-' in pre
  {
    assert '.' !in commits && '.' !in commit;
    assert pre[|commits|] == '-';
  }

  /** How many hyphens a describe text has, and how it ends. */
  lemma DescribeHyphens(pre: string, commits: string, commit: string, dirty: bool)
    requires DescribeParts(pre, commits, commit, dirty)
    ensures multiset(pre)['-'] == if dirty then 2 else 1
    ensures pre != "" && (pre[|pre| - 1] == 'y' <==> dirty)
  {
    var end := if dirty then "-dirty" else "";
    assert '-' !in commits && '-' !in commit;
    assert multiset("-g")['-'] == 1 && multiset(end)['-'] == if dirty then 1 else 0;
    assert multiset(pre) == multiset(commits) + (multiset("-g") + (multiset(commit) + multiset(end)));
    if dirty {
      assert pre[|pre| - 1] == end[|end| - 1];
    } else {
      assert commit + end == commit;
      assert pre[|pre| - 1] == commit[|commit| - 1];
    }
  }

  /** A describe text after another text and a hyphen is no describe text. */
  lemma DescribeTwiceIsNone(s: string, d: string)
    requires IsDescribe(d)
    ensures !IsDescribe(s + "-" + d)
  {
    hide IsDescribe, DescribeParts;
    var t := s + "-" + d;
    DescribeTaken(d);
    var commits, commit, dirty :| DescribeParts(d, commits, commit, dirty);
    DescribeHyphens(d, commits, commit, dirty);
    assert multiset(t) == multiset(s) + multiset("-") + multiset(d);
    assert t[|t| - 1] == d[|d| - 1];
    if IsDescribe(t) {
      DescribeTaken(t);
      var commits', commit', dirty' :| DescribeParts(t, commits', commit', dirty');
      DescribeHyphens(t, commits', commit', dirty');
      assert false;
    }
  }

  /** Splitting reads one character at a time: a dot begins an identifier, any other extends one. */
  lemma SplitStep(c: char, s: string)
    ensures Split([c] + s) == var rest := Split(s);
      if c == '.' then [""] + rest else [[c] + rest[0]] + rest[1..]
  {
    assert ([c] + s)[1..] == s;
  }

  lemma {:induction false} SplitLonger(s: string, more: string)
    requires '.' !in more
    ensures var ids := Split(s); Split(s + more) == ids[|ids| - 1 := ids[|ids| - 1] + more]
  {
    if s == "" {
      SplitFirst(more, "");
      assert s + more == more && "" + more == more;
    } else {
      hide Split;
      SplitLonger(s[1..], more);
      assert s == [s[0]] + s[1..] && s + more == [s[0]] + (s[1..] + more);
      SplitStep(s[0], s[1..]);
      SplitStep(s[0], s[1..] + more);
      LastGrows(s[0], Split(s[1..]), more);
    }
  }

  lemma LastGrows(c: char, rest: seq<string>, more: string)
    requires rest != []
    ensures var k := |rest| - 1;
      var longer := rest[k := rest[k] + more];
      && [""] + longer == ([""] + rest)[k + 1 := rest[k] + more]
      && var ids := [[c] + rest[0]] + rest[1..];
         [[c] + longer[0]] + longer[1..] == ids[k := ids[k] + more]
  {
    assert [c] + (rest[0] + more) == [c] + rest[0] + more;
  }

  lemma {:induction false} SplitFurther(s: string, id: string)
    requires '.' !in id
    ensures Split(s + "." + id) == Split(s) + [id]
  {
    if s == "" {
      SplitFirst("", id);
      SplitFirst(id, "");
    } else {
      var t := s + "." + id;
      SplitFurther(s[1..], id);
      assert t[0] == s[0] && t[1..] == s[1..] + "." + id;
      assert (Split(s[1..]) + [id])[1..] == Split(s[1..])[1..] + [id];
      assert (s + "." + id)[1..] == s[1..] + "." + id;
    }
  }

  /** A text whose suffix is a prerelease: neither absent, nor dirty, nor a describe build's. */
  predicate IsPrerelease(p: Parts) {
    p.pre != "" && p.pre != "dirty" && !IsDescribe(p.pre)
  }

  lemma DescribedMeans(tag: Parts, d: string)
    requires Wellformed(tag) && IsDescribe(d)
    ensures Wellformed(Described(tag, d))
    ensures tag.build != "" ==> Meaning(Described(tag, d)) == Meaning(tag)
    ensures tag.build == "" && tag.pre == "" ==> Meaning(Described(tag, d)) == Meaning(tag).(describe := true)
    ensures tag.build == "" && tag.pre != "" ==>
      Meaning(Described(tag, d)) == Meaning(tag).(describe := false, pre := Split(tag.pre + "-" + d))
  {
    hide IsDescribe, Split, Value;
    DescribedIsWellformed(tag, d);
    DescribeTwiceIsNone(tag.pre, d);
    EmptyIsNoDescribe();
    if tag.pre != "" {
      assert '-' in tag.pre + "-" + d && '-' !in "dirty";
    }
  }

  /** A build reads above its tag exactly when the tag has no build metadata and is a release or a
      prerelease: not dirty and not a describe text itself. */
  lemma BuildIsAboveTagIff(tag: Parts, d: string)
    requires Wellformed(tag) && IsDescribe(d)
    ensures Wellformed(Described(tag, d))
    ensures Compare(Meaning(tag), Meaning(Described(tag, d))) < 0 <==>
      tag.build == "" && (tag.pre == "" || IsPrerelease(tag))
  {
    hide IsDescribe, Split, Numeric, Value, PreBelow, ComparePre, Compare;
    DescribedMeans(tag, d);
    EmptyIsNoDescribe();
    CompareIsPrecedence(Meaning(tag), Meaning(Described(tag, d)));
    if IsPrerelease(tag) {
      DescribedIds(tag.pre, d);
    }
  }

  /** The identifiers of a prerelease tag, of its build, and of the tag with a further identifier. */
  lemma DescribedIds(pre: string, d: string)
    requires IsDescribe(d)
    ensures Split(pre + ".0") == Split(pre) + ["0"]
    ensures PreBelow(Split(pre), Split(pre + "-" + d))
    ensures PreBelow(Split(pre) + ["0"], Split(pre + "-" + d))
  {
    hide IsDescribe, Split, PreBelow;
    var more := "-" + d;
    var p := Parts(false, "0", "0", "0", "", "");
    DescribedIsWellformed(p, d);
    assert more[0] == '-';
    assert !Numeric(more) && '.' !in more;
    SplitLonger(pre, more);
    assert pre + "-" + d == pre + more;
    LongerIdIsAbove(Split(pre), more);
    SplitFurther(pre, "0");
    assert pre + "." + "0" == pre + ".0";
  }

  /** Some text that can be read lies strictly between the two versions. */
  ghost predicate ReadableBetween(a: Version, b: Version) {
    exists other: string :: Between(a, b, other)
  }

  predicate Between(a: Version, b: Version, other: string) {
    var v := ParseVersion(other);
    v.Placed? && Compare(a, v.version) < 0 && Compare(v.version, b) < 0
  }

  lemma NoneBetweenReleaseAndBuild(tag: Parts, d: string)
    requires Wellformed(tag) && IsDescribe(d) && tag.build == "" && tag.pre == ""
    ensures Wellformed(Described(tag, d))
    ensures !ReadableBetween(Meaning(tag), Meaning(Described(tag, d)))
  {
    hide IsDescribe, ParseVersion, Compare, FromParts, Wellformed;
    DescribedMeans(tag, d);
    EmptyIsNoDescribe();
    forall other: string
      ensures !Between(Meaning(tag), Meaning(Described(tag, d)), other)
    {
      if ParseVersion(other).Placed? {
        var p := ReadWasWritten(other);
        DescribeIsJustAfterTag(Meaning(tag), Meaning(p));
      }
    }
  }

  /** The tag with a further identifier 0 reads between a prerelease tag and a build of it. */
  lemma FurtherIdIsBetween(tag: Parts, d: string)
    requires Wellformed(tag) && IsDescribe(d) && tag.build == "" && IsPrerelease(tag)
    ensures Wellformed(Described(tag, d))
    ensures Between(Meaning(tag), Meaning(Described(tag, d)), Write(tag.(pre := tag.pre + ".0")))
  {
    hide IsDescribe, ParseVersion, Compare, ComparePre, Split, PreBelow, Value, Write, Trim;
    var more := tag.(pre := tag.pre + ".0");
    DescribedMeans(tag, d);
    DescribedIds(tag.pre, d);
    FurtherIdIsAbove(Split(tag.pre), "0");
    FurtherIsRead(tag);
    CompareIsPrecedence(Meaning(tag), Meaning(more));
    CompareIsPrecedence(Meaning(more), Meaning(Described(tag, d)));
  }

  lemma FurtherIsRead(tag: Parts)
    requires Wellformed(tag)
    ensures var more := tag.(pre := tag.pre + ".0");
      && Wellformed(more)
      && ParseVersion(Write(more)) == Placed(Meaning(more))
      && Meaning(more) == Meaning(tag).(describe := false, pre := Split(tag.pre + ".0"))
  {
    hide IsDescribe, ParseVersion, Split, Value, Write, Trim, DescribeParts;
    var pre := tag.pre + ".0";
    var more := tag.(pre := pre);
    assert All(".0", IsIdChar);
    assert pre[|tag.pre|] == '.';
    assert '.' in pre && '.' !in "dirty";
    if IsDescribe(pre) {
      DescribeTaken(pre);
      var commits, commit, dirty :| DescribeParts(pre, commits, commit, dirty);
      DescribeHasNoDot(pre, commits, commit, dirty);
      assert false;
    }
    WriteIsTrimmed(more);
    WrittenIsRead(more, Write(more));
  }

  lemma BothAreRead(tag: Parts, d: string)
    requires Wellformed(tag) && IsDescribe(d)
    ensures Wellformed(Described(tag, d))
    ensures ParseVersion(Write(tag)) == Placed(Meaning(tag))
    ensures ParseVersion(Write(tag) + "-" + d) == Placed(Meaning(Described(tag, d)))
  {
    hide ParseVersion, Write, Trim, FromParts, Described, All;
    DescribedIsWellformed(tag, d);
    assert d != "" by { EmptyIsNoDescribe(); }
    DescribedIsWritten(tag, d);
    WriteIsTrimmed(tag);
    WriteIsTrimmed(Described(tag, d));
    WrittenIsRead(tag, Write(tag));
    WrittenIsRead(Described(tag, d), Write(Described(tag, d)));
  }

  /** From text to order, for every tag text and every describe text d after it: both are read; the
      build reads above its tag exactly for a tag without build metadata that is a release or a
      prerelease, and just above it, with no version that can be read between, exactly for a
      release. */
  lemma BuildReadsJustAfterTagIff(tag: Parts, d: string)
    requires Wellformed(tag) && IsDescribe(d)
    ensures var a, b := ParseVersion(Write(tag)), ParseVersion(Write(tag) + "-" + d);
      && a.Placed? && b.Placed?
      && (Compare(a.version, b.version) < 0 <==> tag.build == "" && (tag.pre == "" || IsPrerelease(tag)))
      && (Compare(a.version, b.version) < 0 && !ReadableBetween(a.version, b.version) <==>
            tag.build == "" && tag.pre == "")
  {
    hide IsDescribe, ParseVersion, Write, Wellformed, Compare, FromParts, Between, Described;
    BothAreRead(tag, d);
    BuildIsAboveTagIff(tag, d);
    if tag.build == "" && tag.pre == "" {
      NoneBetweenReleaseAndBuild(tag, d);
    } else if tag.build == "" && IsPrerelease(tag) {
      FurtherIdIsBetween(tag, d);
    }
  }

  /** Identifiers with a number last are a prerelease. */
  lemma NumberedIsPrerelease(stem: seq<string>, number: string)
    requires Numeric(number)
    ensures var pre := Dotted(stem + [number]); pre != "" && pre != "dirty" && !IsDescribe(pre)
  {
    hide IsDescribe, DescribeParts;
    var ids := stem + [number];
    var pre := Dotted(ids);
    if stem == [] {
      assert pre == number && '-' !in number && IsDigit(number[0]);
    } else {
      assert pre == ids[0] + "." + Dotted(ids[1..]);
      assert pre[|ids[0]|] == '.';
      assert '.' in pre && '.' !in "dirty";
    }
    if IsDescribe(pre) {
      DescribeTaken(pre);
      var commits, commit, dirty :| DescribeParts(pre, commits, commit, dirty);
      DescribeHasNoDot(pre, commits, commit, dirty);
      assert false;
    }
  }

  lemma NumberedMeans(p: Parts, stem: seq<string>, number: string)
    requires Wellformed(p) && Undotted(stem) && Numeric(number) && p.pre == Dotted(stem + [number])
    ensures IsPrerelease(p) && Split(p.pre) == stem + [number] && Meaning(p).pre == stem + [number]
  {
    hide IsDescribe, Split, Dotted, Value;
    NumberedIsPrerelease(stem, number);
    assert '.' !in number;
    JoinSplits(stem + [number]);
  }

  /** A build of a prerelease tag with a number last reads above every prerelease with the same
      numbers and identifiers but another number in that place, later ones included. */
  lemma BuildOvertakesPrereleases(tag: Parts, stem: seq<string>, number: string, later: string, d: string)
    requires Wellformed(tag) && tag.build == "" && IsDescribe(d) && Undotted(stem)
    requires Numeric(number) && Numeric(later) && tag.pre == Dotted(stem + [number])
    requires Wellformed(tag.(pre := Dotted(stem + [later])))
    ensures var a, b := ParseVersion(Write(tag.(pre := Dotted(stem + [later])))), ParseVersion(Write(tag) + "-" + d);
      a.Placed? && b.Placed? && Compare(a.version, b.version) < 0
  {
    hide IsDescribe, Split, PreBelow, ComparePre, Compare, Value, Dotted, ParseVersion, Write;
    var next := tag.(pre := Dotted(stem + [later]));
    NumberedMeans(tag, stem, number);
    NumberedMeans(next, stem, later);
    BothAreRead(next, d);
    BothAreRead(tag, d);
    DescribedMeans(tag, d);
    DescribedIsWellformed(tag, d);
    var more := "-" + d;
    assert tag.pre + "-" + d == tag.pre + more;
    SplitLonger(tag.pre, more);
    assert (stem + [number])[|stem| := number + more] == stem + [number + more];
    assert (number + more)[|number|] == '-';
    NumberIsBelowText(stem, later, number + more);
    CompareIsPrecedence(Meaning(next), Meaning(Described(tag, d)));
  }

  /** The build of v0.2.0-rc.1 five commits on reads above v0.2.0-rc.2, and v0.2.0-rc.1.0 between
      the tag and its build. */
  lemma BuildOfRc1IsAboveRc2()
    ensures var rc1, between, rc2, build := ParseVersion("v0.2.0-rc.1"), ParseVersion("v0.2.0-rc.1.0"),
        ParseVersion("v0.2.0-rc.2"), ParseVersion("v0.2.0-rc.1-5-gabc1234");
      && rc1.Placed? && between.Placed? && rc2.Placed? && build.Placed?
      && Compare(rc2.version, build.version) < 0
      && Compare(rc1.version, between.version) < 0 && Compare(between.version, build.version) < 0
  {
    hide ParseVersion, Compare, IsDescribe, Meaning, Split, Write, Dotted, Wellformed, Numeric, Undotted;
    var d := "5-gabc1234";
    RcTexts();
    RcParts();
    RcIds();
    RcDescribe();
    BuildOvertakesPrereleases(RC1, ["rc"], "1", "2", d);
    BothAreRead(RC1, d);
    NumberedMeans(RC1, ["rc"], "1");
    FurtherIsRead(RC1);
    FurtherIdIsBetween(RC1, d);
  }

  const RC1 := Parts(true, "0", "2", "0", "rc.1", "")

  lemma RcText(pre: string)
    requires pre != ""
    ensures Write(RC1.(pre := pre)) == "v0.2.0-" + pre
  {
    var end := ['-'] + pre;
    assert Suffix(pre, "") == end;
    hide Suffix;
    assert "0" + end == "0-" + pre;
    assert "2" + "." + ("0-" + pre) == "2.0-" + pre;
    assert "0" + "." + ("2.0-" + pre) == "0.2.0-" + pre;
    assert ['v'] + ("0.2.0-" + pre) == "v0.2.0-" + pre;
  }

  lemma RcTexts()
    ensures Write(RC1) == "v0.2.0-rc.1" && Write(RC1) + "-" + "5-gabc1234" == "v0.2.0-rc.1-5-gabc1234"
    ensures Write(RC1.(pre := "rc.2")) == "v0.2.0-rc.2"
    ensures RC1.pre + ".0" == "rc.1.0" && Write(RC1.(pre := "rc.1.0")) == "v0.2.0-rc.1.0"
  {
    hide Write;
    RcText("rc.1");
    RcText("rc.2");
    RcText("rc.1.0");
  }

  lemma RcParts()
    ensures Wellformed(RC1) && Wellformed(RC1.(pre := "rc.2"))
  {
  }

  lemma RcDescribe()
    ensures IsDescribe("5-gabc1234")
  {
    hide IsDescribe;
    assert "5-gabc1234" == "5" + ("-g" + ("abc1234" + ""));
    DescribeWritten("5-gabc1234", "5", "abc1234", false);
  }

  lemma TwoDotted(a: string, b: string)
    ensures Dotted([a] + [b]) == a + "." + b
  {
    assert ([a] + [b])[1..] == [b];
  }

  lemma RcIds()
    ensures Undotted(["rc"]) && Numeric("1") && Numeric("2")
    ensures Dotted(["rc"] + ["1"]) == "rc.1" && Dotted(["rc"] + ["2"]) == "rc.2"
  {
    hide Dotted;
    TwoDotted("rc", "1");
    TwoDotted("rc", "2");
  }

  /** Why the order needs versions without leading zeros: the texts 1.0.0-01 and 1.0.0-1 are read as
      versions that are each above the other. */
  lemma LeadingZeroIsAboveBothWays()
    ensures var a, b := ParseVersion("1.0.0-01"), ParseVersion("1.0.0-1");
      a.Placed? && b.Placed? && Compare(a.version, b.version) == 1 && Compare(b.version, a.version) == 1
  {
    hide ParseVersion, IsDescribe, Split;
    var p, q := Parts(false, "1", "0", "0", "01", ""), Parts(false, "1", "0", "0", "1", "");
    assert Write(p) == "1.0.0-01" && Write(q) == "1.0.0-1";
    WriteIsTrimmed(p);
    WriteIsTrimmed(q);
    WrittenIsRead(p, Write(p));
    WrittenIsRead(q, Write(q));
    assert [] + ["01"] == ["01"] && [] + ["1"] == ["1"];
    NumberedMeans(p, [], "01");
    NumberedMeans(q, [], "1");
    assert "01"[..1] == "0" && "0"[..0] == "" && "1"[..0] == "";
    assert Value("0") == 0 && Value("1") == 1;
    assert Value("01") == 1;
  }

  lemma EmptyIsNoDescribe()
    ensures !IsDescribe("")
  {
  }

  lemma DescribeIsIdText(pre: string, commits: string, commit: string, dirty: bool)
    requires DescribeParts(pre, commits, commit, dirty)
    ensures All(pre, IsIdChar)
  {
    var end := if dirty then "-dirty" else "";
    assert All("-g", IsIdChar) && All(end, IsIdChar);
  }

  predicate EndsSolid(s: string) {
    s != "" && !Blank(s[|s| - 1])
  }

  lemma LastPartDecides(a: string, b: string)
    requires b == "" || EndsSolid(b)
    requires b == "" ==> EndsSolid(a)
    ensures EndsSolid(a + b)
  {
    assert b == "" ==> a + b == a;
  }

  lemma IdTextEndsSolid(s: string)
    requires s != "" && All(s, IsIdChar)
    ensures EndsSolid(s)
  {
    assert IsIdChar(s[|s| - 1]);
  }

  lemma TailEndsSolid(mark: char, s: string)
    requires All(s, IsIdChar)
    ensures Tail(mark, s) == "" || EndsSolid(Tail(mark, s))
  {
    if s != "" {
      IdTextEndsSolid(s);
      LastPartDecides([mark], s);
    }
  }

  lemma NumbersEndSolid(p: Parts)
    requires Wellformed(p)
    ensures EndsSolid(Numbers(p))
  {
    hide EndsSolid, Tail, IsIdChar, Blank;
    TailEndsSolid('-', p.pre);
    TailEndsSolid('+', p.build);
    var s := Suffix(p.pre, p.build);
    if Tail('-', p.pre) == "" && Tail('+', p.build) == "" {
      assert s == "";
    } else {
      LastPartDecides(Tail('-', p.pre), Tail('+', p.build));
    }
    NumericEndsSolid(p.patch);
    LastPartDecides(p.patch, s);
    LastPartDecides(p.minor + ".", p.patch + s);
    LastPartDecides(p.major + ".", p.minor + "." + (p.patch + s));
  }

  lemma NumericEndsSolid(x: string)
    requires Numeric(x)
    ensures EndsSolid(x)
  {
    assert IsDigit(x[|x| - 1]);
  }

  lemma WriteIsTrimmed(p: Parts)
    requires Wellformed(p)
    ensures Trim(Write(p)) == Write(p)
  {
    hide Trim, Numbers, Wellformed;
    NumbersStart(p);
    NumbersEndSolid(p);
    LastPartDecides(['v'], Numbers(p));
    SolidIsTrimmed(Write(p));
  }
}
