/**
 The setup action's version order: semantic versions, with a `git describe` build just after the
 tag it describes, and the CLI features decided by it.
 */
module Versions {
  import opened ByteOrder
  import opened Text

  datatype Version = Version(major: nat, minor: nat, patch: nat, pre: seq<string>, describe: bool)

  // ---- The suffix of a version ----

  /** Where a run of characters of one kind ends. */
  function Span(s: string, kind: char -> bool): (n: nat)
    ensures n <= |s|
  {
    if s == "" || !kind(s[0]) then 0 else 1 + Span(s[1..], kind)
  }

  predicate IsHex(c: char) { '0' <= c <= '9' || 'a' <= c <= 'f' }

  /** `git describe` of a build: commits since the tag, -g, the commit, maybe -dirty. */
  predicate IsDescribe(pre: string) {
    var n := Span(pre, IsDigit);
    && n > 0 && "-g" <= pre[n..]
    && var m := Span(pre[n + 2..], IsHex);
       m > 0 && (pre[n + 2 + m..] == "" || pre[n + 2 + m..] == "-dirty")
  }

  function Split(s: string): (ids: seq<string>)
    ensures ids != []
  {
    if s == "" then [""]
    else
      var rest := Split(s[1..]);
      if s[0] == '.' then [""] + rest else [[s[0]] + rest[0]] + rest[1..]
  }

  /** A version from its numbers and the text after its first hyphen, if any. */
  function FromParts(major: nat, minor: nat, patch: nat, pre: string): (v: Version)
    ensures Read(v)
    ensures v.describe <==> IsDescribe(pre)
    ensures v.pre == [] <==> pre == "" || pre == "dirty" || IsDescribe(pre)
  {
    if IsDescribe(pre) then Version(major, minor, patch, [], true)
    else if pre == "dirty" || pre == "" then Version(major, minor, patch, [], false)
    else Version(major, minor, patch, Split(pre), false)
  }

  /** A version as read: a describe build keeps no prerelease. */
  predicate Read(v: Version) {
    v.describe ==> v.pre == []
  }

  // ---- The comparison as it runs ----

  function CompareIds(x: string, y: string): int {
    if x == y then 0
    else if Numeric(x) && Numeric(y) then (if Value(x) < Value(y) then -1 else 1)
    else if Numeric(x) != Numeric(y) then (if Numeric(x) then -1 else 1)
    else if Less(x, y) then -1 else 1
  }

  function ComparePre(a: seq<string>, b: seq<string>): int {
    if a == [] && b == [] then 0
    else if a == [] then -1
    else if b == [] then 1
    else if CompareIds(a[0], b[0]) != 0 then CompareIds(a[0], b[0])
    else ComparePre(a[1..], b[1..])
  }

  function CompareNat(a: nat, b: nat): int {
    if a < b then -1 else if a > b then 1 else 0
  }

  function Compare(a: Version, b: Version): int {
    if a.major != b.major then CompareNat(a.major, b.major)
    else if a.minor != b.minor then CompareNat(a.minor, b.minor)
    else if a.patch != b.patch then CompareNat(a.patch, b.patch)
    else if a.pre == [] || b.pre == [] then
      (if a.pre != b.pre then (if a.pre == [] then 1 else -1)
       else (if a.describe then 1 else 0) - (if b.describe then 1 else 0))
    else ComparePre(a.pre, b.pre)
  }

  method CompareVersions(a: Version, b: Version) returns (r: int)
    ensures r == Compare(a, b)
  {
    if a.major != b.major {
      return if a.major < b.major then -1 else 1;
    }
    if a.minor != b.minor {
      return if a.minor < b.minor then -1 else 1;
    }
    if a.patch != b.patch {
      return if a.patch < b.patch then -1 else 1;
    }
    if |a.pre| == 0 || |b.pre| == 0 {
      if |a.pre| != |b.pre| {
        return if |a.pre| == 0 then 1 else -1;
      }
      return (if a.describe then 1 else 0) - (if b.describe then 1 else 0);
    }
    r := ComparePrereleases(a.pre, b.pre);
  }

  method ComparePrereleases(a: seq<string>, b: seq<string>) returns (r: int)
    ensures r == ComparePre(a, b)
  {
    var i := 0;
    while i < |a| || i < |b|
      invariant 0 <= i <= |a| && i <= |b|
      invariant ComparePre(a, b) == ComparePre(a[i..], b[i..])
      decreases |a| - i
    {
      if i >= |a| {
        return -1;
      }
      if i >= |b| {
        return 1;
      }
      var x, y := a[i], b[i];
      assert a[i..][1..] == a[i + 1..] && b[i..][1..] == b[i + 1..];
      i := i + 1;
      if x == y {
        continue;
      }
      if Numeric(x) && Numeric(y) {
        return if Value(x) < Value(y) then -1 else 1;
      }
      if Numeric(x) != Numeric(y) {
        return if Numeric(x) then -1 else 1;
      }
      return if Less(x, y) then -1 else 1;
    }
    return 0;
  }

  // ---- Section 11 of Semantic Versioning 2.0.0 ----

  /** Numeric identifiers by value, others in ASCII order, numeric below the others. */
  predicate IdBelow(x: string, y: string) {
    if Numeric(x) && Numeric(y) then Value(x) < Value(y)
    else if Numeric(x) || Numeric(y) then Numeric(x)
    else Less(x, y)
  }

  /** a and b agree up to k, and there a is below: by its identifier, or by having no more. */
  predicate DiffersAt(a: seq<string>, b: seq<string>, k: nat) {
    && k <= |a| && k < |b| && a[..k] == b[..k]
    && (k == |a| || IdBelow(a[k], b[k]))
  }

  predicate PreBelow(a: seq<string>, b: seq<string>) {
    exists k: nat :: k <= |a| && DiffersAt(a, b, k)
  }

  predicate SameNumbers(a: Version, b: Version) {
    a.major == b.major && a.minor == b.minor && a.patch == b.patch
  }

  predicate NumbersBelow(a: Version, b: Version) {
    || a.major < b.major
    || (a.major == b.major && a.minor < b.minor)
    || (a.major == b.major && a.minor == b.minor && a.patch < b.patch)
  }

  /** Precedence: the numbers, a prerelease below its release, then the identifiers from the left;
      a describe build above the tag it describes. */
  predicate Below(a: Version, b: Version) {
    || NumbersBelow(a, b)
    || (SameNumbers(a, b) &&
        if a.pre == [] && b.pre == [] then !a.describe && b.describe
        else if a.pre == [] || b.pre == [] then b.pre == []
        else PreBelow(a.pre, b.pre))
  }

  lemma CompareIdsMeans(x: string, y: string)
    ensures CompareIds(x, y) == -1 <==> IdBelow(x, y)
    ensures CompareIds(x, y) == 0 <==> x == y
  {
    LessIrreflexive(x);
  }

  lemma {:induction false} ComparePreMeans(a: seq<string>, b: seq<string>)
    ensures ComparePre(a, b) == -1 <==> PreBelow(a, b)
    ensures ComparePre(a, b) == 0 <==> a == b
    ensures -1 <= ComparePre(a, b) <= 1
  {
    if a == [] || b == [] {
      if a == [] && b != [] {
        assert DiffersAt(a, b, 0);
      }
    } else {
      CompareIdsMeans(a[0], b[0]);
      ComparePreMeans(a[1..], b[1..]);
      if a[0] == b[0] {
        assert a == b <==> a[1..] == b[1..] by {
          assert a == [a[0]] + a[1..] && b == [b[0]] + b[1..];
        }
        PreBelowTail(a, b);
      } else {
        PreBelowHead(a, b);
      }
    }
  }

  lemma Tails(a: seq<string>, k: nat)
    requires k < |a|
    ensures a[1..][..k] == a[..k + 1][1..] && a[..k + 1] == [a[0]] + a[1..][..k]
  {
  }

  lemma PreBelowTail(a: seq<string>, b: seq<string>)
    requires a != [] && b != [] && a[0] == b[0]
    ensures PreBelow(a, b) <==> PreBelow(a[1..], b[1..])
  {
    hide IdBelow, CompareIds;
    CompareIdsMeans(a[0], b[0]);
    if k: nat :| k <= |a| && DiffersAt(a, b, k) {
      assert k > 0;
      Tails(a, k - 1);
      Tails(b, k - 1);
      assert DiffersAt(a[1..], b[1..], k - 1);
    }
    if k: nat :| k <= |a[1..]| && DiffersAt(a[1..], b[1..], k) {
      Tails(a, k);
      Tails(b, k);
      assert DiffersAt(a, b, k + 1);
    }
  }

  lemma HeadsAgree(a: seq<string>, b: seq<string>, k: nat)
    requires a != [] && b != [] && k <= |a| && k <= |b| && a[..k] == b[..k]
    ensures k > 0 ==> a[0] == b[0]
  {
    if k > 0 {
      assert a[0] == a[..k][0] && b[0] == b[..k][0];
    }
  }

  lemma PreBelowHead(a: seq<string>, b: seq<string>)
    requires a != [] && b != [] && a[0] != b[0]
    ensures PreBelow(a, b) <==> IdBelow(a[0], b[0])
  {
    if IdBelow(a[0], b[0]) {
      assert DiffersAt(a, b, 0);
    }
    if k: nat :| k <= |a| && DiffersAt(a, b, k) {
      HeadsAgree(a, b, k);
    }
  }

  /** The comparison is section 11's precedence: negative exactly when below, zero exactly when the
      versions are the same. */
  lemma CompareIsPrecedence(a: Version, b: Version)
    requires Read(a) && Read(b)
    ensures Compare(a, b) < 0 <==> Below(a, b)
    ensures Compare(a, b) == 0 <==> a == b
    ensures -1 <= Compare(a, b) <= 1
  {
    ComparePreMeans(a.pre, b.pre);
  }

  // ---- The order ----

  lemma IdBelowTransitive(x: string, y: string, z: string)
    requires IdBelow(x, y) && IdBelow(y, z)
    ensures IdBelow(x, z)
  {
    if !Numeric(x) {
      LessTransitive(x, y, z);
    }
  }

  lemma PreBelowTransitive(a: seq<string>, b: seq<string>, c: seq<string>)
    requires PreBelow(a, b) && PreBelow(b, c)
    ensures PreBelow(a, c)
  {
    var j: nat :| j <= |a| && DiffersAt(a, b, j);
    var k: nat :| k <= |b| && DiffersAt(b, c, k);
    var m := if j < k then j else k;
    assert a[..m] == a[..j][..m] && b[..m] == b[..j][..m] == b[..k][..m] && c[..m] == c[..k][..m];
    if j < k {
      assert b[j] == b[..k][j] == c[..k][j] == c[j];
    } else if k < j {
      assert a[k] == a[..j][k] == b[..j][k] == b[k];
    } else if j < |a| && j < |b| {
      IdBelowTransitive(a[j], b[j], c[j]);
    }
    assert DiffersAt(a, c, m);
  }

  lemma BelowTransitive(a: Version, b: Version, c: Version)
    requires Below(a, b) && Below(b, c)
    ensures Below(a, c)
  {
    if a.pre != [] && b.pre != [] && c.pre != [] && SameNumbers(a, b) && SameNumbers(b, c) {
      PreBelowTransitive(a.pre, b.pre, c.pre);
    }
  }

  /** At most is transitive, on every three versions read. */
  lemma AtMostTransitive(a: Version, b: Version, c: Version)
    requires Read(a) && Read(b) && Read(c)
    requires Compare(a, b) <= 0 && Compare(b, c) <= 0
    ensures Compare(a, c) <= 0
    ensures Compare(a, b) < 0 || Compare(b, c) < 0 ==> Compare(a, c) < 0
  {
    CompareIsPrecedence(a, b);
    CompareIsPrecedence(b, c);
    CompareIsPrecedence(a, c);
    if Below(a, b) && Below(b, c) {
      BelowTransitive(a, b, c);
    }
  }

  /** Two numeric identifiers, different as text and equal as numbers, where a and b first differ. */
  predicate ClashAt(a: seq<string>, b: seq<string>, k: nat) {
    && k < |a| && k < |b| && a[..k] == b[..k]
    && a[k] != b[k] && Numeric(a[k]) && Numeric(b[k]) && Value(a[k]) == Value(b[k])
  }

  predicate Clash(a: seq<string>, b: seq<string>) {
    exists k: nat :: k < |a| && ClashAt(a, b, k)
  }

  lemma {:induction false} ComparePreMirrors(a: seq<string>, b: seq<string>)
    ensures ComparePre(a, b) == -ComparePre(b, a) <==> !Clash(a, b)
  {
    if a != [] && b != [] {
      CompareIdsMeans(a[0], b[0]);
      if a[0] == b[0] {
        ComparePreMirrors(a[1..], b[1..]);
        ClashTail(a, b);
      } else {
        ClashHead(a, b);
        LessTotal(a[0], b[0]);
        if Less(a[0], b[0]) {
          LessAsymmetric(a[0], b[0]);
        }
      }
    }
  }

  lemma ClashTail(a: seq<string>, b: seq<string>)
    requires a != [] && b != [] && a[0] == b[0]
    ensures Clash(a, b) <==> Clash(a[1..], b[1..])
  {
    if k: nat :| k < |a| && ClashAt(a, b, k) {
      Tails(a, k - 1);
      Tails(b, k - 1);
      assert ClashAt(a[1..], b[1..], k - 1);
    }
    if k: nat :| k < |a[1..]| && ClashAt(a[1..], b[1..], k) {
      Tails(a, k);
      Tails(b, k);
      assert ClashAt(a, b, k + 1);
    }
  }

  lemma ClashHead(a: seq<string>, b: seq<string>)
    requires a != [] && b != [] && a[0] != b[0]
    ensures Clash(a, b) <==> ClashAt(a, b, 0)
  {
    if k: nat :| k < |a| && ClashAt(a, b, k) {
      HeadsAgree(a, b, k);
    }
  }

  /** Swapping the arguments turns the sign, except exactly where a leading zero makes two numeric
      identifiers equal as numbers and different as text. */
  lemma CompareMirrorsIff(a: Version, b: Version)
    requires Read(a) && Read(b)
    ensures Compare(a, b) == -Compare(b, a) <==> !(SameNumbers(a, b) && Clash(a.pre, b.pre))
  {
    ComparePreMirrors(a.pre, b.pre);
  }

  /** No numeric identifier has a leading zero, as Semantic Versioning demands. */
  predicate Plain(v: Version) {
    forall i :: 0 <= i < |v.pre| ==> Canonical(v.pre[i])
  }

  /** On versions without leading zeros the order is total: exactly one of below, same, above. */
  lemma PlainVersionsAreOrdered(a: Version, b: Version)
    requires Read(a) && Read(b) && Plain(a) && Plain(b)
    ensures Compare(a, b) == -Compare(b, a)
  {
    CompareMirrorsIff(a, b);
    if Clash(a.pre, b.pre) {
      var k: nat :| k < |a.pre| && ClashAt(a.pre, b.pre, k);
      CanonicalValue(a.pre[k], b.pre[k]);
    }
  }

  // ---- Builds between tags ----

  /** A describe build comes just after its tag: nothing read lies strictly between, and everything
      of the next patch, its prereleases included, is above it. */
  lemma DescribeIsJustAfterTag(tag: Version, v: Version)
    requires tag.pre == [] && !tag.describe && Read(v)
    ensures var build := tag.(describe := true);
      && Compare(tag, build) < 0
      && !(Compare(tag, v) < 0 && Compare(v, build) < 0)
      && (NumbersBelow(tag, v) ==> Compare(build, v) < 0)
      && (NumbersBelow(v, tag) ==> Compare(v, build) < 0)
  {
    var build := tag.(describe := true);
    CompareIsPrecedence(tag, build);
    CompareIsPrecedence(tag, v);
    CompareIsPrecedence(v, build);
    CompareIsPrecedence(build, v);
  }

  /** Lengthening the last identifier by a text that is no number puts a prerelease above itself, and
      above itself with a further identifier. */
  lemma LongerIdIsAbove(ids: seq<string>, more: string)
    requires ids != [] && more != "" && !Numeric(more)
    ensures var k := |ids| - 1;
      PreBelow(ids, ids[k := ids[k] + more]) && PreBelow(ids + ["0"], ids[k := ids[k] + more])
  {
    var k := |ids| - 1;
    var longer := ids[k] + more;
    PrefixIsLess(ids[k], more);
    if Numeric(longer) {
      assert forall i :: 0 <= i < |more| ==> more[i] == longer[|ids[k]| + i];
    }
    assert IdBelow(ids[k], longer);
    var a, b, c := ids, ids + ["0"], ids[k := longer];
    assert a[..k] == b[..k] == c[..k];
    assert DiffersAt(a, c, k) && DiffersAt(b, c, k);
  }

  /** A further identifier puts a prerelease above itself. */
  lemma FurtherIdIsAbove(ids: seq<string>, id: string)
    ensures PreBelow(ids, ids + [id])
  {
    assert ids[..|ids|] == (ids + [id])[..|ids|];
    assert DiffersAt(ids, ids + [id], |ids|);
  }

  /** Where two prereleases first differ, a number is below what is no number. */
  lemma NumberIsBelowText(stem: seq<string>, number: string, text: string)
    requires Numeric(number) && !Numeric(text)
    ensures PreBelow(stem + [number], stem + [text])
  {
    var a, b := stem + [number], stem + [text];
    assert a[..|stem|] == stem == b[..|stem|];
    assert DiffersAt(a, b, |stem|);
  }
}
