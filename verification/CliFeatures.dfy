/**
 Which features the setup action takes the installed CLI to have, from what it prints as its
 version.
 */
module CliFeatures {
  import opened Text
  import opened Versions
  import opened VersionText

  datatype Support = Refused | Supports(trust: bool, portBase: bool)

  const MIN_CLI := "v0.1.0"
  const TRUST_AFTER := "v0.1.0"
  const PORT_BASE_AFTER := "v0.1.0"

  /** Strictly later than the version of a text. */
  predicate After(v: Version, tag: string) {
    var t := ParseVersion(tag);
    t.Placed? && Compare(v, t.version) > 0
  }

  predicate Earlier(v: Version, tag: string) {
    var t := ParseVersion(tag);
    t.Placed? && Compare(v, t.version) < 0
  }

  /** Built from the action's own checkout, or not a version: every feature. Else by the order. */
  function CliSupport(source: bool, printed: string): Support {
    if source then Supports(true, true)
    else match ParseVersion(Trim(printed))
      case Unplaced => Supports(true, true)
      case Placed(v) =>
        if Earlier(v, MIN_CLI) then Refused
        else Supports(After(v, TRUST_AFTER), After(v, PORT_BASE_AFTER))
  }

  const FIRST := Version(0, 1, 0, [], false)
  const FIRST_TAG := Parts(true, "0", "1", "0", "", "")

  lemma FirstText()
    ensures Wellformed(FIRST_TAG) && Write(FIRST_TAG) == "v0.1.0" && Meaning(FIRST_TAG) == FIRST
  {
    hide IsDescribe;
    EmptyIsNoDescribe();
    assert Suffix("", "") == "";
    assert Value("0") == 0 && Value("1") == 1 by {
      assert "0"[..0] == "" && "1"[..0] == "";
    }
    assert "0" + "." + ("1" + "." + ("0" + "")) == "0.1.0";
    assert ['v'] + "0.1.0" == "v0.1.0";
  }

  lemma FirstIsRead()
    ensures ParseVersion("v0.1.0") == Placed(FIRST)
  {
    hide ParseVersion, Meaning, Write, Trim;
    FirstText();
    WriteIsTrimmed(FIRST_TAG);
    WrittenIsRead(FIRST_TAG, Write(FIRST_TAG));
  }

  lemma TrimTwice(printed: string)
    ensures ParseVersion(Trim(printed)) == ParseVersion(printed)
  {
    hide TakeDotted, TakeNumber, TakeSuffix, Trim;
    TrimIsTrimmed(printed);
  }

  lemma ReadVersion(printed: string)
    ensures ParseVersion(printed).Placed? ==> Read(ParseVersion(printed).version)
  {
    hide TakeDotted, TakeNumber, TakeSuffix, Trim;
  }

  /** Against a release, above is the mirror of below. */
  lemma AboveReleaseMeans(v: Version, release: Version)
    requires Read(v) && release.pre == [] && !release.describe
    ensures Compare(v, release) < 0 <==> Below(v, release)
    ensures Compare(v, release) > 0 <==> Below(release, v)
  {
    hide Compare, Below;
    CompareIsPrecedence(v, release);
    CompareIsPrecedence(release, v);
    CompareMirrorsIff(v, release);
  }

  /** A CLI is refused exactly when it is not built from source, prints a version and that is below
      v0.1.0; and it is taken to have each feature exactly when it is built from source, prints no
      version, or prints one that v0.1.0 is below. */
  lemma SupportMeans(source: bool, printed: string)
    ensures var r, p := CliSupport(source, printed), ParseVersion(printed);
      && (r.Refused? <==> !source && p.Placed? && Below(p.version, FIRST))
      && (r.Supports? ==> (r.trust <==> source || p.Unplaced? || Below(FIRST, p.version)))
      && (r.Supports? ==> (r.portBase <==> source || p.Unplaced? || Below(FIRST, p.version)))
  {
    hide ParseVersion, Compare, Below, Trim;
    TrimTwice(printed);
    FirstIsRead();
    ReadVersion(printed);
    if ParseVersion(printed).Placed? {
      AboveReleaseMeans(ParseVersion(printed).version, FIRST);
    }
  }

  /** v0.1.0 itself has neither feature, and every build described from it has both. */
  lemma FirstReleaseAndItsBuilds(d: string)
    requires IsDescribe(d)
    ensures CliSupport(false, "v0.1.0") == Supports(false, false)
    ensures CliSupport(false, "v0.1.0-" + d) == Supports(true, true)
  {
    hide ParseVersion, CliSupport, Compare, IsDescribe, Write, Meaning, Wellformed;
    FirstText();
    FirstIsRead();
    SupportMeans(false, "v0.1.0");
    SupportMeans(false, "v0.1.0-" + d);
    BuildReadsJustAfterTagIff(FIRST_TAG, d);
    assert "v0.1.0" + "-" + d == "v0.1.0-" + d;
    ReadVersion("v0.1.0-" + d);
    CompareIsPrecedence(FIRST, FIRST);
    CompareIsPrecedence(FIRST, ParseVersion("v0.1.0-" + d).version);
    OneWay(FIRST, ParseVersion("v0.1.0-" + d).version);
  }

  lemma OneWay(a: Version, b: Version)
    requires a.pre == [] && Below(a, b)
    ensures !Below(b, a)
  {
  }

  /** A later CLI is not refused where an earlier one is not, and loses no feature. */
  lemma LaterCliSupportsMore(earlier: string, later: string)
    requires ParseVersion(earlier).Placed? && ParseVersion(later).Placed?
    requires Compare(ParseVersion(earlier).version, ParseVersion(later).version) <= 0
    requires CliSupport(false, earlier).Supports?
    ensures CliSupport(false, later).Supports?
    ensures CliSupport(false, earlier).trust ==> CliSupport(false, later).trust
    ensures CliSupport(false, earlier).portBase ==> CliSupport(false, later).portBase
  {
    hide ParseVersion, Compare, Below, CliSupport;
    var v, w := ParseVersion(earlier).version, ParseVersion(later).version;
    ReadVersion(earlier);
    ReadVersion(later);
    SupportMeans(false, earlier);
    SupportMeans(false, later);
    CompareIsPrecedence(v, w);
    if Below(w, FIRST) && Below(v, w) {
      BelowTransitive(v, w, FIRST);
    }
    if Below(FIRST, v) && Below(v, w) {
      BelowTransitive(FIRST, v, w);
    }
  }
}
