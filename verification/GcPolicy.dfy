/**
 A column family's garbage-collection policy, read from the form's fields and written back to them.
 Integers are 64-bit in the program; ages are nanoseconds and their product may wrap around.
 */
module GcPolicy {
  import opened Options
  import opened Text

  const MAX_INT64 := 9223372036854775807
  const WORD := 18446744073709551616

  const MINUTE := 60000000000
  const HOUR := 3600000000000
  const DAY := 86400000000000

  datatype Policy =
    | NoGc
    | MaxVersions(limit: int)
    | MaxAge(ns: int)
    | Union(children: seq<Policy>)
    | Intersection(children: seq<Policy>)

  /** The value a 64-bit signed integer keeps of x. */
  function Wrap64(x: int): int {
    (x + MAX_INT64 + 1) % WORD - MAX_INT64 - 1
  }

  function Unit(c: char): Option<int> {
    if c == 'd' then Some(DAY) else if c == 'h' then Some(HOUR) else if c == 'm' then Some(MINUTE) else None
  }

  /** A whole number without a leading zero and one of d, h and m. */
  predicate IsAge(raw: string) {
    && |raw| > 1 && Numeric(raw[..|raw| - 1]) && raw[0] != '0' && Unit(raw[|raw| - 1]).Some?
  }

  function AgeNumber(raw: string): nat
    requires IsAge(raw)
  {
    Value(raw[..|raw| - 1])
  }

  function AgeUnit(raw: string): int
    requires IsAge(raw)
  {
    Unit(raw[|raw| - 1]).value
  }

  /** The age the text means. */
  function AgeMeant(raw: string): int
    requires IsAge(raw)
  {
    AgeNumber(raw) * AgeUnit(raw)
  }

  function ParseMaxAge(raw: string): Option<int> {
    if !IsAge(raw) then None
    else if AgeNumber(raw) > MAX_INT64 then None
    else Some(Wrap64(AgeMeant(raw)))
  }

  lemma WrapKeepsExactly(x: int)
    requires x >= 0
    ensures Wrap64(x) == x <==> x <= MAX_INT64
  {
  }

  /** An age is read as what it means exactly when that fits 64 bits. Past that it is refused when
      its number alone does not fit, and else read as what 64 bits keep of it, without complaint. */
  lemma AgeReadExactlyIff(raw: string)
    requires IsAge(raw)
    ensures ParseMaxAge(raw) == Some(AgeMeant(raw)) <==> AgeMeant(raw) <= MAX_INT64
    ensures ParseMaxAge(raw).None? <==> AgeNumber(raw) > MAX_INT64
    ensures ParseMaxAge(raw).Some? ==>
      var ns := ParseMaxAge(raw).value;
      -MAX_INT64 - 1 <= ns <= MAX_INT64 && (AgeMeant(raw) - ns) % WORD == 0
  {
    assert AgeNumber(raw) <= AgeMeant(raw);
    WrapKeepsExactly(AgeMeant(raw));
    WrapKeepsRemainder(AgeMeant(raw));
  }

  lemma WrapKeepsRemainder(x: int)
    ensures -MAX_INT64 - 1 <= Wrap64(x) <= MAX_INT64 && (x - Wrap64(x)) % WORD == 0
  {
    var y := x + MAX_INT64 + 1;
    assert x - Wrap64(x) == y - y % WORD == (y / WORD) * WORD;
  }

  ghost predicate AgeOf(raw: string, n: nat, unit: char) {
    n > 0 && (unit == 'd' || unit == 'h' || unit == 'm') && raw == Decimal(n) + [unit]
  }

  /** The ages of the form are exactly the positive numbers in decimal with d, h or m after them. */
  lemma AgesAre(raw: string)
    ensures IsAge(raw) <==> exists n: nat, unit: char :: AgeOf(raw, n, unit)
    ensures !IsAge(raw) ==> ParseMaxAge(raw).None?
  {
    hide Decimal;
    if IsAge(raw) {
      var digits := raw[..|raw| - 1];
      ValuePositive(digits);
      var n := Value(digits);
      CanonicalValue(digits, Decimal(n));
      assert raw == digits + [raw[|raw| - 1]];
      assert AgeOf(raw, n, raw[|raw| - 1]);
    }
    if n: nat, unit: char :| AgeOf(raw, n, unit) {
      AgeText(n, unit);
    }
  }

  lemma AgeText(n: nat, unit: char)
    requires n > 0 && Unit(unit).Some?
    ensures IsAge(Decimal(n) + [unit]) && AgeMeant(Decimal(n) + [unit]) == n * Unit(unit).value
  {
    hide Decimal;
    var raw := Decimal(n) + [unit];
    assert raw[..|raw| - 1] == Decimal(n);
  }

  /** Days, hours and minutes are each so many of the next: n days read as 24n hours, and n hours as
      60n minutes. */
  lemma UnitsAgree(n: nat)
    requires n > 0
    ensures IsAge(Decimal(n) + "d") && IsAge(Decimal(n) + "h") && IsAge(Decimal(n) + "m")
    ensures IsAge(Decimal(24 * n) + "h") && IsAge(Decimal(60 * n) + "m")
    ensures AgeMeant(Decimal(n) + "d") == AgeMeant(Decimal(24 * n) + "h")
    ensures AgeMeant(Decimal(n) + "h") == AgeMeant(Decimal(60 * n) + "m")
    ensures AgeMeant(Decimal(n) + "m") == n * 60 * 1000000000
  {
    hide Decimal;
    AgeText(n, 'd');
    AgeText(24 * n, 'h');
    AgeText(n, 'h');
    AgeText(60 * n, 'm');
    AgeText(n, 'm');
  }

  /** 106752 days is read as a negative age. */
  lemma LongAgeTurnsNegative()
    ensures var raw := Decimal(106752) + "d";
      ParseMaxAge(raw).Some? && ParseMaxAge(raw).value < 0
  {
    hide Decimal;
    var raw := Decimal(106752) + "d";
    assert raw[..|raw| - 1] == Decimal(106752);
    assert AgeMeant(raw) == 106752 * 86400000000000;
  }

  /** A decimal with an optional sign, within 64 bits. */
  function Atoi(s: string): Option<int> {
    if s == "" then None
    else
      var signed := s[0] == '+' || s[0] == '-';
      var digits := if signed then s[1..] else s;
      if !Numeric(digits) then None
      else
        var m: int := Value(digits);
        var n := if s[0] == '-' then -m else m;
        if -MAX_INT64 - 1 <= n <= MAX_INT64 then Some(n) else None
  }

  /** A sign or none and then digits are read as the signed number, exactly when it fits 64 bits. */
  lemma AtoiReads(digits: string, n: int)
    requires Numeric(digits)
    ensures Atoi(digits) == Some(n) <==> n == Value(digits) && n <= MAX_INT64
    ensures Atoi("+" + digits) == Atoi(digits)
    ensures Atoi("-" + digits) == Some(n) <==> n == -(Value(digits) as int) && n >= -MAX_INT64 - 1
  {
    assert IsDigit(digits[0]);
    assert ("+" + digits)[1..] == digits && ("-" + digits)[1..] == digits;
  }

  function Itoa(n: int): string {
    if n < 0 then "-" + Decimal(-n) else Decimal(n)
  }

  datatype Fields = Fields(versions: string, age: string, both: bool)

  method ParseGcPolicy(f: Fields) returns (r: Option<Policy>)
    ensures r == Parse(f)
  {
    var parts: seq<Policy> := [];
    var raw := Trim(f.versions);
    if raw != "" {
      var n := Atoi(raw);
      if n.None? || n.value < 1 {
        return None;
      }
      parts := parts + [MaxVersions(n.value)];
      assert parts == [MaxVersions(n.value)];
    }
    ghost var v, a := ParseVersions(Trim(f.versions)), ParseAge(Trim(f.age));
    assert v == Some(parts);
    raw := Trim(f.age);
    if raw != "" {
      var d := ParseMaxAge(raw);
      if d.None? {
        return None;
      }
      parts := parts + [MaxAge(d.value)];
    }
    assert a.Some? && parts == v.value + a.value;
    if |parts| == 0 {
      return Some(NoGc);
    }
    if |parts| == 1 {
      return Some(parts[0]);
    }
    return Some(if f.both then Intersection(parts) else Union(parts));
  }

  function ParseVersions(raw: string): Option<seq<Policy>> {
    if raw == "" then Some([])
    else if Atoi(raw).None? || Atoi(raw).value < 1 then None
    else Some([MaxVersions(Atoi(raw).value)])
  }

  function ParseAge(raw: string): Option<seq<Policy>> {
    if raw == "" then Some([])
    else if ParseMaxAge(raw).None? then None
    else Some([MaxAge(ParseMaxAge(raw).value)])
  }

  function Parse(f: Fields): Option<Policy> {
    var v, a := ParseVersions(Trim(f.versions)), ParseAge(Trim(f.age));
    if v.None? || a.None? then None
    else
      var parts := v.value + a.value;
      if parts == [] then Some(NoGc)
      else if |parts| == 1 then Some(parts[0])
      else Some(if f.both then Intersection(parts) else Union(parts))
  }

  // ---- Writing a stored policy back ----

  /** The client's text for an age; of its form only this is used: text of the form's pattern
      means the age. */
  type Renderer = int -> string

  ghost predicate Faithful(show: Renderer) {
    forall ns :: IsAge(show(ns)) ==> AgeMeant(show(ns)) == ns
  }

  /** The fields once one more limit is written into them; none when there is no place for it. */
  function WriteOne(f: Fields, p: Policy, show: Renderer): Option<Fields> {
    match p
    case MaxVersions(n) => if f.versions != "" then None else Some(f.(versions := Itoa(n)))
    case MaxAge(ns) => if f.age != "" || !IsAge(show(ns)) then None else Some(f.(age := show(ns)))
    case _ => None
  }

  const BLANK := Fields("", "", false)

  function Format(p: Policy, show: Renderer): Option<Fields> {
    match p
    case NoGc => Some(BLANK)
    case Union(children) => FormatTwo(children, false, show)
    case Intersection(children) => FormatTwo(children, true, show)
    case _ => WriteOne(BLANK, p, show)
  }

  function FormatTwo(children: seq<Policy>, both: bool, show: Renderer): Option<Fields> {
    if |children| != 2 then None
    else match WriteOne(Fields("", "", both), children[0], show)
      case None => None
      case Some(f) => WriteOne(f, children[1], show)
  }

  method FormatGcPolicy(p: Policy, show: Renderer) returns (r: Option<Fields>)
    ensures r == Format(p, show)
  {
    if p.NoGc? {
      return Some(BLANK);
    }
    if p.Union? || p.Intersection? {
      if |p.children| != 2 {
        return None;
      }
      r := Some(Fields("", "", p.Intersection?));
      for i := 0 to 2
        invariant r.Some?
        invariant i == 0 ==> r == Some(Fields("", "", p.Intersection?))
        invariant i == 1 ==> r == WriteOne(Fields("", "", p.Intersection?), p.children[0], show)
        invariant i == 2 ==> r == FormatTwo(p.children, p.Intersection?, show)
      {
        var next := WriteOne(r.value, p.children[i], show);
        if next.None? {
          return None;
        }
        r := next;
      }
      return;
    }
    r := WriteOne(BLANK, p, show);
  }

  /** The box for both limits is ticked exactly for an intersection. */
  lemma BothIsIntersection(p: Policy, show: Renderer)
    requires Format(p, show).Some?
    ensures Format(p, show).value.both <==> p.Intersection?
  {
  }

  // ---- What a policy collects ----

  /** A cell by its place among its column's versions, newest first from 1, and its age. */
  datatype Cell = Cell(place: nat, age: int)

  predicate Collects(p: Policy, c: Cell) {
    match p
    case NoGc => false
    case MaxVersions(n) => c.place > n
    case MaxAge(ns) => c.age > ns
    case Union(children) => exists i :: 0 <= i < |children| && Collects(children[i], c)
    case Intersection(children) => forall i :: 0 <= i < |children| ==> Collects(children[i], c)
  }

  /** A policy whose limits are what the program can hold and Bigtable accepts. */
  predicate Storable(p: Policy) {
    match p
    case MaxVersions(n) => 1 <= n <= MAX_INT64
    case MaxAge(ns) => ns <= MAX_INT64
    case Union(children) => forall i :: 0 <= i < |children| ==> Storable(children[i])
    case Intersection(children) => forall i :: 0 <= i < |children| ==> Storable(children[i])
    case NoGc => true
  }

  lemma DecimalIsSolid(x: string)
    requires Numeric(x)
    ensures Solid(x) && Trim(x) == x
  {
    assert IsDigit(x[0]) && IsDigit(x[|x| - 1]);
    SolidIsTrimmed(x);
  }

  lemma VersionsReadBack(n: int)
    requires 1 <= n <= MAX_INT64
    ensures Itoa(n) != "" && ParseVersions(Trim(Itoa(n))) == Some([MaxVersions(n)])
  {
    var x := Decimal(n);
    DecimalIsSolid(x);
    assert IsDigit(x[0]);
  }

  lemma AgeReadBack(ns: int, show: Renderer)
    requires Faithful(show) && IsAge(show(ns)) && ns <= MAX_INT64
    ensures show(ns) != "" && ParseAge(Trim(show(ns))) == Some([MaxAge(ns)])
  {
    var raw := show(ns);
    assert IsDigit(raw[..|raw| - 1][0]);
    assert Solid(raw);
    SolidIsTrimmed(raw);
    assert AgeMeant(raw) == ns;
    assert AgeUnit(raw) >= 1;
    assert AgeNumber(raw) <= AgeMeant(raw);
    WrapKeepsExactly(ns);
  }

  lemma EmptyFieldsReadBack()
    ensures ParseVersions(Trim("")) == Some([]) && ParseAge(Trim("")) == Some([])
  {
  }

  lemma PairCollects(x: Policy, y: Policy, c: Cell)
    ensures Collects(Union([x, y]), c) <==> Collects(x, c) || Collects(y, c)
    ensures Collects(Intersection([x, y]), c) <==> Collects(x, c) && Collects(y, c)
  {
    var xs := [x, y];
    assert xs[0] == x && xs[1] == y;
  }

  lemma PairReadBack(n: int, ns: int, both: bool, show: Renderer)
    requires Faithful(show) && 1 <= n <= MAX_INT64 && ns <= MAX_INT64 && IsAge(show(ns))
    ensures Parse(Fields(Itoa(n), show(ns), both)) ==
      Some(if both then Intersection([MaxVersions(n), MaxAge(ns)]) else Union([MaxVersions(n), MaxAge(ns)]))
  {
    hide ParseVersions, ParseAge, Trim;
    VersionsReadBack(n);
    AgeReadBack(ns, show);
    assert [MaxVersions(n)] + [MaxAge(ns)] == [MaxVersions(n), MaxAge(ns)];
  }

  lemma PairWritten(children: seq<Policy>, both: bool, show: Renderer)
    requires FormatTwo(children, both, show).Some?
    ensures |children| == 2
    ensures (children[0].MaxVersions? && children[1].MaxAge?) || (children[0].MaxAge? && children[1].MaxVersions?)
    ensures var v, a := if children[0].MaxVersions? then children[0] else children[1],
        if children[0].MaxAge? then children[0] else children[1];
      IsAge(show(a.ns)) && FormatTwo(children, both, show).value == Fields(Itoa(v.limit), show(a.ns), both)
  {
  }

  /** A stored policy the form offers to edit reads back, unedited, as a policy that collects exactly
      the same cells; its age never leaves 64 bits on the way. */
  lemma FormRoundTrips(p: Policy, show: Renderer, c: Cell)
    requires Faithful(show) && Storable(p) && Format(p, show).Some?
    ensures Parse(Format(p, show).value).Some?
    ensures Collects(Parse(Format(p, show).value).value, c) == Collects(p, c)
  {
    EmptyFieldsReadBack();
    match p
    case NoGc =>
    case MaxVersions(n) => VersionsReadBack(n);
    case MaxAge(ns) => AgeReadBack(ns, show);
    case Union(children) => BothLimitsReadBack(p, show, c);
    case Intersection(children) => BothLimitsReadBack(p, show, c);
  }

  lemma BothLimitsReadBack(p: Policy, show: Renderer, c: Cell)
    requires Faithful(show) && Storable(p) && Format(p, show).Some? && (p.Union? || p.Intersection?)
    ensures Parse(Format(p, show).value).Some?
    ensures Collects(Parse(Format(p, show).value).value, c) == Collects(p, c)
  {
    hide FormatTwo, Parse, Faithful;
    var xs := p.children;
    PairWritten(xs, p.Intersection?, show);
    assert Storable(xs[0]) && Storable(xs[1]) && xs == [xs[0], xs[1]];
    var v, a := if xs[0].MaxVersions? then xs[0] else xs[1], if xs[0].MaxAge? then xs[0] else xs[1];
    PairReadBack(v.limit, a.ns, p.Intersection?, show);
    PairCollects(xs[0], xs[1], c);
    PairCollects(v, a, c);
  }

  /** A renderer in the largest unit that divides the age, and nothing of the form otherwise. */
  function LargestUnit(ns: int): string {
    if ns > 0 && ns % DAY == 0 then Decimal(ns / DAY) + "d"
    else if ns > 0 && ns % HOUR == 0 then Decimal(ns / HOUR) + "h"
    else if ns > 0 && ns % MINUTE == 0 then Decimal(ns / MINUTE) + "m"
    else ""
  }

  lemma LargestUnitIsFaithful()
    ensures Faithful(LargestUnit)
  {
    forall ns: int | IsAge(LargestUnit(ns))
      ensures AgeMeant(LargestUnit(ns)) == ns
    {
      var raw := LargestUnit(ns);
      var unit := if ns % DAY == 0 then DAY else if ns % HOUR == 0 then HOUR else MINUTE;
      assert raw[..|raw| - 1] == Decimal(ns / unit);
    }
  }

  // ---- Which policies the form offers to edit ----

  predicate WholeMinutes(ns: int) {
    ns > 0 && ns % MINUTE == 0
  }

  /** A renderer that has text of the form's pattern for every positive whole number of minutes. */
  ghost predicate Thorough(show: Renderer) {
    forall ns :: WholeMinutes(ns) ==> IsAge(show(ns))
  }

  predicate Limit(p: Policy) {
    p.MaxVersions? || (p.MaxAge? && WholeMinutes(p.ns))
  }

  /** No policy, one limit, or one limit of each kind; nothing nested and ages in whole minutes. */
  predicate Expressible(p: Policy) {
    match p
    case NoGc => true
    case Union(children) => OneOfEach(children)
    case Intersection(children) => OneOfEach(children)
    case _ => Limit(p)
  }

  predicate OneOfEach(children: seq<Policy>) {
    |children| == 2 && Limit(children[0]) && Limit(children[1]) && children[0].MaxAge? != children[1].MaxAge?
  }

  lemma AgeIsWholeMinutes(raw: string)
    requires IsAge(raw)
    ensures WholeMinutes(AgeMeant(raw))
  {
    ValuePositive(raw[..|raw| - 1]);
    var n, unit := AgeNumber(raw), AgeUnit(raw);
    assert unit == 1440 * MINUTE || unit == 60 * MINUTE || unit == MINUTE;
    assert n * unit == (1440 * n) * MINUTE || n * unit == (60 * n) * MINUTE || n * unit == n * MINUTE;
  }

  lemma ShownIffWholeMinutes(ns: int, show: Renderer)
    requires Faithful(show) && Thorough(show)
    ensures IsAge(show(ns)) <==> WholeMinutes(ns)
  {
    hide IsAge, WholeMinutes, AgeMeant;
    if IsAge(show(ns)) {
      AgeIsWholeMinutes(show(ns));
    }
  }

  lemma WriteOneIff(f: Fields, p: Policy, show: Renderer)
    requires Faithful(show) && Thorough(show)
    ensures WriteOne(f, p, show).Some? <==>
      Limit(p) && (p.MaxVersions? ==> f.versions == "") && (p.MaxAge? ==> f.age == "")
    ensures WriteOne(f, p, show).Some? && p.MaxVersions? ==>
      WriteOne(f, p, show).value.versions != "" && WriteOne(f, p, show).value.age == f.age
    ensures WriteOne(f, p, show).Some? && p.MaxAge? ==>
      WriteOne(f, p, show).value.age != "" && WriteOne(f, p, show).value.versions == f.versions
  {
    hide Faithful, Thorough, WholeMinutes, Decimal;
    if p.MaxAge? {
      ShownIffWholeMinutes(p.ns, show);
    }
  }

  /** The form offers an edit exactly for the policies its fields can express. */
  lemma OfferedIffExpressible(p: Policy, show: Renderer)
    requires Faithful(show) && Thorough(show)
    ensures Format(p, show).Some? <==> Expressible(p)
  {
    hide Faithful, Thorough, WriteOne, Limit;
    match p
    case NoGc =>
    case MaxVersions(_) => WriteOneIff(BLANK, p, show);
    case MaxAge(_) => WriteOneIff(BLANK, p, show);
    case Union(children) => TwoOfferedIff(children, false, show);
    case Intersection(children) => TwoOfferedIff(children, true, show);
  }

  lemma TwoOfferedIff(children: seq<Policy>, both: bool, show: Renderer)
    requires Faithful(show) && Thorough(show)
    ensures FormatTwo(children, both, show).Some? <==> OneOfEach(children)
  {
    hide Faithful, Thorough, WriteOne, WholeMinutes;
    if |children| == 2 {
      var blank := Fields("", "", both);
      WriteOneIff(blank, children[0], show);
      if WriteOne(blank, children[0], show).Some? {
        WriteOneIff(WriteOne(blank, children[0], show).value, children[1], show);
      }
    }
  }

  /** The age kept of the text is a positive whole number of minutes, or there is no age. */
  predicate KeepsMinutes(raw: string) {
    IsAge(raw) ==> WholeMinutes(Wrap64(AgeMeant(raw)))
  }

  lemma FittingAgeKeepsMinutes(raw: string)
    requires IsAge(raw) ==> AgeMeant(raw) <= MAX_INT64
    ensures KeepsMinutes(raw)
  {
    if IsAge(raw) {
      AgeIsWholeMinutes(raw);
      WrapKeepsExactly(AgeMeant(raw));
    }
  }

  lemma SavedIsExpressibleIff(f: Fields)
    requires Parse(f).Some?
    ensures Expressible(Parse(f).value) <==> KeepsMinutes(Trim(f.age))
    ensures Storable(Parse(f).value)
  {
    hide Trim, IsAge, AgeMeant, WholeMinutes, Atoi, ParseMaxAge, KeepsMinutes;
    if Trim(f.versions) != "" {
      VersionsSaved(Trim(f.versions));
    }
    AgeSaved(Trim(f.age));
  }

  lemma VersionsSaved(raw: string)
    requires ParseVersions(raw).Some? && raw != ""
    ensures 1 <= Atoi(raw).value <= MAX_INT64
  {
  }

  lemma AgeSaved(raw: string)
    requires ParseAge(raw).Some?
    ensures raw == "" ==> KeepsMinutes(raw)
    ensures raw != "" ==> ParseMaxAge(raw).Some? && ParseMaxAge(raw).value <= MAX_INT64
    ensures raw != "" ==> (KeepsMinutes(raw) <==> WholeMinutes(ParseMaxAge(raw).value))
  {
  }

  /** What the form saved it offers to edit exactly when the age kept is a positive whole number of
      minutes, as it is whenever the age typed fits 64-bit nanoseconds; and the fields offered save
      the same collecting. */
  lemma SavedIsEditableIff(f: Fields, show: Renderer, c: Cell)
    requires Faithful(show) && Thorough(show) && Parse(f).Some?
    ensures Format(Parse(f).value, show).Some? <==> KeepsMinutes(Trim(f.age))
    ensures (IsAge(Trim(f.age)) ==> AgeMeant(Trim(f.age)) <= MAX_INT64) ==> KeepsMinutes(Trim(f.age))
    ensures Format(Parse(f).value, show).Some? ==>
      var again := Parse(Format(Parse(f).value, show).value);
      again.Some? && Collects(again.value, c) == Collects(Parse(f).value, c)
  {
    hide Faithful, Thorough, Format, Collects, Parse, KeepsMinutes, IsAge, AgeMeant, Trim;
    SavedIsExpressibleIff(f);
    OfferedIffExpressible(Parse(f).value, show);
    if IsAge(Trim(f.age)) ==> AgeMeant(Trim(f.age)) <= MAX_INT64 {
      FittingAgeKeepsMinutes(Trim(f.age));
    }
    if Format(Parse(f).value, show).Some? {
      FormRoundTrips(Parse(f).value, show, c);
    }
  }

  lemma LargestUnitIsThorough()
    ensures Thorough(LargestUnit)
  {
    forall ns | WholeMinutes(ns)
      ensures IsAge(LargestUnit(ns))
    {
      var unit := if ns % DAY == 0 then DAY else if ns % HOUR == 0 then HOUR else MINUTE;
      var raw := LargestUnit(ns);
      assert ns / unit > 0 && raw[..|raw| - 1] == Decimal(ns / unit);
    }
  }
}
