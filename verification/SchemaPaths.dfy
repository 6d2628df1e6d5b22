/**
 Two walks of a table's schema joined by dotted path: the rows the Schema tab lists, and the data
 governance tags shown beside them.
 */
module SchemaPaths {
  import opened ByteOrder

  datatype Mode = Nullable | Required | Repeated

  datatype Field = Field(name: string, kind: string, mode: Mode, description: string, tags: map<string, string>, fields: seq<Field>)

  datatype Row = Row(name: string, kind: string, mode: Mode, description: string)

  function RowOf(f: Field, prefix: string): Row {
    Row(prefix + f.name, f.kind, f.mode, f.description)
  }

  /** Every field's row, a nested one after the field that holds it, named by its dotted path. */
  function Rows(fields: seq<Field>, prefix: string): seq<Row> {
    if fields == [] then []
    else [RowOf(fields[0], prefix)] + Rows(fields[0].fields, prefix + fields[0].name + ".") + Rows(fields[1..], prefix)
  }

  ghost function JoinTags(tags: map<string, string>, keys: seq<string>): string
    requires forall i :: 0 <= i < |keys| ==> keys[i] in tags
  {
    if keys == [] then ""
    else if |keys| == 1 then keys[0] + ": " + tags[keys[0]]
    else keys[0] + ": " + tags[keys[0]] + "; " + JoinTags(tags, keys[1..])
  }

  /** A field's tags as one text, by key. */
  ghost function TagText(tags: map<string, string>): string {
    var keys := Sorted(tags.Keys);
    assert forall i :: 0 <= i < |keys| ==> keys[i] in keys;
    JoinTags(tags, keys)
  }

  ghost function Entry(tags: map<string, string>, key: string): string
    requires key in tags
  {
    key + ": " + tags[key]
  }

  lemma {:induction false} JoinTagsAt(tags: map<string, string>, keys: seq<string>, i: nat)
    requires i < |keys| && forall k :: 0 <= k < |keys| ==> keys[k] in tags
    ensures JoinTags(tags, keys) ==
      (if i == 0 then "" else JoinTags(tags, keys[..i]) + "; ") + Entry(tags, keys[i]) +
      (if i == |keys| - 1 then "" else "; " + JoinTags(tags, keys[i + 1..]))
  {
    hide JoinTags, Entry;
    JoinTagsStep(tags, keys);
    var end := if i == |keys| - 1 then "" else "; " + JoinTags(tags, keys[i + 1..]);
    if i == 0 {
      assert "" + Entry(tags, keys[0]) + end == Entry(tags, keys[0]) + end;
    } else {
      var rest := keys[1..];
      JoinTagsAt(tags, rest, i - 1);
      assert rest[..i - 1] == keys[..i][1..] && rest[i..] == keys[i + 1..];
      JoinTagsStep(tags, keys[..i]);
      var first, own := Entry(tags, keys[0]), Entry(tags, keys[i]);
      if i == 1 {
        assert first + ("; " + ("" + own + end)) == (first + "") + "; " + own + end;
      } else {
        var between := JoinTags(tags, rest[..i - 1]);
        assert first + ("; " + ((between + "; ") + own + end)) == (first + ("; " + between)) + "; " + own + end;
      }
    }
  }

  lemma JoinTagsStep(tags: map<string, string>, keys: seq<string>)
    requires keys != [] && forall k :: 0 <= k < |keys| ==> keys[k] in tags
    ensures JoinTags(tags, keys) ==
      Entry(tags, keys[0]) + if |keys| == 1 then "" else "; " + JoinTags(tags, keys[1..])
  {
    if |keys| > 1 {
      assert Entry(tags, keys[0]) + ("; " + JoinTags(tags, keys[1..])) ==
        keys[0] + ": " + tags[keys[0]] + "; " + JoinTags(tags, keys[1..]);
    }
  }

  /** The keys but one, in order: those below it and those above it. */
  ghost predicate Surround(keys: set<string>, below: seq<string>, key: string, above: seq<string>) {
    && key in keys && Increasing(below) && Increasing(above)
    && (forall k :: k in below ==> k in keys) && (forall k :: k in above ==> k in keys)
    && (forall k :: k in keys ==> (k in below <==> Less(k, key)) && (k in above <==> Less(key, k)))
  }

  /** The text of the tags below a key, its own, and the tags above it, joined by "; ". */
  ghost function TextAround(tags: map<string, string>, below: seq<string>, key: string, above: seq<string>): string
    requires key in tags && (forall k :: k in below ==> k in tags) && (forall k :: k in above ==> k in tags)
  {
    (if below == [] then "" else JoinTags(tags, below) + "; ") + Entry(tags, key) +
    (if above == [] then "" else "; " + JoinTags(tags, above))
  }

  /** Every tag of a field is in its text as its key and value, between the tags of the keys below it
      and those of the keys above it. */
  lemma TagIsShown(tags: map<string, string>, key: string, below: seq<string>, above: seq<string>)
    requires Surround(tags.Keys, below, key, above)
    ensures TagText(tags) == TextAround(tags, below, key, above)
  {
    hide Sorted, JoinTags, Less, Surround, Entry;
    var keys := Sorted(tags.Keys);
    assert key in tags by { SurroundHolds(tags.Keys, below, key, above); }
    assert key in keys;
    var i :| 0 <= i < |keys| && keys[i] == key;
    assert forall k :: 0 <= k < |keys| ==> keys[k] in keys;
    SurroundedBySorted(keys, tags.Keys, i);
    SurroundIsOne(tags.Keys, key, below, above, keys[..i], keys[i + 1..]);
    JoinTagsAt(tags, keys, i);
  }

  lemma SurroundHolds(keys: set<string>, below: seq<string>, key: string, above: seq<string>)
    requires Surround(keys, below, key, above)
    ensures key in keys && Increasing(below) && Increasing(above)
    ensures (forall k :: k in below ==> k in keys) && (forall k :: k in above ==> k in keys)
  {
  }

  lemma SurroundedBySorted(keys: seq<string>, all: set<string>, i: nat)
    requires Increasing(keys) && (forall k :: k in keys <==> k in all) && i < |keys|
    ensures Surround(all, keys[..i], keys[i], keys[i + 1..])
  {
    hide Less, Increasing;
    KeysAround(keys, i);
  }

  lemma SurroundIsOne(all: set<string>, key: string, a: seq<string>, b: seq<string>, c: seq<string>, d: seq<string>)
    requires Surround(all, a, key, b) && Surround(all, c, key, d)
    ensures a == c && b == d
  {
    hide Less, Increasing;
    SameKeys(a, c);
    SameKeys(b, d);
  }

  /** Increasing lists of the same keys are the same list. */
  lemma {:induction false} SameKeys(a: seq<string>, b: seq<string>)
    requires Increasing(a) && Increasing(b) && forall k :: k in a <==> k in b
    ensures a == b
  {
    FirstIsIn(a);
    FirstIsIn(b);
    if a != [] {
      assert b != [];
      var x, y := a[|a| - 1], b[|b| - 1];
      LastIsGreatest(a, y);
      LastIsGreatest(b, x);
      if x != y {
        LessAsymmetric(x, y);
      }
      assert x == y;
      var a', b' := a[..|a| - 1], b[..|b| - 1];
      assert a == a' + [x] && b == b' + [x];
      LastIsOnce(a);
      LastIsOnce(b);
      forall k: string
        ensures k in a' <==> k in b'
      {
        assert k in a' <==> k in a && k != x;
        assert k in b' <==> k in b && k != x;
      }
      SameKeys(a', b');
    }
  }

  lemma FirstIsIn(a: seq<string>)
    ensures a == [] || a[0] in a
  {
  }

  lemma LastIsGreatest(a: seq<string>, k: string)
    requires Increasing(a) && k in a
    ensures k == a[|a| - 1] || Less(k, a[|a| - 1])
  {
    hide Less;
  }

  lemma LastIsOnce(a: seq<string>)
    requires Increasing(a) && a != []
    ensures Increasing(a[..|a| - 1])
    ensures forall k :: k in a[..|a| - 1] <==> k in a && k != a[|a| - 1]
  {
    hide Less;
    LessIrreflexive(a[|a| - 1]);
    var init := a[..|a| - 1];
    forall k | k in init
      ensures k != a[|a| - 1]
    {
      var i :| 0 <= i < |a| - 1 && a[i] == k;
      assert Less(a[i], a[|a| - 1]);
    }
  }

  lemma KeysAround(keys: seq<string>, i: nat)
    requires Increasing(keys) && i < |keys|
    ensures Increasing(keys[..i]) && Increasing(keys[i + 1..])
    ensures forall k :: k in keys[..i] || k in keys[i + 1..] ==> k in keys
    ensures forall k :: k in keys ==> (k in keys[..i] <==> Less(k, keys[i])) && (k in keys[i + 1..] <==> Less(keys[i], k))
  {
    hide Less;
    forall k | k in keys
      ensures (k in keys[..i] <==> Less(k, keys[i])) && (k in keys[i + 1..] <==> Less(keys[i], k))
    {
      var j :| 0 <= j < |keys| && keys[j] == k;
      KeyPlace(keys, i, j);
    }
  }

  lemma KeyPlace(keys: seq<string>, i: nat, j: nat)
    requires Increasing(keys) && i < |keys| && j < |keys|
    ensures keys[j] in keys[..i] <==> Less(keys[j], keys[i])
    ensures keys[j] in keys[i + 1..] <==> Less(keys[i], keys[j])
  {
    hide Less;
    KeysBelow(keys, i);
    LessIrreflexive(keys[i]);
    if j < i {
      assert keys[..i][j] == keys[j];
      LessAsymmetric(keys[j], keys[i]);
    } else if j > i {
      assert keys[i + 1..][j - i - 1] == keys[j];
      LessAsymmetric(keys[i], keys[j]);
    }
  }

  lemma KeysBelow(keys: seq<string>, i: nat)
    requires Increasing(keys) && i < |keys|
    ensures forall k :: k in keys[..i] ==> Less(k, keys[i])
    ensures forall k :: k in keys[i + 1..] ==> Less(keys[i], k)
  {
    hide Less;
  }

  ghost function OwnTags(f: Field, prefix: string): map<string, string> {
    if f.tags == map[] then map[] else map[prefix + f.name := TagText(f.tags)]
  }

  /** The tags by dotted path, each field's own, then its nested fields', then the next field's. */
  ghost function Tags(fields: seq<Field>, prefix: string): map<string, string> {
    if fields == [] then map[]
    else OwnTags(fields[0], prefix) + Tags(fields[0].fields, prefix + fields[0].name + ".") + Tags(fields[1..], prefix)
  }

  lemma RowsFrom(fields: seq<Field>, prefix: string, i: nat)
    requires i < |fields|
    ensures Rows(fields[i..], prefix) ==
      [RowOf(fields[i], prefix)] + Rows(fields[i].fields, prefix + fields[i].name + ".") + Rows(fields[i + 1..], prefix)
  {
    assert fields[i..][0] == fields[i] && fields[i..][1..] == fields[i + 1..];
  }

  method SchemaRows(fields: seq<Field>, prefix: string) returns (out: seq<Row>)
    ensures out == Rows(fields, prefix)
    decreases fields
  {
    hide Rows;
    out := [];
    ghost var goal := Rows(fields, prefix);
    assert fields[0..] == fields;
    for i := 0 to |fields|
      invariant goal == out + Rows(fields[i..], prefix)
    {
      var f := fields[i];
      RowsFrom(fields, prefix, i);
      var nested := SchemaRows(f.fields, prefix + f.name + ".");
      assert out + ([RowOf(f, prefix)] + nested + Rows(fields[i + 1..], prefix)) ==
        out + [RowOf(f, prefix)] + nested + Rows(fields[i + 1..], prefix);
      out := out + [RowOf(f, prefix)] + nested;
    }
    NoRows(fields[|fields|..], prefix);
  }

  lemma NoRows(fields: seq<Field>, prefix: string)
    requires fields == []
    ensures Rows(fields, prefix) == []
  {
  }

  lemma JoinTagsFrom(tags: map<string, string>, keys: seq<string>, i: nat)
    requires 0 < i < |keys| && forall k :: 0 <= k < |keys| ==> keys[k] in tags
    ensures JoinTags(tags, keys[..i + 1]) == JoinTags(tags, keys[..i]) + ("; " + keys[i] + ": " + tags[keys[i]])
  {
    if i == 1 {
      assert keys[..2][1..] == [keys[1]];
    } else {
      JoinTagsFrom(tags, keys[1..], i - 1);
      assert keys[..i + 1][1..] == keys[1..][..i] && keys[..i][1..] == keys[1..][..i - 1];
    }
  }

  method FieldTags(tags: map<string, string>) returns (text: string)
    ensures text == TagText(tags)
  {
    hide Sorted, Increasing;
    var keys := SortNames(tags.Keys);
    assert forall k :: 0 <= k < |keys| ==> keys[k] in keys;
    text := "";
    for i := 0 to |keys|
      invariant text == JoinTags(tags, keys[..i])
    {
      if i > 0 {
        JoinTagsFrom(tags, keys, i);
        text := text + ("; " + keys[i] + ": " + tags[keys[i]]);
      } else {
        assert keys[..1] == [keys[0]];
        text := keys[i] + ": " + tags[keys[i]];
      }
    }
    assert keys[..|keys|] == keys;
  }

  lemma TagsFrom(fields: seq<Field>, prefix: string, i: nat)
    requires i < |fields|
    ensures Tags(fields[i..], prefix) ==
      OwnTags(fields[i], prefix) + Tags(fields[i].fields, prefix + fields[i].name + ".") + Tags(fields[i + 1..], prefix)
  {
    assert fields[i..][0] == fields[i] && fields[i..][1..] == fields[i + 1..];
  }

  lemma MergeAssociates(a: map<string, string>, b: map<string, string>, c: map<string, string>, d: map<string, string>)
    ensures a + (b + c + d) == a + b + c + d
  {
  }

  method GovernanceTags(fields: seq<Field>, prefix: string) returns (out: map<string, string>)
    ensures out == Tags(fields, prefix)
    decreases fields
  {
    hide Tags, TagText;
    out := map[];
    ghost var goal := Tags(fields, prefix);
    assert fields[0..] == fields;
    for i := 0 to |fields|
      invariant goal == out + Tags(fields[i..], prefix)
    {
      var f := fields[i];
      TagsFrom(fields, prefix, i);
      var inner := GovernanceTags(f.fields, prefix + f.name + ".");
      MergeAssociates(out, OwnTags(f, prefix), inner, Tags(fields[i + 1..], prefix));
      if f.tags != map[] {
        var text := FieldTags(f.tags);
        out := out + map[prefix + f.name := text];
      }
      out := out + inner;
    }
    NoTags(fields[|fields|..], prefix);
  }

  lemma NoTags(fields: seq<Field>, prefix: string)
    requires fields == []
    ensures Tags(fields, prefix) == map[]
  {
  }

  // ---- Paths ----

  predicate NoDot(name: string) {
    '.' !in name
  }

  /** Sibling names are distinct and hold no dot, at every depth. */
  predicate WellNamed(fields: seq<Field>) {
    && (forall i :: 0 <= i < |fields| ==> NoDot(fields[i].name) && WellNamed(fields[i].fields))
    && (forall i, j :: 0 <= i < j < |fields| ==> fields[i].name != fields[j].name)
  }

  /** The path leads to the child called name, or below it. */
  predicate Under(path: string, prefix: string, name: string) {
    path == prefix + name || prefix + name + "." <= path
  }

  /** The text up to the first dot. */
  function Segment(s: string): string {
    if s == "" || s[0] == '.' then "" else [s[0]] + Segment(s[1..])
  }

  lemma {:induction false} SegmentIsName(name: string, rest: string)
    requires NoDot(name) && (rest == "" || rest[0] == '.')
    ensures Segment(name + rest) == name
  {
    if name == "" {
      assert name + rest == rest;
    } else {
      assert name[0] in name;
      assert (name + rest)[0] == name[0] && (name + rest)[1..] == name[1..] + rest;
      SegmentIsName(name[1..], rest);
      assert [name[0]] + name[1..] == name;
    }
  }

  lemma UnderIsSegment(path: string, prefix: string, name: string)
    requires Under(path, prefix, name) && NoDot(name)
    ensures |prefix| <= |path| && Segment(path[|prefix|..]) == name
  {
    var k := |prefix| + |name|;
    assert (prefix + name)[..k] == prefix + name;
    assert path[..k] == prefix + name;
    assert path[|prefix|..] == name + path[k..];
    assert k < |path| ==> path[k] == '.';
    SegmentIsName(name, path[k..]);
  }

  lemma UnderOneName(path: string, prefix: string, m: string, n: string)
    requires Under(path, prefix, m) && Under(path, prefix, n) && NoDot(m) && NoDot(n)
    ensures m == n
  {
    UnderIsSegment(path, prefix, m);
    UnderIsSegment(path, prefix, n);
  }

  ghost predicate HasRow(rows: seq<Row>, path: string) {
    exists i :: 0 <= i < |rows| && rows[i].name == path
  }

  lemma HasRowAppend(a: seq<Row>, b: seq<Row>, path: string)
    ensures HasRow(a + b, path) <==> HasRow(a, path) || HasRow(b, path)
  {
    var s := a + b;
    if i :| 0 <= i < |a| && a[i].name == path {
      assert s[i].name == path;
    }
    if i :| 0 <= i < |b| && b[i].name == path {
      assert s[|a| + i].name == path;
    }
    if i :| 0 <= i < |s| && s[i].name == path {
      assert if i < |a| then a[i].name == path else b[i - |a|].name == path;
    }
  }

  /** A path is listed for the first field, for one inside it, or for a later one. */
  lemma HasRowSplit(fields: seq<Field>, prefix: string, path: string)
    requires fields != []
    ensures HasRow(Rows(fields, prefix), path) <==>
      || path == prefix + fields[0].name
      || HasRow(Rows(fields[0].fields, prefix + fields[0].name + "."), path)
      || HasRow(Rows(fields[1..], prefix), path)
  {
    var own, inner, rest := [RowOf(fields[0], prefix)], Rows(fields[0].fields, prefix + fields[0].name + "."), Rows(fields[1..], prefix);
    HasRowAppend(own + inner, rest, path);
    HasRowAppend(own, inner, path);
    assert own[0].name == prefix + fields[0].name;
  }

  /** A path below a prefix with a child's name and a dot is under that child. */
  lemma DeeperIsUnder(path: string, prefix: string, name: string, child: string)
    requires Under(path, prefix + name + ".", child)
    ensures Under(path, prefix, name)
  {
    assert prefix + name + "." <= prefix + name + "." + child;
  }

  lemma {:induction false} RowsAreUnder(fields: seq<Field>, prefix: string, path: string)
    requires HasRow(Rows(fields, prefix), path)
    ensures exists j :: 0 <= j < |fields| && Under(path, prefix, fields[j].name)
    decreases fields
  {
    hide HasRow, Under;
    NoRows([], prefix);
    if fields == [] {
      RowsAreUnderNothing(path);
    } else {
      var f := fields[0];
      HasRowSplit(fields, prefix, path);
      if path == prefix + f.name {
        OwnIsUnder(prefix, f.name);
        assert Under(path, prefix, fields[0].name);
      } else if HasRow(Rows(f.fields, prefix + f.name + "."), path) {
        RowsAreUnder(f.fields, prefix + f.name + ".", path);
        var j :| 0 <= j < |f.fields| && Under(path, prefix + f.name + ".", f.fields[j].name);
        DeeperIsUnder(path, prefix, f.name, f.fields[j].name);
        assert Under(path, prefix, fields[0].name);
      } else {
        RowsAreUnder(fields[1..], prefix, path);
        var j :| 0 <= j < |fields[1..]| && Under(path, prefix, fields[1..][j].name);
        assert Under(path, prefix, fields[j + 1].name);
      }
    }
  }

  lemma OwnIsUnder(prefix: string, name: string)
    ensures Under(prefix + name, prefix, name)
  {
  }

  lemma RowsAreUnderNothing(path: string)
    ensures !HasRow([], path)
  {
  }

  lemma {:induction false} TagsHaveRows(fields: seq<Field>, prefix: string, path: string)
    requires path in Tags(fields, prefix)
    ensures HasRow(Rows(fields, prefix), path)
    decreases fields
  {
    hide HasRow, Rows;
    HasRowSplit(fields, prefix, path);
    if path in Tags(fields[1..], prefix) {
      TagsHaveRows(fields[1..], prefix, path);
    } else if path in Tags(fields[0].fields, prefix + fields[0].name + ".") {
      TagsHaveRows(fields[0].fields, prefix + fields[0].name + ".", path);
    }
  }

  // ---- The two walks agree ----

  /** The fields in the order their rows are listed. */
  function Walk(fields: seq<Field>): seq<Field> {
    if fields == [] then [] else [fields[0]] + Walk(fields[0].fields) + Walk(fields[1..])
  }

  ghost predicate DistinctNames(rows: seq<Row>) {
    forall i, j :: 0 <= i < j < |rows| ==> rows[i].name != rows[j].name
  }

  lemma InnerIsDeeper(f: Field, prefix: string, path: string)
    requires HasRow(Rows(f.fields, prefix + f.name + "."), path)
    ensures Under(path, prefix, f.name) && path != prefix + f.name
  {
    hide Rows, HasRow;
    RowsAreUnder(f.fields, prefix + f.name + ".", path);
    var j :| 0 <= j < |f.fields| && Under(path, prefix + f.name + ".", f.fields[j].name);
    DeeperIsUnder(path, prefix, f.name, f.fields[j].name);
    assert |path| > |prefix + f.name|;
  }

  /** Nothing at or below the first field is listed for a later one. */
  lemma LaterIsElsewhere(fields: seq<Field>, prefix: string, path: string)
    requires fields != [] && WellNamed(fields) && Under(path, prefix, fields[0].name)
    ensures !HasRow(Rows(fields[1..], prefix), path)
  {
    hide Rows, HasRow, Under;
    if HasRow(Rows(fields[1..], prefix), path) {
      RowsAreUnder(fields[1..], prefix, path);
      var j :| 0 <= j < |fields[1..]| && Under(path, prefix, fields[1..][j].name);
      UnderOneName(path, prefix, fields[0].name, fields[j + 1].name);
    }
  }

  lemma DistinctAppend(a: seq<Row>, b: seq<Row>)
    requires DistinctNames(a) && DistinctNames(b)
    requires forall i :: 0 <= i < |a| ==> !HasRow(b, a[i].name)
    ensures DistinctNames(a + b)
  {
    var s := a + b;
    forall i, j | 0 <= i < j < |s|
      ensures s[i].name != s[j].name
    {
      if i < |a| <= j {
        assert !HasRow(b, a[i].name);
        assert s[j] == b[j - |a|];
      }
    }
  }

  /** Every path is listed once. */
  lemma {:induction false} PathsAreDistinct(fields: seq<Field>, prefix: string)
    requires WellNamed(fields)
    ensures DistinctNames(Rows(fields, prefix))
    decreases fields
  {
    if fields != [] {
      var f := fields[0];
      var own, inner, rest := [RowOf(f, prefix)], Rows(f.fields, prefix + f.name + "."), Rows(fields[1..], prefix);
      PathsAreDistinct(f.fields, prefix + f.name + ".");
      PathsAreDistinct(fields[1..], prefix);
      if HasRow(inner, prefix + f.name) {
        InnerIsDeeper(f, prefix, prefix + f.name);
      }
      DistinctAppend(own, inner);
      var first := own + inner;
      forall i | 0 <= i < |first|
        ensures !HasRow(rest, first[i].name)
      {
        if i > 0 {
          assert inner[i - 1].name == first[i].name;
          InnerIsDeeper(f, prefix, first[i].name);
        }
        LaterIsElsewhere(fields, prefix, first[i].name);
      }
      DistinctAppend(first, rest);
    }
  }

  lemma {:induction false} RowsFollowWalk(fields: seq<Field>, prefix: string)
    ensures |Rows(fields, prefix)| == |Walk(fields)|
    decreases fields
  {
    if fields != [] {
      RowsFollowWalk(fields[0].fields, prefix + fields[0].name + ".");
      RowsFollowWalk(fields[1..], prefix);
    }
  }

  /** What the tags say at a path listed for the first field, inside it, or later. */
  lemma TagsAt(fields: seq<Field>, prefix: string, path: string)
    requires fields != [] && WellNamed(fields)
    ensures var f, t := fields[0], Tags(fields, prefix);
      var inner, rest := Tags(f.fields, prefix + f.name + "."), Tags(fields[1..], prefix);
      && (path == prefix + f.name ==> (path in t <==> f.tags != map[]) && (path in t ==> t[path] == TagText(f.tags)))
      && (HasRow(Rows(f.fields, prefix + f.name + "."), path) ==> (path in t <==> path in inner) && (path in t ==> t[path] == inner[path]))
      && (HasRow(Rows(fields[1..], prefix), path) ==> (path in t <==> path in rest) && (path in t ==> t[path] == rest[path]))
  {
    hide Rows, HasRow, TagText;
    var f := fields[0];
    var inner, rest := Tags(f.fields, prefix + f.name + "."), Tags(fields[1..], prefix);
    if path in inner {
      TagsHaveRows(f.fields, prefix + f.name + ".", path);
    }
    if path in rest {
      TagsHaveRows(fields[1..], prefix, path);
    }
    if HasRow(Rows(f.fields, prefix + f.name + "."), path) {
      InnerIsDeeper(f, prefix, path);
      LaterIsElsewhere(fields, prefix, path);
    }
    if path == prefix + f.name {
      LaterIsElsewhere(fields, prefix, path);
    }
  }

  lemma WalksSplit(fields: seq<Field>, prefix: string)
    ensures fields == [] ==> Walk(fields) == []
    ensures fields != [] ==> Walk(fields) == [fields[0]] + Walk(fields[0].fields) + Walk(fields[1..])
    ensures fields != [] ==>
      Rows(fields, prefix) == [RowOf(fields[0], prefix)] + Rows(fields[0].fields, prefix + fields[0].name + ".") + Rows(fields[1..], prefix)
  {
  }

  /** The row of the i-th field in order, looked up by its name, has that field's own tags. */
  lemma {:induction false} TagsJoinByPath(fields: seq<Field>, prefix: string, i: nat)
    requires WellNamed(fields) && i < |Walk(fields)|
    ensures |Rows(fields, prefix)| == |Walk(fields)|
    ensures var r, f, t := Rows(fields, prefix)[i], Walk(fields)[i], Tags(fields, prefix);
      && r == Row(r.name, f.kind, f.mode, f.description)
      && (r.name in t <==> f.tags != map[])
      && (f.tags != map[] ==> t[r.name] == TagText(f.tags))
    decreases fields
  {
    hide TagText, HasRow, Tags, Rows, Walk;
    WalksSplit(fields, prefix);
    RowsFollowWalk(fields, prefix);
    var f := fields[0];
    var inner, rest := Rows(f.fields, prefix + f.name + "."), Rows(fields[1..], prefix);
    var path := Rows(fields, prefix)[i].name;
    RowsFollowWalk(f.fields, prefix + f.name + ".");
    RowsFollowWalk(fields[1..], prefix);
    TagsAt(fields, prefix, path);
    if 0 < i <= |inner| {
      assert Rows(fields, prefix)[i] == inner[i - 1] && Walk(fields)[i] == Walk(f.fields)[i - 1];
      TagsJoinByPath(f.fields, prefix + f.name + ".", i - 1);
      RowIsListed(inner, i - 1);
    } else if i > |inner| {
      var j := i - 1 - |inner|;
      assert Rows(fields, prefix)[i] == rest[j] && Walk(fields)[i] == Walk(fields[1..])[j];
      TagsJoinByPath(fields[1..], prefix, j);
      RowIsListed(rest, j);
    }
  }

  lemma RowIsListed(rows: seq<Row>, i: nat)
    requires i < |rows|
    ensures HasRow(rows, rows[i].name)
  {
  }
}
