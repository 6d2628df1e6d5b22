/** Exclude from indexes, in place on the stored messages. */
module DatastoreExclude {
  import opened ByteOrder
  import opened Options
  import opened DatastoreValues
  import opened DatastoreNodes

  ghost function Stored(prop: Node): Value
    requires prop.Tree()
    reads prop.Nodes()
  {
    View(prop, prop.Excluded())
  }

  method ValueAt(prop: Node, steps: seq<Step>) returns (r: Option<Node>)
    ensures r == NodeAt(prop, steps)
  {
    var v := prop;
    for i := 0 to |steps|
      invariant NodeAt(prop, steps) == NodeAt(v, steps[i..])
    {
      assert steps[i..][0] == steps[i] && steps[i..][1..] == steps[i + 1..];
      match steps[i] {
        case Index(k) =>
          if !v.form.ArrayForm? || k >= |v.form.items| {
            return None;
          }
          v := v.form.items[k];
        case Name(name) =>
          if !v.form.EntityForm? || name !in v.form.props {
            return None;
          }
          v := v.form.props[name];
      }
    }
    return Some(v);
  }

  method Walk(n: Node, at: seq<Step>, out: seq<Element>) returns (more: seq<Element>)
    requires n.Tree()
    ensures more == out + Flagged(n, at)
    decreases n.rank, 1
  {
    hide FlaggedItems, FlaggedProps, Sorted, Increasing, Node.Tree;
    if n.form.ArrayForm? {
      more := WalkItems(n, at, out);
    } else {
      more := out + [Element(at, n)];
      if n.form.EntityForm? {
        more := WalkProps(n, at, more);
      }
    }
  }

  method WalkItems(n: Node, at: seq<Step>, out: seq<Element>) returns (more: seq<Element>)
    requires n.Tree() && n.form.ArrayForm?
    ensures more == out + FlaggedItems(n, at, |n.form.items|)
    decreases n.rank, 0
  {
    hide Flagged, Node.Tree;
    more := out;
    for i := 0 to |n.form.items|
      invariant more == out + FlaggedItems(n, at, i)
    {
      KidTree(n, Index(i));
      more := Walk(n.form.items[i], at + [Index(i)], more);
    }
  }

  method WalkProps(n: Node, at: seq<Step>, out: seq<Element>) returns (more: seq<Element>)
    requires n.Tree() && n.form.EntityForm?
    ensures more == out + FlaggedProps(n, at, |Sorted(n.form.props.Keys)|)
    decreases n.rank, 0
  {
    hide Flagged, Sorted, Increasing, Node.Tree;
    more := out;
    var names := SortNames(n.form.props.Keys);
    for i := 0 to |names|
      invariant more == out + FlaggedProps(n, at, i)
    {
      assert names[i] in names;
      KidTree(n, Name(names[i]));
      more := Walk(n.form.props[names[i]], at + [Name(names[i])], more);
    }
  }

  /** Whether every flagged value inside n is excluded, and whether there is any. */
  method AllExcluded(n: Node) returns (excluded: bool, has: bool)
    requires n.Tree()
    ensures excluded == forall e :: e in Flagged(n, []) ==> e.node.excluded
    ensures has == (Flagged(n, []) != [])
  {
    var flagged := Walk(n, [], []);
    assert flagged == Flagged(n, []);
    for i := 0 to |flagged|
      invariant forall j :: 0 <= j < i ==> flagged[j].node.excluded
    {
      if !flagged[i].node.excluded {
        assert flagged[i] in flagged;
        return false, true;
      }
    }
    return true, |flagged| > 0;
  }

  predicate FlagsInOrder(flags: seq<bool>) {
    forall i, j :: 0 <= i < j < |flags| && flags[i] ==> flags[j]
  }

  method ArrayOrder(flags: seq<bool>) returns (ok: bool)
    ensures ok == FlagsInOrder(flags)
  {
    var excluded := false;
    for i := 0 to |flags|
      invariant excluded == exists k :: 0 <= k < i && flags[k]
      invariant forall j, k :: 0 <= j < k < i && flags[j] ==> flags[k]
    {
      if flags[i] {
        excluded := true;
      } else if excluded {
        return false;
      }
    }
    return true;
  }

  function NodeSize(n: Node): nat {
    if n.form.LeafForm? && !n.form.content.Other? then |n.form.content.bytes| else 0
  }

  // ---- The checks, on messages and on values ----

  lemma {:induction false} ShortNodes(n: Node, ex: set<Node>)
    requires n.Tree()
    ensures AllShort(View(n, ex)) <==> forall m :: m in n.Nodes() ==> NodeSize(m) <= INDEX_LIMIT
    decreases n.rank
  {
    var v := View(n, ex);
    match n.form
    case LeafForm(_) =>
      assert n.Nodes() == {n} && Size(v) == NodeSize(n);
    case ArrayForm(items) =>
      forall i | 0 <= i < |items|
        ensures AllShort(v.values[i]) <==> forall m :: m in items[i].Nodes() ==> NodeSize(m) <= INDEX_LIMIT
      {
        ShortNodes(items[i], ex);
      }
    case EntityForm(_, props) =>
      forall p | p in props
        ensures AllShort(v.props[p]) <==> forall m :: m in props[p].Nodes() ==> NodeSize(m) <= INDEX_LIMIT
      {
        ShortNodes(props[p], ex);
      }
  }

  lemma ShortListed(n: Node, ex: set<Node>)
    requires n.Tree()
    ensures AllShort(View(n, ex)) <==> forall e :: e in Flagged(n, []) ==> NodeSize(e.node) <= INDEX_LIMIT
  {
    ShortNodes(n, ex);
    forall m: Node | m in n.Nodes()
      ensures (exists e :: e in Flagged(n, []) && e.node == m) <==> !m.form.ArrayForm?
    {
      FlaggedNodes(n, m);
    }
    forall e | e in Flagged(n, [])
      ensures e.node in n.Nodes()
    {
      FlaggedNodes(n, e.node);
    }
  }

  lemma FitsFlags(prop: Node, steps: seq<Step>, ex: set<Node>, flag: bool, flags: seq<bool>)
    requires prop.Tree() && At(View(prop, ex), steps).Some? && InArray(steps)
    requires NodeAt(prop, steps[..|steps| - 1]).Some? && NodeAt(prop, steps[..|steps| - 1]).value.form.ArrayForm?
    requires var items := NodeAt(prop, steps[..|steps| - 1]).value.form.items;
      |flags| == |items| && steps[|steps| - 1].i < |items| &&
      forall j :: 0 <= j < |items| ==> flags[j] == if j == steps[|steps| - 1].i then flag else items[j] in ex
    ensures Fits(View(prop, ex), steps, WithFlag(At(View(prop, ex), steps).value, flag)) == FlagsInOrder(flags)
  {
    var v := View(prop, ex);
    var k := |steps| - 1;
    ParentAt(v, steps);
    ViewAt(prop, steps[..k], ex);
    var parent := At(v, steps[..k]).value;
    var xs := WithChild(parent, steps[k], WithFlag(At(v, steps).value, flag)).values;
    assert forall j :: 0 <= j < |xs| ==> xs[j].excluded == flags[j];
  }

  /** Setting exactly the listed flags is setting the flags of the value. */
  lemma ListedFlagsSet(prop: Node, steps: seq<Step>, ex: set<Node>, ex': set<Node>, flag: bool)
    requires prop.Tree() && NodeAt(prop, steps).Some? && NodeAt(prop, steps).value.Tree()
    requires var target := NodeAt(prop, steps).value; forall m :: m in prop.Nodes() ==>
      (m in ex' <==> if m in target.Nodes() && !m.form.ArrayForm? then flag else m in ex)
    ensures At(View(prop, ex), steps).Some?
    ensures View(prop, ex') == SetFlags(View(prop, ex), steps, flag)
  {
    var target := NodeAt(prop, steps).value;
    NodeAtTree(prop, steps);
    ViewAt(prop, steps, ex);
    ViewUniform(target, ex, ex', flag);
    ViewPut(prop, steps, ex, ex');
  }

  // ---- The change ----

  method AllWithinLimit(flagged: seq<Element>) returns (short: bool)
    ensures short == forall e :: e in flagged ==> NodeSize(e.node) <= INDEX_LIMIT
  {
    for i := 0 to |flagged|
      invariant forall j :: 0 <= j < i ==> NodeSize(flagged[j].node) <= INDEX_LIMIT
    {
      if NodeSize(flagged[i].node) > INDEX_LIMIT {
        assert flagged[i] in flagged;
        return false;
      }
    }
    return true;
  }

  /** The flags of an array's values, with the one at i as it would become. */
  method NeighbourFlags(items: seq<Node>, i: nat, flag: bool) returns (flags: seq<bool>)
    requires i < |items|
    ensures |flags| == |items|
    ensures forall j :: 0 <= j < |items| ==> flags[j] == if j == i then flag else items[j].excluded
  {
    flags := [];
    for j := 0 to |items|
      invariant |flags| == j
      invariant forall k :: 0 <= k < j ==> flags[k] == items[k].excluded
    {
      flags := flags + [items[j].excluded];
    }
    flags := flags[i := flag];
  }

  method WriteFlags(flagged: seq<Element>, flag: bool)
    modifies set e | e in flagged :: e.node
    ensures forall e :: e in flagged ==> e.node.excluded == flag
  {
    for i := 0 to |flagged|
      invariant forall j :: 0 <= j < i ==> flagged[j].node.excluded == flag
    {
      assert flagged[i] in flagged;
      flagged[i].node.excluded := flag;
    }
  }

  lemma ItemsBelow(prop: Node, steps: seq<Step>)
    requires prop.Tree() && NodeAt(prop, steps).Some? && NodeAt(prop, steps).value.form.ArrayForm?
    ensures forall c :: c in NodeAt(prop, steps).value.form.items ==> c in prop.Nodes()
  {
    NodeAtTree(prop, steps);
    var parent := NodeAt(prop, steps).value;
    forall j | 0 <= j < |parent.form.items|
      ensures parent.form.items[j] in prop.Nodes()
    {
      KidTree(parent, Index(j));
    }
  }

  lemma ArrayParent(prop: Node, steps: seq<Step>, ex: set<Node>)
    requires prop.Tree() && NodeAt(prop, steps).Some? && InArray(steps)
    ensures At(View(prop, ex), steps).Some?
    ensures NodeAt(prop, steps[..|steps| - 1]).Some? && NodeAt(prop, steps[..|steps| - 1]).value.form.ArrayForm?
    ensures steps[|steps| - 1].i < |NodeAt(prop, steps[..|steps| - 1]).value.form.items|
  {
    ViewAt(prop, steps, ex);
    ParentAt(View(prop, ex), steps);
    ViewAt(prop, steps[..|steps| - 1], ex);
  }

  /** The check of an entity's neighbours in the array that holds it. */
  method NeighboursFit(prop: Node, steps: seq<Step>, flag: bool) returns (ok: bool)
    requires prop.Tree() && NodeAt(prop, steps).Some? && At(Stored(prop), steps).Some?
    ensures ok == Fits(Stored(prop), steps, WithFlag(At(Stored(prop), steps).value, flag))
  {
    hide View, NodeAt, At, FlagsInOrder, Node.Tree;
    if !InArray(steps) {
      return true;
    }
    ghost var ex := prop.Excluded();
    var k := |steps| - 1;
    ArrayParent(prop, steps, ex);
    ItemsBelow(prop, steps[..k]);
    var parent := ValueAt(prop, steps[..k]);
    var items := parent.value.form.items;
    var flags := NeighbourFlags(items, steps[k].i, flag);
    assert forall j :: 0 <= j < |items| ==> items[j] in items;
    FitsFlags(prop, steps, ex, flag, flags);
    ok := ArrayOrder(flags);
  }

  method Checked(prop: Node, steps: seq<Step>, flag: bool) returns (r: Outcome, flagged: seq<Element>)
    requires prop.Tree()
    ensures r == Check(Stored(prop), steps, flag)
    ensures r.Done? ==> NodeAt(prop, steps).Some? && NodeAt(prop, steps).value.Tree()
    ensures r.Done? ==> flagged == Flagged(NodeAt(prop, steps).value, [])
  {
    hide View, NodeAt, At, Flagged, AllShort, Fits, Node.Tree;
    flagged := [];
    ViewAt(prop, steps, prop.Excluded());
    var found := ValueAt(prop, steps);
    if found.None? {
      return NoValue, [];
    }
    var target := found.value;
    FormOfView(target, prop.Excluded());
    if target.form.LeafForm? {
      return NotContainer, [];
    }
    flagged := Walk(target, [], []);
    assert flagged == Flagged(target, []);
    ShortListed(target, prop.Excluded());
    if !flag {
      var short := AllWithinLimit(flagged);
      if !short {
        return TooLong, flagged;
      }
    }
    if target.form.EntityForm? {
      var ok := NeighboursFit(prop, steps, flag);
      if !ok {
        return Reorders, flagged;
      }
    }
    return Done, flagged;
  }

  lemma FormOfView(n: Node, ex: set<Node>)
    requires n.Tree()
    ensures View(n, ex).Leaf? == n.form.LeafForm? && View(n, ex).Entity? == n.form.EntityForm?
  {
  }

  lemma ListedIsBelow(n: Node, flagged: seq<Element>)
    requires n.Tree() && flagged == Flagged(n, [])
    ensures forall m: Node :: (exists e :: e in flagged && e.node == m) <==> m in n.Nodes() && !m.form.ArrayForm?
  {
    forall m: Node
      ensures (exists e :: e in flagged && e.node == m) <==> m in n.Nodes() && !m.form.ArrayForm?
    {
      FlaggedNodes(n, m);
    }
  }

  /** Exclude from indexes: refused as the checks say, changing nothing; else every flag inside
      the addressed array or entity is set, and nothing else about the property changes. */
  method SetExcluded(prop: Node, steps: seq<Step>, flag: bool) returns (r: Outcome)
    requires prop.Tree()
    modifies prop.Nodes()
    ensures r == Check(old(Stored(prop)), steps, flag)
    ensures r.Done? ==> At(old(Stored(prop)), steps).Some? && Stored(prop) == SetFlags(old(Stored(prop)), steps, flag)
    ensures !r.Done? ==> prop.Excluded() == old(prop.Excluded())
  {
    hide View, NodeAt, At, Flagged, Check, SetFlags, Node.Tree;
    ghost var ex := prop.Excluded();
    var flagged: seq<Element>;
    r, flagged := Checked(prop, steps, flag);
    if r.Done? {
      ghost var target := NodeAt(prop, steps).value;
      NodeAtTree(prop, steps);
      ListedIsBelow(target, flagged);
      WriteFlags(flagged, flag);
      ListedFlagsSet(prop, steps, ex, prop.Excluded(), flag);
    }
  }
}
