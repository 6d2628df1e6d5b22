/**
 The stored property as the linked messages the console edits in place: Exclude from indexes
 writes only flags, each reached through its own path.
 */
module DatastoreNodes {
  import opened ByteOrder
  import opened Options
  import opened DatastoreValues

  datatype Form =
    | LeafForm(content: Content)
    | ArrayForm(items: seq<Node>)
    | EntityForm(key: string, props: map<string, Node>)

  class Node {
    var excluded: bool
    const meaning: int
    const form: Form
    ghost const rank: nat
    ghost const below: set<Node>

    constructor (excluded: bool, meaning: int, form: Form, ghost rank: nat, ghost others: set<Node>)
      ensures this.excluded == excluded && this.meaning == meaning && this.form == form
      ensures this.rank == rank && below == {this} + others
    {
      this.excluded, this.meaning, this.form, this.rank := excluded, meaning, form, rank;
      this.below := {this} + others;
    }

    /** The messages below form a tree: no cycle, and no message held twice. */
    ghost predicate Tree()
      decreases rank
    {
      match form
      case LeafForm(_) => below == {this}
      case ArrayForm(items) =>
        && (forall i :: 0 <= i < |items| ==> items[i].rank < rank && items[i].Tree())
        && (forall i, j :: 0 <= i < j < |items| ==> items[i].Nodes() !! items[j].Nodes())
        && below == {this} + set i, m | 0 <= i < |items| && m in items[i].Nodes() :: m
      case EntityForm(_, props) =>
        && (forall n :: n in props ==> props[n].rank < rank && props[n].Tree())
        && (forall m, n :: m in props && n in props && m != n ==> props[m].Nodes() !! props[n].Nodes())
        && below == {this} + set n, m | n in props && m in props[n].Nodes() :: m
    }

    /** This message and every one below it. */
    ghost function Nodes(): set<Node> {
      below
    }

    /** The messages below whose flag is set. */
    ghost function Excluded(): set<Node>
      requires Tree()
      reads Nodes()
    {
      set m | m in Nodes() && m.excluded
    }
  }

  /** The value a tree of messages holds, given which of them are excluded. */
  ghost function View(n: Node, ex: set<Node>): Value
    requires n.Tree()
    decreases n.rank
  {
    match n.form
    case LeafForm(c) => Leaf(n in ex, n.meaning, c)
    case ArrayForm(items) =>
      Array(n in ex, n.meaning, seq(|items|, i requires 0 <= i < |items| => View(items[i], ex)))
    case EntityForm(key, props) =>
      Entity(n in ex, n.meaning, key, map name | name in props :: View(props[name], ex))
  }

  function Kid(n: Node, step: Step): Option<Node> {
    match step
    case Index(i) => if n.form.ArrayForm? && i < |n.form.items| then Some(n.form.items[i]) else None
    case Name(name) => if n.form.EntityForm? && name in n.form.props then Some(n.form.props[name]) else None
  }

  function NodeAt(n: Node, steps: seq<Step>): Option<Node>
    decreases |steps|
  {
    if steps == [] then Some(n)
    else match Kid(n, steps[0]) case None => None case Some(c) => NodeAt(c, steps[1..])
  }

  lemma KidTree(n: Node, step: Step)
    requires n.Tree() && Kid(n, step).Some?
    ensures Kid(n, step).value.Tree() && Kid(n, step).value.rank < n.rank
    ensures Kid(n, step).value.Nodes() <= n.Nodes()
  {
  }

  lemma {:induction false} NodesRank(n: Node)
    requires n.Tree()
    ensures forall m :: m in n.Nodes() ==> m == n || m.rank < n.rank
    decreases n.rank
  {
    match n.form
    case LeafForm(_) =>
    case ArrayForm(items) => forall i | 0 <= i < |items| { NodesRank(items[i]); }
    case EntityForm(_, props) => forall p | p in props { NodesRank(props[p]); }
  }

  /** Different children hold different messages, none of them the parent. */
  lemma KidsApart(n: Node, s: Step, t: Step)
    requires n.Tree() && Kid(n, s).Some? && Kid(n, t).Some? && s != t
    ensures Kid(n, s).value.Tree() && Kid(n, t).value.Tree()
    ensures Kid(n, s).value.Nodes() !! Kid(n, t).value.Nodes()
    ensures n !in Kid(n, s).value.Nodes()
  {
    KidTree(n, s);
    KidTree(n, t);
    NodesRank(Kid(n, s).value);
    if s.Index? && t.Index? && s.i > t.i {
      assert n.form.items[t.i].Nodes() !! n.form.items[s.i].Nodes();
    }
  }

  lemma {:induction false} NodeAtTree(n: Node, steps: seq<Step>)
    requires n.Tree() && NodeAt(n, steps).Some?
    ensures NodeAt(n, steps).value.Tree()
    ensures NodeAt(n, steps).value.Nodes() <= n.Nodes()
    decreases |steps|
  {
    if steps != [] {
      KidTree(n, steps[0]);
      NodeAtTree(Kid(n, steps[0]).value, steps[1..]);
    }
  }

  // ---- Views ----

  lemma {:induction false} ViewFrame(n: Node, ex: set<Node>, ex': set<Node>)
    requires n.Tree()
    requires forall m :: m in n.Nodes() ==> (m in ex <==> m in ex')
    ensures View(n, ex) == View(n, ex')
    decreases n.rank
  {
    match n.form
    case LeafForm(_) =>
    case ArrayForm(items) =>
      forall i | 0 <= i < |items| { ViewFrame(items[i], ex, ex'); }
    case EntityForm(_, props) =>
      forall p | p in props { ViewFrame(props[p], ex, ex'); }
  }

  lemma {:induction false} ViewUniform(n: Node, ex: set<Node>, ex': set<Node>, flag: bool)
    requires n.Tree()
    requires forall m :: m in n.Nodes() ==> (m in ex' <==> if m.form.ArrayForm? then m in ex else flag)
    ensures View(n, ex') == Uniform(View(n, ex), flag)
    decreases n.rank
  {
    match n.form
    case LeafForm(_) =>
    case ArrayForm(items) =>
      forall i | 0 <= i < |items| { ViewUniform(items[i], ex, ex', flag); }
    case EntityForm(_, props) =>
      forall p | p in props { ViewUniform(props[p], ex, ex', flag); }
  }

  lemma {:induction false} ViewAt(n: Node, steps: seq<Step>, ex: set<Node>)
    requires n.Tree()
    ensures At(View(n, ex), steps).Some? <==> NodeAt(n, steps).Some?
    ensures NodeAt(n, steps).Some? ==> NodeAt(n, steps).value.Tree()
    ensures NodeAt(n, steps).Some? ==> At(View(n, ex), steps).value == View(NodeAt(n, steps).value, ex)
    decreases |steps|
  {
    if steps != [] && Kid(n, steps[0]).Some? {
      KidTree(n, steps[0]);
      ViewAt(Kid(n, steps[0]).value, steps[1..], ex);
    }
  }

  /** A change confined to one child leaves the other children's views, and the parent's flag. */
  lemma KidsUnchanged(n: Node, s: Step, t: Step, ex: set<Node>, ex': set<Node>)
    requires n.Tree() && Kid(n, s).Some? && Kid(n, s).value.Tree()
    requires Kid(n, t).Some? && t != s
    requires forall m :: m in n.Nodes() && m !in Kid(n, s).value.Nodes() ==> (m in ex <==> m in ex')
    ensures Kid(n, t).value.Tree() && View(Kid(n, t).value, ex') == View(Kid(n, t).value, ex)
  {
    KidTree(n, t);
    KidsApart(n, s, t);
    ViewFrame(Kid(n, t).value, ex, ex');
  }

  lemma ViewWithKid(n: Node, s: Step, ex: set<Node>, ex': set<Node>)
    requires n.Tree() && Kid(n, s).Some? && Kid(n, s).value.Tree()
    requires forall m :: m in n.Nodes() && m !in Kid(n, s).value.Nodes() ==> (m in ex <==> m in ex')
    ensures View(n, ex') == WithChild(View(n, ex), s, View(Kid(n, s).value, ex'))
  {
    NodesRank(Kid(n, s).value);
    KidTree(n, s);
    forall t | t != s && Kid(n, t).Some?
      ensures Kid(n, t).value.Tree() && View(Kid(n, t).value, ex') == View(Kid(n, t).value, ex)
    {
      KidsUnchanged(n, s, t, ex, ex');
    }
    OtherKids(n, s, ex, ex');
  }

  lemma {:induction false} ViewPut(n: Node, steps: seq<Step>, ex: set<Node>, ex': set<Node>)
    requires n.Tree() && NodeAt(n, steps).Some? && NodeAt(n, steps).value.Tree()
    requires At(View(n, ex), steps).Some?
    requires forall m :: m in n.Nodes() && m !in NodeAt(n, steps).value.Nodes() ==> (m in ex <==> m in ex')
    ensures View(n, ex') == Put(View(n, ex), steps, View(NodeAt(n, steps).value, ex'))
    decreases |steps|
  {
    if steps != [] {
      var s := steps[0];
      var c := Kid(n, s).value;
      KidTree(n, s);
      NodeAtTree(c, steps[1..]);
      ViewPut(c, steps[1..], ex, ex');
      ViewWithKid(n, s, ex, ex');
    }
  }

  lemma OtherKids(n: Node, s: Step, ex: set<Node>, ex': set<Node>)
    requires n.Tree() && Kid(n, s).Some? && Kid(n, s).value.Tree()
    requires n in ex <==> n in ex'
    requires forall t :: t != s && Kid(n, t).Some? ==>
      Kid(n, t).value.Tree() && View(Kid(n, t).value, ex') == View(Kid(n, t).value, ex)
    ensures View(n, ex') == WithChild(View(n, ex), s, View(Kid(n, s).value, ex'))
  {
    if s.Index? {
      OtherItems(n, s.i, ex, ex');
    } else {
      OtherProps(n, s.name, ex, ex');
    }
  }

  lemma OtherItems(n: Node, i: nat, ex: set<Node>, ex': set<Node>)
    requires n.Tree() && n.form.ArrayForm? && i < |n.form.items| && n.form.items[i].Tree()
    requires n in ex <==> n in ex'
    requires forall t :: t != Index(i) && Kid(n, t).Some? ==>
      Kid(n, t).value.Tree() && View(Kid(n, t).value, ex') == View(Kid(n, t).value, ex)
    ensures View(n, ex') == WithChild(View(n, ex), Index(i), View(n.form.items[i], ex'))
  {
    forall j | 0 <= j < |n.form.items| && j != i
      ensures View(n, ex').values[j] == View(n, ex).values[j]
    {
      assert Kid(n, Index(j)) == Some(n.form.items[j]);
    }
    assert View(n, ex').values == View(n, ex).values[i := View(n.form.items[i], ex')];
  }

  lemma OtherProps(n: Node, name: string, ex: set<Node>, ex': set<Node>)
    requires n.Tree() && n.form.EntityForm? && name in n.form.props && n.form.props[name].Tree()
    requires n in ex <==> n in ex'
    requires forall t :: t != Name(name) && Kid(n, t).Some? ==>
      Kid(n, t).value.Tree() && View(Kid(n, t).value, ex') == View(Kid(n, t).value, ex)
    ensures View(n, ex') == WithChild(View(n, ex), Name(name), View(n.form.props[name], ex'))
  {
    hide View, Node.Tree;
    ViewProps(n, ex);
    ViewProps(n, ex');
    forall p | p in n.form.props && p != name
      ensures View(n, ex').props[p] == View(n, ex).props[p]
    {
      assert Kid(n, Name(p)) == Some(n.form.props[p]);
    }
    assert View(n, ex').props == View(n, ex).props[name := View(n.form.props[name], ex')];
  }

  lemma ViewProps(n: Node, ex: set<Node>)
    requires n.Tree() && n.form.EntityForm?
    ensures View(n, ex) == Entity(n in ex, n.meaning, n.form.key, View(n, ex).props)
    ensures View(n, ex).props.Keys == n.form.props.Keys
    ensures forall p :: p in n.form.props ==> n.form.props[p].Tree() && View(n, ex).props[p] == View(n.form.props[p], ex)
  {
  }

  // ---- The flagged messages ----

  datatype Element = Element(steps: seq<Step>, node: Node)

  /** Every message with a flag of its own, with the steps that lead to it, in the order of the
      Elements tab: an array's values by index, an entity before its properties by name. */
  ghost function Flagged(n: Node, at: seq<Step>): seq<Element>
    requires n.Tree()
    decreases n.rank, 1, 0
  {
    match n.form
    case LeafForm(_) => [Element(at, n)]
    case ArrayForm(items) => FlaggedItems(n, at, |items|)
    case EntityForm(_, props) => [Element(at, n)] + FlaggedProps(n, at, |Sorted(props.Keys)|)
  }

  ghost function FlaggedItems(n: Node, at: seq<Step>, k: nat): seq<Element>
    requires n.Tree() && n.form.ArrayForm? && k <= |n.form.items|
    decreases n.rank, 0, k
  {
    if k == 0 then []
    else FlaggedItems(n, at, k - 1) + Flagged(n.form.items[k - 1], at + [Index(k - 1)])
  }

  ghost function FlaggedProps(n: Node, at: seq<Step>, k: nat): seq<Element>
    requires n.Tree() && n.form.EntityForm? && k <= |Sorted(n.form.props.Keys)|
    decreases n.rank, 0, k
  {
    if k == 0 then []
    else
      var name := Sorted(n.form.props.Keys)[k - 1];
      FlaggedProps(n, at, k - 1) + Flagged(n.form.props[name], at + [Name(name)])
  }

  /** e is a flagged message below n, reached by its own steps. */
  ghost predicate Reached(n: Node, at: seq<Step>, e: Element) {
    && at <= e.steps
    && NodeAt(n, e.steps[|at|..]) == Some(e.node)
    && !e.node.form.ArrayForm?
  }

  /** Reached through the child that step leads to. */
  ghost predicate ReachedBy(n: Node, at: seq<Step>, step: Step, e: Element) {
    Kid(n, step).Some? && Reached(Kid(n, step).value, at + [step], e)
  }

  lemma ReachedSplit(n: Node, at: seq<Step>, e: Element)
    ensures Reached(n, at, e) <==>
      || (e == Element(at, n) && !n.form.ArrayForm?)
      || (|at| < |e.steps| && ReachedBy(n, at, e.steps[|at|], e))
    ensures forall step :: ReachedBy(n, at, step, e) ==> |at| < |e.steps| && e.steps[|at|] == step
  {
    if at <= e.steps && |at| < |e.steps| {
      var step := e.steps[|at|];
      assert e.steps[|at|..][1..] == e.steps[|at| + 1..];
      assert at + [step] <= e.steps;
    }
    if at <= e.steps && |at| == |e.steps| {
      assert e.steps == at && e.steps[|at|..] == [];
    }
    forall step | ReachedBy(n, at, step, e)
      ensures |at| < |e.steps| && e.steps[|at|] == step
    {
      assert (at + [step])[|at|] == step;
    }
  }

  /** The listing holds exactly the flagged messages, each with steps that address it. */
  lemma {:induction false} FlaggedExact(n: Node, at: seq<Step>, e: Element)
    requires n.Tree()
    ensures e in Flagged(n, at) <==> Reached(n, at, e)
    decreases n.rank, 1, 0
  {
    ReachedSplit(n, at, e);
    match n.form
    case LeafForm(_) =>
    case ArrayForm(items) =>
      FlaggedItemsExact(n, at, |items|, e);
    case EntityForm(_, props) =>
      FlaggedPropsExact(n, at, |Sorted(props.Keys)|, e);
      if |at| < |e.steps| && ReachedBy(n, at, e.steps[|at|], e) {
        var name := e.steps[|at|].name;
        assert name in Sorted(props.Keys);
      }
  }

  lemma {:induction false} FlaggedItemsExact(n: Node, at: seq<Step>, k: nat, e: Element)
    requires n.Tree() && n.form.ArrayForm? && k <= |n.form.items|
    ensures e in FlaggedItems(n, at, k) <==> exists i :: 0 <= i < k && ReachedBy(n, at, Index(i), e)
    decreases n.rank, 0, k
  {
    hide Flagged, Reached, Node.Tree;
    if k > 0 {
      FlaggedItemsExact(n, at, k - 1, e);
      KidTree(n, Index(k - 1));
      FlaggedExact(n.form.items[k - 1], at + [Index(k - 1)], e);
      assert e in Flagged(n.form.items[k - 1], at + [Index(k - 1)]) <==> ReachedBy(n, at, Index(k - 1), e);
    }
  }

  lemma {:induction false} FlaggedPropsExact(n: Node, at: seq<Step>, k: nat, e: Element)
    requires n.Tree() && n.form.EntityForm? && k <= |Sorted(n.form.props.Keys)|
    ensures e in FlaggedProps(n, at, k) <==>
      exists i :: 0 <= i < k && ReachedBy(n, at, Name(Sorted(n.form.props.Keys)[i]), e)
    decreases n.rank, 0, k
  {
    hide Flagged, Reached, Sorted, Node.Tree;
    if k > 0 {
      FlaggedPropsExact(n, at, k - 1, e);
      var name := Sorted(n.form.props.Keys)[k - 1];
      assert name in Sorted(n.form.props.Keys);
      KidTree(n, Name(name));
      FlaggedExact(n.form.props[name], at + [Name(name)], e);
      assert e in Flagged(n.form.props[name], at + [Name(name)]) <==> ReachedBy(n, at, Name(name), e);
    }
  }

  /** An index before a later one, a name before one above it in byte order. */
  predicate StepBefore(a: Step, b: Step) {
    if a.Index? then b.Index? && a.i < b.i else b.Name? && Less(a.name, b.name)
  }

  predicate PartAt(p: seq<Step>, q: seq<Step>, k: nat) {
    k < |p| && k < |q| && p[..k] == q[..k] && StepBefore(p[k], q[k])
  }

  /** A value before those inside it, and otherwise by the first step where the two part. */
  predicate Precedes(p: seq<Step>, q: seq<Step>) {
    p < q || exists k: nat :: k < |p| && PartAt(p, q, k)
  }

  ghost predicate Listed(es: seq<Element>) {
    forall i, j :: 0 <= i < j < |es| ==> Precedes(es[i].steps, es[j].steps)
  }

  lemma ListedAppend(a: seq<Element>, b: seq<Element>)
    requires Listed(a) && Listed(b)
    requires forall x, y :: x in a && y in b ==> Precedes(x.steps, y.steps)
    ensures Listed(a + b)
  {
    hide Precedes;
    var es := a + b;
    forall i, j | 0 <= i < j < |es|
      ensures Precedes(es[i].steps, es[j].steps)
    {
      if i < |a| <= j {
        assert es[i] in a && es[j] in b;
      }
    }
  }

  lemma PartHere(n: Node, at: seq<Step>, a: Step, b: Step, x: Element, y: Element)
    requires ReachedBy(n, at, a, x) && ReachedBy(n, at, b, y) && StepBefore(a, b)
    ensures Precedes(x.steps, y.steps)
  {
    ReachedSplit(n, at, x);
    ReachedSplit(n, at, y);
    assert x.steps[..|at|] == (at + [a])[..|at|] == at && y.steps[..|at|] == (at + [b])[..|at|] == at;
    assert PartAt(x.steps, y.steps, |at|);
  }

  /** The listing is in order: an entity before its properties, these by name, and an array's values
      by index, at every depth. */
  lemma {:induction false} FlaggedInOrder(n: Node, at: seq<Step>)
    requires n.Tree()
    ensures Listed(Flagged(n, at))
    decreases n.rank, 1, 0
  {
    hide FlaggedItems, FlaggedProps, Reached, Sorted, Increasing, Node.Tree;
    match n.form
    case LeafForm(_) =>
    case ArrayForm(items) => FlaggedItemsInOrder(n, at, |items|);
    case EntityForm(_, props) =>
      var k := |Sorted(props.Keys)|;
      FlaggedPropsInOrder(n, at, k);
      forall y | y in FlaggedProps(n, at, k)
        ensures Precedes(at, y.steps)
      {
        FlaggedPropsExact(n, at, k, y);
        ReachedSplit(n, at, y);
        InsideIsLonger(n, at, y);
      }
      ListedAppend([Element(at, n)], FlaggedProps(n, at, k));
  }

  lemma InsideIsLonger(n: Node, at: seq<Step>, y: Element)
    requires exists step :: ReachedBy(n, at, step, y)
    ensures at < y.steps
  {
    var step :| ReachedBy(n, at, step, y);
    assert at < at + [step] <= y.steps;
  }

  lemma {:induction false} FlaggedItemsInOrder(n: Node, at: seq<Step>, k: nat)
    requires n.Tree() && n.form.ArrayForm? && k <= |n.form.items|
    ensures Listed(FlaggedItems(n, at, k))
    decreases n.rank, 0, k
  {
    hide Flagged, Reached, Node.Tree, Precedes;
    if k > 0 {
      KidTree(n, Index(k - 1));
      var a, b := FlaggedItems(n, at, k - 1), Flagged(n.form.items[k - 1], at + [Index(k - 1)]);
      FlaggedItemsInOrder(n, at, k - 1);
      FlaggedInOrder(n.form.items[k - 1], at + [Index(k - 1)]);
      forall x, y | x in a && y in b
        ensures Precedes(x.steps, y.steps)
      {
        FlaggedItemsExact(n, at, k - 1, x);
        FlaggedExact(n.form.items[k - 1], at + [Index(k - 1)], y);
        assert ReachedBy(n, at, Index(k - 1), y);
        var i :| 0 <= i < k - 1 && ReachedBy(n, at, Index(i), x);
        PartHere(n, at, Index(i), Index(k - 1), x, y);
      }
      ListedAppend(a, b);
    }
  }

  lemma {:induction false} FlaggedPropsInOrder(n: Node, at: seq<Step>, k: nat)
    requires n.Tree() && n.form.EntityForm? && k <= |Sorted(n.form.props.Keys)|
    ensures Listed(FlaggedProps(n, at, k))
    decreases n.rank, 0, k
  {
    hide Flagged, Reached, Sorted, Node.Tree, Precedes;
    if k > 0 {
      var names := Sorted(n.form.props.Keys);
      var name := names[k - 1];
      assert name in names;
      KidTree(n, Name(name));
      var a, b := FlaggedProps(n, at, k - 1), Flagged(n.form.props[name], at + [Name(name)]);
      FlaggedPropsInOrder(n, at, k - 1);
      FlaggedInOrder(n.form.props[name], at + [Name(name)]);
      forall x, y | x in a && y in b
        ensures Precedes(x.steps, y.steps)
      {
        FlaggedPropsExact(n, at, k - 1, x);
        FlaggedExact(n.form.props[name], at + [Name(name)], y);
        assert ReachedBy(n, at, Name(name), y);
        var i :| 0 <= i < k - 1 && ReachedBy(n, at, Name(names[i]), x);
        assert Less(names[i], name);
        PartHere(n, at, Name(names[i]), Name(name), x, y);
      }
      ListedAppend(a, b);
    }
  }

  lemma PrecedesOther(p: seq<Step>, q: seq<Step>)
    requires Precedes(p, q)
    ensures p != q
  {
    if k: nat :| k < |p| && PartAt(p, q, k) {
      if p[k].Name? {
        LessIrreflexive(p[k].name);
      }
    }
  }

  /** No address is listed twice. */
  lemma FlaggedOnce(n: Node, at: seq<Step>)
    requires n.Tree()
    ensures forall i, j :: 0 <= i < j < |Flagged(n, at)| ==> Flagged(n, at)[i].steps != Flagged(n, at)[j].steps
  {
    hide Precedes, Flagged, Node.Tree;
    FlaggedInOrder(n, at);
    var es := Flagged(n, at);
    forall i, j | 0 <= i < j < |es|
      ensures es[i].steps != es[j].steps
    {
      PrecedesOther(es[i].steps, es[j].steps);
    }
  }

  lemma {:induction false} NodeReachable(n: Node, m: Node) returns (steps: seq<Step>)
    requires n.Tree() && m in n.Nodes()
    ensures NodeAt(n, steps) == Some(m)
    decreases n.rank
  {
    if m == n {
      steps := [];
    } else {
      var s: Step;
      match n.form {
        case ArrayForm(items) =>
          var i :| 0 <= i < |items| && m in items[i].Nodes();
          s := Index(i);
        case EntityForm(_, props) =>
          var p :| p in props && m in props[p].Nodes();
          s := Name(p);
      }
      var rest := NodeReachable(Kid(n, s).value, m);
      steps := [s] + rest;
      assert steps[1..] == rest;
    }
  }

  /** The listed messages are exactly those below n that are not arrays. */
  lemma FlaggedNodes(n: Node, m: Node)
    requires n.Tree()
    ensures (exists e :: e in Flagged(n, []) && e.node == m) <==> m in n.Nodes() && !m.form.ArrayForm?
  {
    if m in n.Nodes() && !m.form.ArrayForm? {
      var steps := NodeReachable(n, m);
      assert steps[0..] == steps;
      FlaggedExact(n, [], Element(steps, m));
    }
    forall e | e in Flagged(n, []) && e.node == m
      ensures m in n.Nodes() && !m.form.ArrayForm?
    {
      FlaggedExact(n, [], e);
      NodeAtTree(n, e.steps[0..]);
    }
  }
}
