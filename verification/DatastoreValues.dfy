/**
 Datastore values as trees: what Exclude from indexes lists, checks and changes.

 Every value but an array carries an index flag. An array inside a value keeps its values in the
 order written only while no excluded one stands before an indexed one, and an indexed string or
 blob is at most 1,500 bytes.
 */
module DatastoreValues {
  import opened Options

  const INDEX_LIMIT := 1500

  datatype Content = Str(bytes: string) | Blob(bytes: string) | Other(wire: string)

  datatype Value =
    | Leaf(excluded: bool, meaning: int, content: Content)
    | Array(excluded: bool, meaning: int, values: seq<Value>)
    | Entity(excluded: bool, meaning: int, key: string, props: map<string, Value>)

  datatype Step = Index(i: nat) | Name(name: string)

  predicate IsContainer(v: Value) {
    v.Array? || v.Entity?
  }

  function Child(v: Value, step: Step): Option<Value> {
    match step
    case Index(i) => if v.Array? && i < |v.values| then Some(v.values[i]) else None
    case Name(n) => if v.Entity? && n in v.props then Some(v.props[n]) else None
  }

  /** The value steps address inside v. */
  function At(v: Value, steps: seq<Step>): Option<Value>
    decreases |steps|
  {
    if steps == [] then Some(v)
    else match Child(v, steps[0]) case None => None case Some(c) => At(c, steps[1..])
  }

  /** v with one child replaced. */
  function WithChild(v: Value, step: Step, c: Value): Value
    requires Child(v, step).Some?
  {
    match step
    case Index(i) => v.(values := v.values[i := c])
    case Name(n) => v.(props := v.props[n := c])
  }

  /** v with the value at steps replaced. */
  function Put(v: Value, steps: seq<Step>, u: Value): Value
    requires At(v, steps).Some?
    decreases |steps|
  {
    if steps == [] then u
    else WithChild(v, steps[0], Put(Child(v, steps[0]).value, steps[1..], u))
  }

  function WithFlag(v: Value, flag: bool): Value {
    v.(excluded := flag)
  }

  /** v with every flag inside it, its own included, set; an array's own flag is left alone. */
  function Uniform(v: Value, flag: bool): Value {
    match v
    case Leaf(_, m, c) => Leaf(flag, m, c)
    case Array(x, m, vs) => Array(x, m, seq(|vs|, i requires 0 <= i < |vs| => Uniform(vs[i], flag)))
    case Entity(_, m, k, ps) => Entity(flag, m, k, map n | n in ps :: Uniform(ps[n], flag))
  }

  function SetFlags(v: Value, steps: seq<Step>, flag: bool): Value
    requires At(v, steps).Some?
  {
    Put(v, steps, Uniform(At(v, steps).value, flag))
  }

  // ---- What a stored property keeps ----

  /** No excluded value before an indexed one. */
  predicate InOrder(values: seq<Value>) {
    forall i, j :: 0 <= i < j < |values| && values[i].excluded ==> values[j].excluded
  }

  function Size(v: Value): nat {
    if v.Leaf? && !v.content.Other? then |v.content.bytes| else 0
  }

  /** Indexed, and too long to be. */
  predicate Oversize(v: Value) {
    !v.Array? && !v.excluded && Size(v) > INDEX_LIMIT
  }

  /** As Datastore stores a property: at every depth no array holds an array, every array is in
      order, and nothing indexed is too long. */
  predicate Sound(v: Value) {
    && !Oversize(v)
    && match v
       case Leaf(_, _, _) => true
       case Array(_, _, vs) => InOrder(vs) && forall i :: 0 <= i < |vs| ==> !vs[i].Array? && Sound(vs[i])
       case Entity(_, _, _, ps) => forall n :: n in ps ==> Sound(ps[n])
  }

  /** Nothing inside v is too long to be indexed. */
  predicate AllShort(v: Value) {
    match v
    case Leaf(_, _, _) => Size(v) <= INDEX_LIMIT
    case Array(_, _, vs) => forall i :: 0 <= i < |vs| ==> AllShort(vs[i])
    case Entity(_, _, _, ps) => forall n :: n in ps ==> AllShort(ps[n])
  }

  // ---- Where flags are ----

  /** An address with everything read at it: whether it is there and its flag. */
  function FlagAt(v: Value, steps: seq<Step>): Option<bool> {
    match At(v, steps)
    case None => None
    case Some(u) => if u.Array? then None else Some(u.excluded)
  }

  /** The tree without its flags, an array's own kept. */
  function Erased(v: Value): Value {
    Uniform(v, false)
  }

  lemma {:induction false} UniformAt(v: Value, flag: bool, steps: seq<Step>)
    ensures At(v, steps).None? ==> At(Uniform(v, flag), steps).None?
    ensures At(v, steps).Some? ==> At(Uniform(v, flag), steps) == Some(Uniform(At(v, steps).value, flag))
    decreases |steps|
  {
    if steps != [] && Child(v, steps[0]).Some? {
      UniformAt(Child(v, steps[0]).value, flag, steps[1..]);
    }
  }

  lemma {:induction false} UniformTwice(v: Value, f: bool, g: bool)
    ensures Uniform(Uniform(v, f), g) == Uniform(v, g)
  {
    match v
    case Leaf(_, _, _) =>
    case Array(_, _, vs) => forall i | 0 <= i < |vs| { UniformTwice(vs[i], f, g); }
    case Entity(_, _, _, ps) => forall n | n in ps { UniformTwice(ps[n], f, g); }
  }

  lemma {:induction false} PutErased(v: Value, steps: seq<Step>, u: Value)
    requires At(v, steps).Some? && Erased(u) == Erased(At(v, steps).value)
    ensures Erased(Put(v, steps, u)) == Erased(v)
    decreases |steps|
  {
    if steps != [] {
      PutErased(Child(v, steps[0]).value, steps[1..], u);
    }
  }

  /** What is read at q after the value at steps is replaced. */
  lemma {:induction false} PutAt(v: Value, steps: seq<Step>, u: Value, q: seq<Step>)
    requires At(v, steps).Some?
    ensures steps <= q ==> At(Put(v, steps, u), q) == At(u, q[|steps|..])
    ensures !(steps <= q) && !(q <= steps) ==> At(Put(v, steps, u), q) == At(v, q)
    ensures q < steps ==> At(v, q).Some? && At(Put(v, steps, u), q).Some?
    ensures q < steps ==> At(Put(v, steps, u), q).value.excluded == At(v, q).value.excluded
    ensures q < steps ==> At(Put(v, steps, u), q).value.Array? == At(v, q).value.Array?
    decreases |steps|
  {
    if steps != [] && q != [] && q[0] == steps[0] {
      PutAt(Child(v, steps[0]).value, steps[1..], u, q[1..]);
      assert steps <= q <==> steps[1..] <= q[1..];
      assert q <= steps <==> q[1..] <= steps[1..];
      if steps <= q {
        assert q[1..][|steps| - 1..] == q[|steps|..];
      }
    }
  }

  /** Setting the flags at steps: every flag at or below steps is the one asked for, every other
      flag is as it was, and nothing but flags changes. */
  lemma SetFlagsExactly(v: Value, steps: seq<Step>, flag: bool, q: seq<Step>)
    requires At(v, steps).Some?
    ensures FlagAt(SetFlags(v, steps, flag), q) ==
      if FlagAt(v, q).Some? && steps <= q then Some(flag) else FlagAt(v, q)
    ensures Erased(SetFlags(v, steps, flag)) == Erased(v)
  {
    var u := At(v, steps).value;
    UniformTwice(u, flag, false);
    PutErased(v, steps, Uniform(u, flag));
    PutAt(v, steps, Uniform(u, flag), q);
    if steps <= q {
      UniformAt(u, flag, q[|steps|..]);
      PutAt(v, steps, u, q);
      PutBack(v, steps);
    }
  }

  lemma {:induction false} PutBack(v: Value, steps: seq<Step>)
    requires At(v, steps).Some?
    ensures Put(v, steps, At(v, steps).value) == v
    decreases |steps|
  {
    if steps != [] {
      PutBack(Child(v, steps[0]).value, steps[1..]);
    }
  }

  // ---- What is refused ----

  datatype Outcome = Done | NoValue | NotContainer | TooLong | Reorders

  /** The array holding the value at steps, when its last step is an index. */
  predicate InArray(steps: seq<Step>) {
    steps != [] && steps[|steps| - 1].Index?
  }

  lemma {:induction false} ParentAt(v: Value, steps: seq<Step>)
    requires At(v, steps).Some? && steps != []
    ensures At(v, steps[..|steps| - 1]).Some?
    ensures Child(At(v, steps[..|steps| - 1]).value, steps[|steps| - 1]) == At(v, steps)
    decreases |steps|
  {
    var k := |steps| - 1;
    if k > 0 {
      ParentAt(Child(v, steps[0]).value, steps[1..]);
      assert steps[1..][..k - 1] == steps[..k][1..];
    } else {
      assert steps[..k] == [] && steps[1..] == [];
    }
  }

  /** The neighbours of the value at steps, with u in its place, are in order. */
  predicate Fits(v: Value, steps: seq<Step>, u: Value)
    requires At(v, steps).Some?
  {
    if InArray(steps) then
      ParentAt(v, steps);
      InOrder(WithChild(At(v, steps[..|steps| - 1]).value, steps[|steps| - 1], u).values)
    else true
  }

  function Check(v: Value, steps: seq<Step>, flag: bool): Outcome {
    match At(v, steps)
    case None => NoValue
    case Some(u) =>
      if !IsContainer(u) then NotContainer
      else if !flag && !AllShort(u) then TooLong
      else if u.Entity? && !Fits(v, steps, WithFlag(u, flag)) then Reorders
      else Done
  }

  lemma {:induction false} UniformSound(v: Value, flag: bool)
    requires Sound(v)
    ensures Sound(Uniform(v, flag)) <==> flag || AllShort(v)
  {
    match v
    case Leaf(_, _, _) =>
    case Array(_, _, vs) =>
      forall i | 0 <= i < |vs| { UniformSound(vs[i], flag); }
      var us := Uniform(v, flag).values;
      assert forall i :: 0 <= i < |vs| ==> us[i] == Uniform(vs[i], flag) && us[i].excluded == flag;
      if !flag && Sound(Uniform(v, flag)) {
        assert forall i :: 0 <= i < |vs| ==> Sound(us[i]) && AllShort(vs[i]);
      }
    case Entity(_, _, _, ps) =>
      forall n | n in ps { UniformSound(ps[n], flag); }
      var us := Uniform(v, flag).props;
      assert forall n :: n in ps ==> us[n] == Uniform(ps[n], flag);
      if !flag && Sound(Uniform(v, flag)) {
        assert forall n :: n in ps ==> Sound(us[n]) && AllShort(ps[n]);
      }
  }

  lemma {:induction false} PutSound(v: Value, steps: seq<Step>, u: Value)
    requires Sound(v) && At(v, steps).Some? && u.Array? == At(v, steps).value.Array?
    ensures Sound(Put(v, steps, u)) <==> Sound(u) && Fits(v, steps, u)
    decreases |steps|
  {
    if steps != [] {
      var c := Child(v, steps[0]).value;
      var c' := Put(c, steps[1..], u);
      PutSound(c, steps[1..], u);
      PutAt(c, steps[1..], u, []);
      ChildSound(v, steps[0], c');
      if |steps| == 1 {
        assert steps[..0] == [] && steps[1..] == [];
      } else {
        ParentAt(v, steps);
        ParentAt(c, steps[1..]);
        assert steps[1..][..|steps| - 2] == steps[..|steps| - 1][1..];
        assert InArray(steps) == InArray(steps[1..]);
        assert c'.excluded == c.excluded;
        assert v.Array? ==> InOrder(WithChild(v, steps[0], c').values);
      }
    }
  }

  lemma ChildSound(v: Value, step: Step, c: Value)
    requires Sound(v) && Child(v, step).Some? && c.Array? == Child(v, step).value.Array?
    ensures Sound(WithChild(v, step, c)) <==> Sound(c) && (v.Array? ==> InOrder(WithChild(v, step, c).values))
  {
    var w := WithChild(v, step, c);
    match step
    case Index(i) =>
      assert w.values[i] == c;
    case Name(n) =>
      assert w.props[n] == c;
  }

  /** On a stored property the change is made exactly when the changed property could be stored. */
  lemma DoneIffSound(v: Value, steps: seq<Step>, flag: bool)
    requires Sound(v) && At(v, steps).Some? && IsContainer(At(v, steps).value)
    ensures Check(v, steps, flag).Done? <==> Sound(SetFlags(v, steps, flag))
  {
    var u := At(v, steps).value;
    AtSound(v, steps);
    UniformSound(u, flag);
    PutSound(v, steps, Uniform(u, flag));
    if u.Entity? {
      FitsByFlag(v, steps, Uniform(u, flag), WithFlag(u, flag));
    }
  }

  /** Which refusal, on a stored property: nothing at the steps, a value that holds no others, values
      inside too long to be indexed, or, with those in order, an entity that would be stored before
      or behind its neighbours. */
  lemma RefusalMeans(v: Value, steps: seq<Step>, flag: bool)
    requires Sound(v)
    ensures Check(v, steps, flag) == NoValue <==> At(v, steps).None?
    ensures Check(v, steps, flag) == NotContainer <==> At(v, steps).Some? && At(v, steps).value.Leaf?
    ensures At(v, steps).Some? && !At(v, steps).value.Leaf? ==>
      var inside := Sound(Uniform(At(v, steps).value, flag));
      && (Check(v, steps, flag) == TooLong <==> !inside)
      && (Check(v, steps, flag) == Reorders <==> inside && !Sound(SetFlags(v, steps, flag)))
  {
    if At(v, steps).Some? && !At(v, steps).value.Leaf? {
      AtSound(v, steps);
      UniformSound(At(v, steps).value, flag);
      DoneIffSound(v, steps, flag);
    }
  }

  lemma FitsByFlag(v: Value, steps: seq<Step>, a: Value, b: Value)
    requires At(v, steps).Some? && a.excluded == b.excluded
    ensures Fits(v, steps, a) == Fits(v, steps, b)
  {
    if InArray(steps) {
      ParentAt(v, steps);
      var parent, i := At(v, steps[..|steps| - 1]).value, steps[|steps| - 1].i;
      var xs, ys := parent.values[i := a], parent.values[i := b];
      assert forall k :: 0 <= k < |xs| ==> xs[k].excluded == ys[k].excluded;
    }
  }

  lemma {:induction false} AtSound(v: Value, steps: seq<Step>)
    requires Sound(v) && At(v, steps).Some?
    ensures Sound(At(v, steps).value)
    ensures InArray(steps) ==> !At(v, steps).value.Array?
    decreases |steps|
  {
    if steps != [] {
      AtSound(Child(v, steps[0]).value, steps[1..]);
    }
  }
}
