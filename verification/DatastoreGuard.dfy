/**
 Value actions against concurrent writers: each carries the digest of the property its page was
 drawn from, and is one lookup and one commit in a transaction.

 The digest is any function from values to text; what is proved of it is that equal properties
 agree, and, where it separates two values, that the action found the one it was drawn from.
 */
module DatastoreGuard {
  import opened DatastoreValues
  import opened Options
  import Text

  type Digest = Value -> string

  type Change = Value -> Option<Value>

  datatype Failure = NoEntity | NoProperty | NotSaid | ChangedSince | Declined | Aborted

  datatype Attempt = Fails(why: Failure) | Changes(found: Value, props: map<string, Value>)

  function CheckExpected(digest: Digest, prop: Value, expected: string): Option<Failure> {
    if Text.Trim(expected) == "" then Some(NotSaid)
    else if digest(prop) != Text.Trim(expected) then Some(ChangedSince)
    else None
  }

  /** What the transaction would write, from the properties its lookup returned. */
  function ChangeDrawn(digest: Digest, props: map<string, Value>, name: string, expected: string, change: Change): Attempt {
    if name !in props then Fails(NoProperty)
    else match CheckExpected(digest, props[name], expected)
      case Some(why) => Fails(why)
      case None =>
        match change(props[name])
        case None => Fails(Declined)
        case Some(v) => Changes(props[name], props[name := v])
  }

  // ---- Runs ----

  /** An entity as stored, with the stamp of the write that stored it. */
  datatype Row = Row(stamp: nat, props: map<string, Value>)

  datatype Tx = Tx(entity: string, name: string, expected: string, change: Change, seen: Option<Row>)

  /** A committed action: the entity just before and just after it. */
  datatype Commit = Commit(tx: Tx, before: map<string, Value>, after: map<string, Value>)

  datatype State = State(clock: nat, rows: map<string, Row>, open: seq<Tx>, log: seq<Commit>)

  datatype Step =
    | Begin(entity: string, name: string, expected: string, change: Change)
    | Finish(i: nat)
    | Write(entity: string, props: Option<map<string, Value>>)

  const EMPTY := State(0, map[], [], [])

  function Look(s: State, entity: string): Option<Row> {
    if entity in s.rows then Some(s.rows[entity]) else None
  }

  function Outcome(digest: Digest, s: State, tx: Tx): Attempt {
    match tx.seen
    case None => Fails(NoEntity)
    case Some(row) =>
      var attempt := ChangeDrawn(digest, row.props, tx.name, tx.expected, tx.change);
      if attempt.Changes? && (tx.entity !in s.rows || s.rows[tx.entity].stamp != row.stamp) then Fails(Aborted)
      else attempt
  }

  function Store(s: State, entity: string, props: map<string, Value>): State {
    s.(clock := s.clock + 1, rows := s.rows[entity := Row(s.clock, props)])
  }

  /** One step: a transaction begins with its lookup, a transaction finishes, or another writer
      stores or deletes an entity. A transaction finishes at most once. */
  function Apply(digest: Digest, s: State, step: Step): State {
    match step
    case Begin(entity, name, expected, change) =>
      s.(open := s.open + [Tx(entity, name, expected, change, Look(s, entity))])
    case Finish(i) =>
      if i >= |s.open| then s
      else
        var tx := s.open[i];
        var rest := s.(open := s.open[i := tx.(seen := None)]);
        (match Outcome(digest, s, tx)
         case Fails(_) => rest
         case Changes(_, props) =>
           Store(rest, tx.entity, props).(log := s.log + [Commit(tx, s.rows[tx.entity].props, props)]))
    case Write(entity, props) =>
      if props.Some? then Store(s, entity, props.value)
      else s.(rows := s.rows - {entity})
  }

  function Run(digest: Digest, s: State, steps: seq<Step>): State
    decreases |steps|
  {
    if steps == [] then s else Run(digest, Apply(digest, s, steps[0]), steps[1..])
  }

  /** What a committed action is promised: it found a property whose digest is the one it carried,
      and changed that property alone, from what stood there at that moment. */
  ghost predicate Kept(digest: Digest, c: Commit) {
    && c.tx.name in c.before
    && Text.Trim(c.tx.expected) != ""
    && digest(c.before[c.tx.name]) == Text.Trim(c.tx.expected)
    && c.tx.change(c.before[c.tx.name]).Some?
    && c.after == c.before[c.tx.name := c.tx.change(c.before[c.tx.name]).value]
  }

  /** A stamp names one write: a lookup whose stamp is still there saw what is still there. */
  ghost predicate Inv(digest: Digest, s: State) {
    && (forall e :: e in s.rows ==> s.rows[e].stamp < s.clock)
    && (forall i :: 0 <= i < |s.open| && s.open[i].seen.Some? ==>
          && s.open[i].seen.value.stamp < s.clock
          && (s.open[i].entity in s.rows && s.rows[s.open[i].entity].stamp == s.open[i].seen.value.stamp ==>
                s.rows[s.open[i].entity] == s.open[i].seen.value))
    && (forall k :: 0 <= k < |s.log| ==> Kept(digest, s.log[k]))
  }

  lemma FinishIsKept(digest: Digest, s: State, i: nat)
    requires Inv(digest, s) && i < |s.open| && Outcome(digest, s, s.open[i]).Changes?
    ensures Kept(digest, Commit(s.open[i], s.rows[s.open[i].entity].props, Outcome(digest, s, s.open[i]).props))
  {
  }

  lemma StepKeepsInv(digest: Digest, s: State, step: Step)
    requires Inv(digest, s)
    ensures Inv(digest, Apply(digest, s, step))
  {
    if step.Finish? && step.i < |s.open| && Outcome(digest, s, s.open[step.i]).Changes? {
      FinishIsKept(digest, s, step.i);
    }
  }

  lemma {:induction false} RunKeepsInv(digest: Digest, s: State, steps: seq<Step>)
    requires Inv(digest, s)
    ensures Inv(digest, Run(digest, s, steps))
    decreases |steps|
  {
    if steps != [] {
      StepKeepsInv(digest, s, steps[0]);
      RunKeepsInv(digest, Apply(digest, s, steps[0]), steps[1..]);
    }
  }

  ghost predicate Injective(digest: Digest) {
    forall v, w :: digest(v) == digest(w) ==> v == w
  }

  /** In every run, a committed action found its property as the page drew it, so every address
      inside holds the value shown; and it left every other property as it stood. */
  lemma CommittedFoundWhatWasDrawn(digest: Digest, steps: seq<Step>, k: nat, drawn: Value)
    requires Injective(digest) && Text.Solid(digest(drawn))
    requires k < |Run(digest, EMPTY, steps).log|
    requires Run(digest, EMPTY, steps).log[k].tx.expected == digest(drawn)
    ensures var c := Run(digest, EMPTY, steps).log[k];
      && c.tx.name in c.before && c.before[c.tx.name] == drawn
      && c.tx.change(drawn).Some? && c.after == c.before[c.tx.name := c.tx.change(drawn).value]
  {
    RunKeepsInv(digest, EMPTY, steps);
    Text.SolidIsTrimmed(digest(drawn));
    assert Kept(digest, Run(digest, EMPTY, steps).log[k]);
  }

  // ---- An action among other writers ----

  /** The step stores or deletes the entity: another writer's write, or a commit. */
  predicate Touches(digest: Digest, s: State, step: Step, entity: string) {
    match step
    case Begin(_, _, _, _) => false
    case Finish(i) => i < |s.open| && s.open[i].entity == entity && Outcome(digest, s, s.open[i]).Changes?
    case Write(e, _) => e == entity
  }

  predicate Untouched(digest: Digest, s: State, steps: seq<Step>, entity: string)
    decreases |steps|
  {
    steps == [] ||
    (!Touches(digest, s, steps[0], entity) && Untouched(digest, Apply(digest, s, steps[0]), steps[1..], entity))
  }

  predicate SameStamp(s: State, entity: string, row: Row) {
    entity in s.rows && s.rows[entity].stamp == row.stamp
  }

  lemma TouchedAtOnce(digest: Digest, s: State, step: Step, entity: string)
    ensures !Touches(digest, s, step, entity) ==> Look(Apply(digest, s, step), entity) == Look(s, entity)
    ensures Touches(digest, s, step, entity) ==>
      entity !in Apply(digest, s, step).rows || Apply(digest, s, step).rows[entity].stamp == s.clock
    ensures Apply(digest, s, step).clock >= s.clock
  {
  }

  /** Once the entity is gone or stored anew, an older stamp does not come back. */
  lemma {:induction false} OldStampStaysAway(digest: Digest, s: State, steps: seq<Step>, entity: string, row: Row)
    requires row.stamp < s.clock && !SameStamp(s, entity, row)
    ensures !SameStamp(Run(digest, s, steps), entity, row)
    decreases |steps|
  {
    hide Apply, Outcome, Touches;
    if steps != [] {
      TouchedAtOnce(digest, s, steps[0], entity);
      OldStampStaysAway(digest, Apply(digest, s, steps[0]), steps[1..], entity, row);
    }
  }

  /** The stamp stays exactly while no step stores or deletes the entity. */
  lemma {:induction false} StampStaysIff(digest: Digest, s: State, steps: seq<Step>, entity: string)
    requires entity in s.rows && s.rows[entity].stamp < s.clock
    ensures SameStamp(Run(digest, s, steps), entity, s.rows[entity]) <==> Untouched(digest, s, steps, entity)
    ensures Untouched(digest, s, steps, entity) ==> Look(Run(digest, s, steps), entity) == Look(s, entity)
    decreases |steps|
  {
    hide Apply, Outcome, Touches;
    if steps != [] {
      var s' := Apply(digest, s, steps[0]);
      TouchedAtOnce(digest, s, steps[0], entity);
      if Touches(digest, s, steps[0], entity) {
        OldStampStaysAway(digest, s', steps[1..], entity, s.rows[entity]);
      } else {
        StampStaysIff(digest, s', steps[1..], entity);
      }
    }
  }

  lemma {:induction false} OpenStays(digest: Digest, s: State, steps: seq<Step>, i: nat)
    requires i < |s.open| && Finish(i) !in steps
    ensures i < |Run(digest, s, steps).open| && Run(digest, s, steps).open[i] == s.open[i]
    decreases |steps|
  {
    if steps != [] {
      assert steps[0] in steps;
      assert forall x :: x in steps[1..] ==> x in steps;
      OpenStays(digest, Apply(digest, s, steps[0]), steps[1..], i);
    }
  }

  /** An action whose page drew the property as it stands at the lookup, with any steps of others
      before its commit: it goes through exactly when its change accepts the value and no step in
      between stored or deleted the entity, and then changes its property alone; otherwise it
      changes nothing. */
  lemma OtherWritesDoNotRefuse(
    digest: Digest, s: State, entity: string, name: string, change: Change, drawn: Value, steps: seq<Step>)
    requires Inv(digest, s) && Finish(|s.open|) !in steps && Text.Solid(digest(drawn))
    requires entity in s.rows && name in s.rows[entity].props && s.rows[entity].props[name] == drawn
    ensures var begun := Apply(digest, s, Begin(entity, name, digest(drawn), change));
      var t := Run(digest, begun, steps);
      var u := Apply(digest, t, Finish(|s.open|));
      if change(drawn).Some? && Untouched(digest, begun, steps, entity) then
        u.rows == t.rows[entity := Row(t.clock, s.rows[entity].props[name := change(drawn).value])]
      else u.rows == t.rows && u.log == t.log
  {
    hide Run, Untouched, Inv;
    Text.SolidIsTrimmed(digest(drawn));
    var begun := Apply(digest, s, Begin(entity, name, digest(drawn), change));
    assert begun.open[|s.open|] == Tx(entity, name, digest(drawn), change, Some(s.rows[entity]));
    OpenStays(digest, begun, steps, |s.open|);
    StampsAreOld(digest, s, entity);
    StampStaysIff(digest, begun, steps, entity);
  }

  lemma StampsAreOld(digest: Digest, s: State, entity: string)
    requires Inv(digest, s) && entity in s.rows
    ensures s.rows[entity].stamp < s.clock
  {
  }

  /** Why an action is refused, for one that carries the digest of the property as drawn: no entity
      or no property at the lookup, a property that is not as drawn, a change that declines it, or
      a write to the entity since the lookup. */
  lemma RefusedBecause(digest: Digest, s: State, tx: Tx, drawn: Value)
    requires Injective(digest) && Text.Solid(digest(drawn)) && tx.expected == digest(drawn)
    ensures var r := Outcome(digest, s, tx);
      && (r == Fails(NoEntity) <==> tx.seen.None?)
      && (tx.seen.Some? ==>
            var props := tx.seen.value.props;
            && (r == Fails(NoProperty) <==> tx.name !in props)
            && (tx.name in props ==>
                  && (r == Fails(ChangedSince) <==> props[tx.name] != drawn)
                  && (r == Fails(Declined) <==> props[tx.name] == drawn && tx.change(drawn).None?)
                  && (r == Fails(Aborted) <==>
                        props[tx.name] == drawn && tx.change(drawn).Some? && !SameStamp(s, tx.entity, tx.seen.value))))
      && r != Fails(NotSaid)
  {
    Text.SolidIsTrimmed(digest(drawn));
  }

  /** An action that carries no digest changes nothing: it is refused for not saying one, unless
      there is nothing to change. */
  lemma UnsaidIsRefused(digest: Digest, s: State, tx: Tx)
    requires Text.Trim(tx.expected) == ""
    ensures var r := Outcome(digest, s, tx);
      r.Fails? && (r.why == NotSaid <==> tx.seen.Some? && tx.name in tx.seen.value.props)
  {
  }

  // ---- Every stored property stays storable ----

  ghost predicate AllSound(props: map<string, Value>) {
    forall n :: n in props ==> Sound(props[n])
  }

  ghost predicate KeepsSound(change: Change) {
    forall v :: Sound(v) && change(v).Some? ==> Sound(change(v).value)
  }

  /** Exclude from indexes as a change of a property. */
  function ExcludeChange(steps: seq<DatastoreValues.Step>, flag: bool): Change {
    (v: Value) => if Check(v, steps, flag).Done? then Some(SetFlags(v, steps, flag)) else None
  }

  lemma ExcludeKeepsSound(steps: seq<DatastoreValues.Step>, flag: bool)
    ensures KeepsSound(ExcludeChange(steps, flag))
  {
    var change := ExcludeChange(steps, flag);
    forall v | Sound(v) && change(v).Some?
      ensures Sound(change(v).value)
    {
      DoneIffSound(v, steps, flag);
    }
  }

  ghost predicate SafeStep(step: Step) {
    match step
    case Begin(_, _, _, change) => KeepsSound(change)
    case Finish(_) => true
    case Write(_, props) => props.Some? ==> AllSound(props.value)
  }

  ghost predicate SoundState(s: State) {
    && (forall e :: e in s.rows ==> AllSound(s.rows[e].props))
    && (forall i :: 0 <= i < |s.open| ==> KeepsSound(s.open[i].change))
    && (forall i :: 0 <= i < |s.open| && s.open[i].seen.Some? ==> AllSound(s.open[i].seen.value.props))
  }

  lemma StepStaysSound(digest: Digest, s: State, step: Step)
    requires SoundState(s) && SafeStep(step)
    ensures SoundState(Apply(digest, s, step))
  {
    if step.Finish? && step.i < |s.open| && Outcome(digest, s, s.open[step.i]).Changes? {
      var tx := s.open[step.i];
      assert AllSound(tx.seen.value.props);
      assert AllSound(Outcome(digest, s, tx).props);
    }
  }

  /** If other writers store only what Datastore stores, then so do all runs of value actions that
      keep it, Exclude from indexes among them. */
  lemma {:induction false} StoreStaysSound(digest: Digest, s: State, steps: seq<Step>)
    requires SoundState(s) && forall i :: 0 <= i < |steps| ==> SafeStep(steps[i])
    ensures SoundState(Run(digest, s, steps))
    decreases |steps|
  {
    if steps != [] {
      StepStaysSound(digest, s, steps[0]);
      StoreStaysSound(digest, Apply(digest, s, steps[0]), steps[1..]);
    }
  }
}
