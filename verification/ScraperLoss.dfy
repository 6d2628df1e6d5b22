/**
 Which served calls the scraper never records.

 `Lost` is read off a world; the theorems show that it is exact: a lost call is recorded by no
 continuation of the run, and every other call is recorded by some continuation in which only
 the scraper acts.
 */
module ScraperLoss {
  import opened StorageEvents
  import opened ScraperRuns

  predicate Emitted(w: World, life: nat, n: nat) {
    life < |w.lives| && 1 <= n <= |w.lives[life]|
  }

  predicate Holds(log: seq<Entry>, life: nat, n: nat) {
    exists i :: 0 <= i < |log| && log[i].life == life && log[i].call.number == n
  }

  predicate Recorded(w: World, life: nat, n: nat) {
    Holds(w.log, life, n)
  }

  /** Out of a quiet scraper's reach: an earlier life, pushed out of the ring, or at or below a
      cursor that the current life's numbers have already reached. */
  predicate Gone(w: World, life: nat, n: nat) {
    life < Life(w) || n <= Dropped(Newest(w)) || n <= w.cursor <= Newest(w)
  }

  /** Not recorded and out of reach, whether the reply in flight arrives or not. */
  predicate Lost(w: World, life: nat, n: nat) {
    && !Recorded(Lose(w), life, n) && Gone(Lose(w), life, n)
    && !Recorded(Land(w), life, n) && Gone(Land(w), life, n)
  }

  // ---- Lost calls stay lost ----

  lemma ServerKeepsLost(w: World, step: Step, life: nat, n: nat)
    requires step.Emit? || step.Restart?
    requires Emitted(w, life, n) && Lost(w, life, n)
    ensures Emitted(Apply(w, step), life, n) && Lost(Apply(w, step), life, n)
  {
    var w' := Apply(w, step);
    assert w'.log == w.log && w'.cursor == w.cursor && w'.pending == w.pending;
    assert Land(w').log == Land(w).log && Land(w').cursor == Land(w).cursor;
  }

  /** An answered page adds to the log exactly the kept calls above the cursor. */
  lemma AnswerAdds(log: seq<Entry>, l: nat, served: seq<Request>, cursor: nat, life: nat, n: nat)
    ensures Holds(log + Tagged(l, Answer(served, cursor)), life, n) <==>
      Holds(log, life, n) || (life == l && Omitted(|served|, cursor) < n <= |served|)
  {
    var page, k := Answer(served, cursor), Omitted(|served|, cursor);
    var more := log + Tagged(l, page);
    if i :| 0 <= i < |log| && log[i].life == life && log[i].call.number == n {
      assert more[i] == log[i];
    } else if life == l && k < n <= |served| {
      assert more[|log| + (n - 1 - k)] == Entry(l, page[n - 1 - k]);
    }
    if i :| 0 <= i < |more| && more[i].life == life && more[i].call.number == n {
      assert if i < |log| then more[i] == log[i] else more[i] == Entry(l, page[i - |log|]);
    }
  }

  lemma ServePollKeepsLost(w: World, life: nat, n: nat)
    requires w.pending.Quiet?
    requires Emitted(w, life, n) && Lost(w, life, n)
    ensures Lost(Apply(w, ServePoll), life, n)
  {
    hide Answer, Holds, CursorAfterPage;
    var w', page := Apply(w, ServePoll), Answer(Served(w), w.cursor);
    AnswerMovesCursor(Served(w), w.cursor, w.cursor);
    assert Lose(w') == w;
    assert Land(w').log == w.log + Tagged(Life(w), page);
    assert Land(w').cursor == if w.cursor < Newest(w) then Newest(w) else w.cursor;
    AnswerAdds(w.log, Life(w), Served(w), w.cursor, life, n);
  }

  lemma StepKeepsLost(w: World, step: Step, life: nat, n: nat)
    requires Emitted(w, life, n) && Lost(w, life, n)
    ensures Emitted(Apply(w, step), life, n) && Lost(Apply(w, step), life, n)
  {
    match step
    case Emit(_) => ServerKeepsLost(w, step, life, n);
    case Restart => ServerKeepsLost(w, step, life, n);
    case ServePoll => if w.pending.Quiet? { ServePollKeepsLost(w, life, n); }
    case _ =>
  }

  lemma {:induction false} LostForever(w: World, steps: seq<Step>, life: nat, n: nat)
    requires Emitted(w, life, n) && Lost(w, life, n)
    ensures Emitted(Run(w, steps), life, n) && Lost(Run(w, steps), life, n)
    ensures !Recorded(Run(w, steps), life, n)
    decreases |steps|
  {
    if steps != [] {
      StepKeepsLost(w, steps[0], life, n);
      LostForever(Apply(w, steps[0]), steps[1..], life, n);
    }
  }

  // ---- Every other call can still be recorded ----

  /** The scraper acts and the server does not. */
  predicate ScraperOnly(steps: seq<Step>) {
    forall i :: 0 <= i < |steps| ==> !steps[i].Emit? && !steps[i].Restart?
  }

  const POLL: seq<Step> := [ServePoll, DeliverPoll]
  const PROBE: seq<Step> := [ServeProbe, DeliverProbe]

  lemma RunPair(w: World, a: Step, b: Step)
    ensures Run(w, [a, b]) == Apply(Apply(w, a), b)
  {
    assert [a, b][1..] == [b];
    assert Run(Apply(w, a), [b]) == Run(Apply(Apply(w, a), b), [b][1..]);
  }

  lemma PollRecords(w: World, n: nat)
    requires w.pending.Quiet?
    requires Emitted(w, Life(w), n) && Dropped(Newest(w)) < n && w.cursor < n
    ensures Recorded(Run(w, POLL), Life(w), n)
  {
    RunPair(w, ServePoll, DeliverPoll);
    AnswerAdds(w.log, Life(w), Served(w), w.cursor, Life(w), n);
  }

  lemma ProbeResets(w: World)
    requires w.pending.Quiet? && 1 <= Newest(w) < w.cursor
    ensures Run(w, POLL + PROBE) == w.(cursor := 0)
  {
    hide Run, Answer, CursorAfterPage, CursorAfterProbe;
    RunAppend(w, POLL, PROBE);
    RunPair(w, ServePoll, DeliverPoll);
    AnswerMovesCursor(Served(w), w.cursor, w.cursor);
    assert w.log + Tagged(Life(w), []) == w.log;
    assert Run(w, POLL) == w.(pending := ProbeDue);
    RunPair(w.(pending := ProbeDue), ServeProbe, DeliverProbe);
  }

  lemma QuietRecovers(w: World, life: nat, n: nat) returns (steps: seq<Step>)
    requires w.pending.Quiet?
    requires Emitted(w, life, n) && !Gone(w, life, n)
    ensures ScraperOnly(steps) && Recorded(Run(w, steps), life, n)
  {
    if w.cursor < n {
      PollRecords(w, n);
      steps := POLL;
    } else {
      ProbeResets(w);
      PollRecords(w.(cursor := 0), n);
      RunAppend(w, POLL + PROBE, POLL);
      steps := POLL + PROBE + POLL;
    }
  }

  /** From any world, one or two steps of the scraper make it quiet, with the reply in flight
      lost or handled. */
  lemma Settles(w: World, land: bool) returns (steps: seq<Step>)
    ensures Run(w, steps) == Lose(if land then Land(w) else w)
    ensures ScraperOnly(steps) && Run(w, steps).pending.Quiet?
  {
    var first := if w.pending.PollReply? then (if land then DeliverPoll else LosePoll)
                 else if land && w.pending.ProbeReply? then DeliverProbe
                 else LoseProbe;
    RunPair(w, first, LoseProbe);
    steps := [first, LoseProbe];
  }

  lemma Recovers(w: World, life: nat, n: nat) returns (steps: seq<Step>)
    requires Emitted(w, life, n) && !Lost(w, life, n)
    ensures ScraperOnly(steps) && Recorded(Run(w, steps), life, n)
  {
    var land := Recorded(Land(w), life, n) || !Gone(Land(w), life, n);
    var settle := Settles(w, land);
    var w' := Run(w, settle);
    if Recorded(w', life, n) {
      steps := settle;
    } else {
      var more := QuietRecovers(w', life, n);
      RunAppend(w, settle, more);
      steps := settle + more;
    }
  }

  ghost predicate Recoverable(w: World, life: nat, n: nat) {
    exists steps :: ScraperOnly(steps) && Recorded(Run(w, steps), life, n)
  }

  /** A call is lost exactly when no continuation of the run records it, and a call that is not
      lost needs nothing more from the server. */
  lemma LostIsExact(w: World, life: nat, n: nat)
    requires Emitted(w, life, n)
    ensures Lost(w, life, n) ==> forall steps :: !Recorded(Run(w, steps), life, n)
    ensures !Lost(w, life, n) ==> Recoverable(w, life, n)
  {
    if Lost(w, life, n) {
      forall steps
        ensures !Recorded(Run(w, steps), life, n)
      {
        LostForever(w, steps, life, n);
      }
    } else {
      var recovery := Recovers(w, life, n);
      assert ScraperOnly(recovery) && Recorded(Run(w, recovery), life, n);
    }
  }
}
