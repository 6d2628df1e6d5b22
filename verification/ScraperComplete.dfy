/**
 When the scraper's log is complete: what an undisturbed scrape does, where scrapes come to rest,
 and the runs after which the log then holds every call.
 */
module ScraperComplete {
  import opened StorageEvents
  import opened ScraperRuns
  import opened ScraperLoss
  import opened ScraperSafety

  /** Every call of every life, in the order served. */
  function Everything(lives: seq<seq<Request>>): seq<Entry> {
    if lives == [] then []
    else Everything(lives[..|lives| - 1]) + Tagged(|lives| - 1, Numbered(lives[|lives| - 1]))
  }

  lemma {:induction false} EverythingIsGenuine(lives: seq<seq<Request>>, e: Entry)
    ensures e in Everything(lives) <==> Genuine(lives, e)
  {
    if lives != [] {
      var l := |lives| - 1;
      EverythingIsGenuine(lives[..l], e);
      var added := Tagged(l, Numbered(lives[l]));
      if e.life == l && Genuine(lives, e) {
        assert added[e.call.number - 1] == e;
      }
    }
  }

  lemma {:induction false} EverythingInOrder(lives: seq<seq<Request>>)
    ensures InOrder(Everything(lives))
  {
    if lives != [] {
      var l := |lives| - 1;
      var all := Everything(lives[..l]);
      EverythingInOrder(lives[..l]);
      forall i | 0 <= i < |all|
        ensures all[i].life < l
      {
        EverythingIsGenuine(lives[..l], all[i]);
      }
    }
  }

  lemma HeadIsMember(log: seq<Entry>)
    ensures log == [] || log[0] in log
  {
  }

  /** Two ordered logs holding the same entries are the same log. */
  lemma {:induction false} OrderedLogsAgree(a: seq<Entry>, b: seq<Entry>)
    requires InOrder(a) && InOrder(b)
    requires forall e :: e in a <==> e in b
    ensures a == b
  {
    HeadIsMember(a);
    HeadIsMember(b);
    if a != [] && b != [] {
      var x, y := a[|a| - 1], b[|b| - 1];
      assert x in b && y in a;
      assert x == y;
      var a', b' := a[..|a| - 1], b[..|b| - 1];
      assert a == a' + [x] && b == b' + [x];
      assert forall e :: e in a' ==> Before(e, x);
      assert forall e :: e in b' ==> Before(e, x);
      forall e
        ensures e in a' <==> e in b'
      {
        assert e in a <==> e in a' || e == x;
        assert e in b <==> e in b' || e == x;
      }
      OrderedLogsAgree(a', b');
    }
  }

  /** The world after a whole scrape with poll and probe both answered at once. */
  function Scraped(w: World): World {
    Probed(Polled(w))
  }

  function Polled(w: World): World {
    Apply(Apply(w, ServePoll), DeliverPoll)
  }

  function Probed(w: World): World {
    Apply(Apply(w, ServeProbe), DeliverProbe)
  }

  /** The cursor stands at the newest number, or the server has no calls yet. */
  predicate AtRest(w: World) {
    w.pending.Quiet? && (Newest(w) == w.cursor || Newest(w) == 0)
  }

  lemma IdlePoll(w: World)
    requires w.pending.Quiet? && Newest(w) <= w.cursor
    ensures Polled(w) == w.(pending := if w.cursor > 0 then ProbeDue else Quiet)
  {
    hide Answer, CursorAfterPage;
    AnswerMovesCursor(Served(w), w.cursor, w.cursor);
    assert w.log + Tagged(Life(w), []) == w.log;
  }

  lemma ProbeMoves(w: World)
    requires w.pending.ProbeDue?
    ensures Probed(w) ==
      w.(pending := Quiet, cursor := if 1 <= Newest(w) < w.cursor then 0 else w.cursor)
  {
    hide Answer, CursorAfterProbe;
    AnswerMovesCursor(Served(w), 0, w.cursor);
  }

  /** At rest is exactly where a whole scrape finds nothing new and moves nothing. */
  lemma AtRestMeans(w: World)
    requires w.pending.Quiet?
    ensures AtRest(w) <==> Scraped(w).log == w.log && Scraped(w).cursor == w.cursor
  {
    if w.cursor < Newest(w) {
      assert |Polled(w).log| > |w.log|;
    } else {
      IdleScrape(w);
    }
  }

  lemma AtRestLeavesNothing(w: World, life: nat, n: nat)
    requires AtRest(w) && Emitted(w, life, n)
    ensures Recorded(w, life, n) || Lost(w, life, n)
  {
  }

  lemma CompleteWhenNoneLost(w: World)
    requires Inv(w) && AtRest(w) && NoneLost(w)
    ensures w.log == Everything(w.lives)
  {
    EverythingInOrder(w.lives);
    forall e
      ensures e in w.log <==> e in Everything(w.lives)
    {
      EverythingIsGenuine(w.lives, e);
      if Genuine(w.lives, e) {
        assert Emitted(w, e.life, e.call.number);
        AtRestLeavesNothing(w, e.life, e.call.number);
        var i :| 0 <= i < |w.log| && w.log[i].life == e.life && w.log[i].call.number == e.call.number;
        assert Genuine(w.lives, w.log[i]);
        assert w.log[i] == e;
      }
      if e in w.log {
        var i :| 0 <= i < |w.log| && w.log[i] == e;
        assert Genuine(w.lives, w.log[i]);
      }
    }
    OrderedLogsAgree(w.log, Everything(w.lives));
  }

  lemma NoneLostWhenComplete(w: World)
    requires w.log == Everything(w.lives)
    ensures NoneLost(w)
  {
    forall life: nat, n: nat | Emitted(w, life, n)
      ensures !Lost(w, life, n)
    {
      var e := Entry(life, Call(n, w.lives[life][n - 1]));
      EverythingIsGenuine(w.lives, e);
      var i :| 0 <= i < |w.log| && w.log[i] == e;
      assert Recorded(Lose(w), life, n);
    }
  }

  /** Once scrapes find nothing new, the log is every call ever served, each once and in order,
      exactly when every step of the run was safe where it was taken. */
  lemma CompleteIffAllSafe(steps: seq<Step>)
    ensures var w := Run(START, steps);
      AtRest(w) ==> (w.log == Everything(w.lives) <==> AllSafe(START, steps))
  {
    hide NoneLost, AllSafe, AtRest, Inv;
    RunKeepsInv(START, steps);
    RunLosesIff(steps);
    var w := Run(START, steps);
    if AtRest(w) && NoneLost(w) {
      CompleteWhenNoneLost(w);
    }
    if w.log == Everything(w.lives) {
      NoneLostWhenComplete(w);
    }
  }

  // ---- Undisturbed scrapes ----

  lemma BusyPollLosesNothing(w: World, life: nat, n: nat)
    requires w.pending.Quiet? && w.cursor < Newest(w) && Emitted(w, life, n) && !Lost(w, life, n)
    ensures Polled(w).pending.Quiet? && Scraped(w) == Polled(w) && !Lost(Polled(w), life, n)
  {
    AnswerAdds(w.log, Life(w), Served(w), w.cursor, life, n);
    assert Polled(w).log == w.log + Tagged(Life(w), Answer(Served(w), w.cursor));
  }

  /** A scrape whose replies arrive before the server acts again loses nothing. */
  lemma ScrapeLosesNothing(w: World, life: nat, n: nat)
    requires w.pending.Quiet? && Emitted(w, life, n) && !Lost(w, life, n)
    ensures !Lost(Polled(w), life, n) && !Lost(Scraped(w), life, n)
  {
    hide Lost, Apply, Polled, Probed, Scraped, Recorded;
    if w.cursor < Newest(w) {
      BusyPollLosesNothing(w, life, n);
    } else {
      IdlePoll(w);
      IdleScrape(w);
      LostAtOnce(w, life, n);
      LostAtOnce(Polled(w), life, n);
      LostAtOnce(Scraped(w), life, n);
      SameLogSameRecord(w, Polled(w), life, n);
      SameLogSameRecord(w, Scraped(w), life, n);
    }
  }

  lemma IdleScrape(w: World)
    requires w.pending.Quiet? && Newest(w) <= w.cursor
    ensures Scraped(w) == w.(cursor := if 1 <= Newest(w) < w.cursor then 0 else w.cursor)
  {
    hide Apply, Polled, Probed;
    IdlePoll(w);
    if w.cursor > 0 {
      ProbeMoves(Polled(w));
    } else {
      ProbeSkipped(Polled(w));
    }
  }

  lemma ProbeSkipped(w: World)
    requires w.pending.Quiet?
    ensures Probed(w) == w
  {
  }

  lemma UnseenEntriesAreOld(w: World)
    requires InOrder(w.log) && Unseen(w)
    ensures forall i :: 0 <= i < |w.log| ==> w.log[i].life < Life(w)
  {
    forall i | 0 <= i < |w.log|
      ensures w.log[i].life < Life(w)
    {
      assert i == |w.log| - 1 || Before(w.log[i], w.log[|w.log| - 1]);
    }
  }

  /** A restart whose new numbers reach the cursor unseen is never noticed: the probe compares
      with `<`, so equal numbers look like no restart, and the new life's calls are lost. */
  lemma EqualNumbersHideRestart(w: World)
    requires Inv(w) && w.pending.Quiet? && Unseen(w) && 1 <= Newest(w) == w.cursor
    ensures AtRest(w)
    ensures forall n: nat :: 1 <= n <= Newest(w) ==> Lost(w, Life(w), n)
  {
    UnseenEntriesAreOld(w);
  }

  lemma OneCallPolled(request: Request)
    ensures Run(START, [Emit(request)] + POLL) ==
      State([[request]], [Entry(0, Call(1, request))], 1, Quiet)
  {
    var a := [Emit(request)];
    var w := Apply(START, Emit(request));
    RunAppend(START, a, POLL);
    assert Run(START, a) == Run(w, a[1..]) == w;
    assert [] + [request] == [request];
    assert w.lives == [[request]];
    RunPair(w, ServePoll, DeliverPoll);
    assert Answer([request], 0) == [Call(1, request)];
  }

  /** One call, a restart and one call more, with polls and probes answered all along: the second
      life's call is never recorded. */
  lemma RestartCanGoUnnoticed(request: Request)
    ensures var w := Run(START, [Emit(request)] + POLL + [Restart, Emit(request)]);
      AtRest(w) && |w.log| == 1 && Emitted(w, 1, 1) && Lost(w, 1, 1)
  {
    var a, b := [Emit(request)] + POLL, [Restart, Emit(request)];
    RunKeepsInv(START, a + b);
    RunAppend(START, a, b);
    OneCallPolled(request);
    var w := State([[request]], [Entry(0, Call(1, request))], 1, Quiet);
    RunPair(w, Restart, Emit(request));
    assert Run(w, b) == w.(lives := [[request], [request]]);
    EqualNumbersHideRestart(w.(lives := [[request], [request]]));
  }

  /** A reply that crosses a restart can be beyond saving: its page delivered, the cursor hides the
      new life's calls; its page lost, the ended life's calls are gone. */
  lemma CrossedReplyLosesEitherWay(w: World)
    requires Inv(w) && NoneLost(w)
    requires Carrying(w) && w.pending.life < Life(w) && LastCarried(w) <= Newest(w)
    ensures !NoneLost(Apply(w, DeliverPoll)) && !NoneLost(Apply(w, LosePoll))
  {
    hide NoneLost, Inv, Apply;
    StepLosesIff(w, DeliverPoll);
    StepLosesIff(w, LosePoll);
  }

  /** One call, polled for but not yet delivered, a restart and one call more: nothing is lost yet,
      and whatever becomes of the reply loses a call. */
  lemma ReplyCanCrossRestart(request: Request)
    ensures var w := Run(Run(START, [Emit(request), ServePoll]), [Restart, Emit(request)]);
      && NoneLost(w)
      && !NoneLost(Apply(w, DeliverPoll)) && !NoneLost(Apply(w, LosePoll))
  {
    hide NoneLost, Inv, Run, Apply;
    var page := [Call(1, request)];
    var w1: World := State([[request]], [], 0, Quiet);
    var w2 := w1.(pending := PollReply(0, page));
    var w3 := w2.(lives := [[request], []]);
    var w4 := w2.(lives := [[request], [request]]);
    FirstSteps(request);
    RunPair(START, Emit(request), ServePoll);
    RunPair(w2, Restart, Emit(request));
    NothingServed();
    SafeToHere(START, Emit(request));
    SafeToHere(w1, ServePoll);
    SafeToHere(w2, Restart);
    SafeToHere(w3, Emit(request));
    CrossedReplyLosesEitherWay(w4);
  }

  lemma FirstSteps(request: Request)
    ensures var page := [Call(1, request)];
      && Apply(START, Emit(request)) == State([[request]], [], 0, Quiet)
      && Apply(State([[request]], [], 0, Quiet), ServePoll) == State([[request]], [], 0, PollReply(0, page))
      && Apply(State([[request]], [], 0, PollReply(0, page)), Restart) ==
        State([[request], []], [], 0, PollReply(0, page))
      && Apply(State([[request], []], [], 0, PollReply(0, page)), Emit(request)) ==
        State([[request], [request]], [], 0, PollReply(0, page))
  {
    assert [] + [request] == [request];
    assert Answer([request], 0) == [Call(1, request)];
  }

  lemma NothingServed()
    ensures Inv(START) && NoneLost(START)
  {
  }

  lemma SafeToHere(w: World, step: Step)
    requires Inv(w) && NoneLost(w) && Safe(w, step)
    ensures Inv(Apply(w, step)) && NoneLost(Apply(w, step))
  {
    StepKeepsInv(w, step);
    StepLosesIff(w, step);
  }
}
