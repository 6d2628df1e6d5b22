/**
 Which steps lose a call: for every step and whatever is in flight, a guard read off the cursor,
 the newest number and the reply; and over whole runs, no call is lost exactly when every step
 was taken under its guard.
 */
module ScraperSafety {
  import opened StorageEvents
  import opened ScraperRuns
  import opened ScraperLoss

  ghost predicate NoneLost(w: World) {
    forall life: nat, n: nat :: Emitted(w, life, n) ==> !Lost(w, life, n)
  }

  // ---- The guards ----

  /** A poll's reply with calls is in flight. */
  predicate Carrying(w: World) {
    w.pending.PollReply? && w.pending.page != []
  }

  function FirstCarried(w: World): nat
    requires Carrying(w)
  {
    w.pending.page[0].number
  }

  function LastCarried(w: World): nat
    requires Carrying(w)
  {
    w.pending.page[|w.pending.page| - 1].number
  }

  /** The last of the current life's calls that is recorded or in flight, 0 if there is none. */
  function InHand(w: World): nat {
    if Carrying(w) && w.pending.life == Life(w) then LastCarried(w)
    else if Unseen(w) then 0
    else w.cursor
  }

  function Max(a: nat, b: nat): nat { if a < b then b else a }

  /** With the next call the numbers reach a cursor that stood above them, and no reply in flight
      sends it back to 0. */
  predicate NextReachesCursor(w: World) {
    && w.cursor > 0 && Land(w).cursor > 0
    && Max(w.cursor, Land(w).cursor) == Newest(w) + 1
  }

  /** Serving a call must not push out one that is neither recorded nor in flight, nor reach the
      cursor; a restart must find everything recorded or in flight. A page of an ended life must
      not be lost, nor be delivered once the new numbers have reached its last; a page of the
      current life must not be lost once its first call is out of the ring. A probe that found a
      restart must not be lost once the numbers have reached the cursor. */
  predicate Safe(w: World, step: Step) {
    match step
    case Emit(_) => Dropped(Newest(w) + 1) <= InHand(w) && !NextReachesCursor(w)
    case Restart => Newest(w) <= InHand(w)
    case LosePoll =>
      Carrying(w) ==> w.pending.life == Life(w) && Dropped(Newest(w)) < FirstCarried(w)
    case DeliverPoll =>
      Carrying(w) ==> w.pending.life == Life(w) || Newest(w) < LastCarried(w)
    case LoseProbe =>
      w.pending.ProbeReply? && CursorAfterProbe(w.cursor, w.pending.page) == 0 ==> Newest(w) < w.cursor
    case _ => true
  }

  // ---- What is recorded ----

  lemma RecordedLands(w: World, life: nat, n: nat)
    requires Recorded(w, life, n)
    ensures Recorded(Land(w), life, n)
  {
    var i :| 0 <= i < |w.log| && w.log[i].life == life && w.log[i].call.number == n;
    assert Land(w).log[i] == w.log[i];
  }

  /** A call is lost exactly when landing does not record it and it is gone either way. */
  lemma LostMeans(w: World, life: nat, n: nat)
    ensures Lost(w, life, n) <==> !Recorded(Land(w), life, n) && Gone(w, life, n) && Gone(Land(w), life, n)
  {
    if Recorded(w, life, n) {
      RecordedLands(w, life, n);
    }
    assert Lose(w).log == w.log;
  }

  /** Landing a page records its own life's calls from its first to its last, and nothing else. */
  lemma LandRecords(w: World, life: nat, n: nat)
    requires Inv(w) && Carrying(w)
    ensures w.cursor < FirstCarried(w) <= LastCarried(w) <= |w.lives[w.pending.life]|
    ensures FirstCarried(w) == 1 + Max(w.cursor, Dropped(LastCarried(w)))
    ensures Recorded(Land(w), life, n) <==>
      Recorded(w, life, n) || (life == w.pending.life && FirstCarried(w) <= n <= LastCarried(w))
  {
    hide Holds, Answer, AllGenuine, InOrder, CursorFits;
    var served := w.lives[w.pending.life][..LastCarried(w)];
    AnswerAdds(w.log, w.pending.life, served, w.cursor, life, n);
  }

  lemma LandsAlike(w: World)
    requires !Carrying(w)
    ensures Land(w).log == w.log
    ensures !w.pending.ProbeReply? ==> Land(w).cursor == w.cursor
  {
    if w.pending.PollReply? {
      assert w.log + Tagged(w.pending.life, []) == w.log;
    }
  }

  /** Nothing above the last entry of the current life is recorded, and a call of the current life
      is recorded only after all the lives before it. */
  lemma NoneAboveLast(w: World, n: nat)
    requires AllGenuine(w.lives, w.log) && InOrder(w.log) && CursorFits(w)
    requires Recorded(w, Life(w), n)
    ensures !Unseen(w) && n <= w.cursor <= Newest(w)
  {
    var i :| 0 <= i < |w.log| && w.log[i].life == Life(w) && w.log[i].call.number == n;
    var last := |w.log| - 1;
    assert i == last || Before(w.log[i], w.log[last]);
    assert Genuine(w.lives, w.log[last]);
  }

  lemma OldPageMeansUnseen(w: World)
    requires Inv(w) && Carrying(w) && w.pending.life < Life(w)
    ensures Unseen(w)
  {
    if w.log != [] {
      var all := w.log + Tagged(w.pending.life, w.pending.page);
      assert Before(all[|w.log| - 1], all[|w.log|]);
    }
  }

  lemma SeenCursor(w: World)
    requires Inv(w) && !Unseen(w)
    ensures 1 <= w.cursor <= Newest(w)
  {
    assert Genuine(w.lives, w.log[|w.log| - 1]);
  }

  /** With nothing lost, the current life's calls recorded or in flight are the first ones. */
  lemma InHandIsRecorded(w: World, n: nat)
    requires Inv(w) && NoneLost(w) && Emitted(w, Life(w), n)
    ensures Recorded(Land(w), Life(w), n) <==> n <= InHand(w)
  {
    hide Recorded, Land, Unseen, Inv;
    if Recorded(Land(w), Life(w), n) {
      InHandIsBound(w, n);
    } else if n <= InHand(w) {
      BelowInHandIsGone(w, n);
      LostMeans(w, Life(w), n);
    }
  }

  lemma InHandIsBound(w: World, n: nat)
    requires Inv(w) && Recorded(Land(w), Life(w), n)
    ensures n <= InHand(w)
  {
    hide Recorded, Unseen, Answer, InOrder, AllGenuine, CursorFits, Genuine;
    if Recorded(w, Life(w), n) {
      NoneAboveLast(w, n);
    }
    if Carrying(w) {
      LandRecords(w, Life(w), n);
    } else {
      LandsAlike(w);
      SameLogSameRecord(w, Land(w), Life(w), n);
    }
  }

  lemma SameLogSameRecord(w: World, u: World, life: nat, n: nat)
    requires w.log == u.log
    ensures Recorded(w, life, n) == Recorded(u, life, n)
  {
  }

  lemma BelowInHandIsGone(w: World, n: nat)
    requires Inv(w) && Emitted(w, Life(w), n) && n <= InHand(w) && !Recorded(Land(w), Life(w), n)
    ensures Gone(w, Life(w), n) && Gone(Land(w), Life(w), n)
  {
    hide Recorded, Answer, InOrder, AllGenuine, Genuine;
    if Carrying(w) {
      LandRecords(w, Life(w), n);
    } else {
      LandsAlike(w);
    }
    if Carrying(w) && w.pending.life < Life(w) {
      OldPageMeansUnseen(w);
    } else if !Carrying(w) {
      SeenCursor(w);
    }
  }

  // ---- Step by step ----

  lemma IsLost(w: World, life: nat, n: nat)
    requires Emitted(w, life, n) && Lost(w, life, n)
    ensures !NoneLost(w)
  {
  }

  lemma InHandAtMostNewest(w: World)
    requires Inv(w)
    ensures InHand(w) <= Newest(w)
  {
    hide Answer, InOrder, AllGenuine;
    if Carrying(w) {
      LandRecords(w, 0, 0);
    }
    if !Unseen(w) {
      SeenCursor(w);
    }
  }

  /** After a call is served, landing gives the same log and cursor. */
  lemma EmitLands(w: World, request: Request)
    ensures var w' := Apply(w, Emit(request));
      && Land(w').log == Land(w).log && Land(w').cursor == Land(w).cursor
      && w'.log == w.log && w'.cursor == w.cursor && Life(w') == Life(w) && Newest(w') == Newest(w) + 1
      && Land(w').lives == w'.lives && Land(w).lives == w.lives
  {
  }

  lemma EmitUnsafe(w: World, request: Request)
    requires Inv(w) && NoneLost(w) && !Safe(w, Emit(request))
    ensures !NoneLost(Apply(w, Emit(request)))
  {
    hide NoneLost, Lost, Land, Recorded, Inv, Apply;
    var w' := Apply(w, Emit(request));
    EmitLands(w, request);
    var n := EmitVictim(w);
    SameLogSameRecord(Land(w), Land(w'), Life(w), n);
    assert Emitted(w', Life(w), n);
    LostMeans(w', Life(w), n);
    IsLost(w', Life(w), n);
  }

  /** The call that serving one more loses. */
  lemma EmitVictim(w: World) returns (n: nat)
    requires Inv(w) && NoneLost(w)
    requires InHand(w) < Dropped(Newest(w) + 1) || NextReachesCursor(w)
    ensures 1 <= n <= Newest(w) + 1 && !Recorded(Land(w), Life(w), n)
    ensures n <= Dropped(Newest(w) + 1) || (n <= w.cursor <= Newest(w) + 1 && n <= Land(w).cursor <= Newest(w) + 1)
  {
    hide NoneLost, Recorded, Inv;
    if InHand(w) < Dropped(Newest(w) + 1) {
      n := Dropped(Newest(w) + 1);
      if Recorded(Land(w), Life(w), n) {
        InHandIsBound(w, n);
      }
    } else if w.cursor == Newest(w) + 1 {
      n := Newest(w) + 1;
      InHandAtMostNewest(w);
      CursorLands(w);
      if Recorded(Land(w), Life(w), n) {
        InHandIsBound(w, n);
      }
    } else {
      n := 1;
      ReachedByOldPage(w);
      if Recorded(Land(w), Life(w), n) {
        InHandIsBound(w, n);
      }
    }
  }

  lemma ReachedByOldPage(w: World)
    requires Inv(w) && NextReachesCursor(w) && w.cursor <= Newest(w)
    ensures Carrying(w) && w.pending.life < Life(w) && InHand(w) == 0
  {
    hide Answer, InOrder, AllGenuine;
    if Carrying(w) {
      LandRecords(w, 0, 0);
      if w.pending.life < Life(w) {
        OldPageMeansUnseen(w);
      }
    } else {
      LandsAlike(w);
    }
  }

  lemma EmitSafe(w: World, request: Request, life: nat, n: nat)
    requires Inv(w) && NoneLost(w) && Safe(w, Emit(request))
    requires Emitted(Apply(w, Emit(request)), life, n)
    ensures !Lost(Apply(w, Emit(request)), life, n)
  {
    hide Recorded, Inv, Land, NoneLost, Lost;
    var w' := Apply(w, Emit(request));
    EmitLands(w, request);
    SameLogSameRecord(Land(w), Land(w'), life, n);
    LostMeans(w', life, n);
    LostMeans(w, life, n);
    if Emitted(w, life, n) {
      NotLost(w, life, n);
      if life == Life(w) {
        InHandIsRecorded(w, n);
      }
      CursorLands(w);
    } else {
      assert life == Life(w) && n == Newest(w) + 1;
      CursorLands(w);
    }
  }

  lemma NotLost(w: World, life: nat, n: nat)
    requires NoneLost(w) && Emitted(w, life, n)
    ensures !Lost(w, life, n)
  {
  }

  /** Landing moves the cursor up to the page's last number, back to 0, or not at all. */
  lemma CursorLands(w: World)
    requires Inv(w)
    ensures Land(w).cursor == 0 || Land(w).cursor >= w.cursor
  {
    hide Answer, InOrder, AllGenuine;
    if Carrying(w) {
      LandRecords(w, 0, 0);
    }
  }

  lemma RestartLands(w: World)
    ensures var w' := Apply(w, Restart);
      && Land(w').log == Land(w).log && Land(w').cursor == Land(w).cursor
      && w'.log == w.log && w'.cursor == w.cursor && Life(w') == Life(w) + 1 && Newest(w') == 0
      && Land(w').lives == w'.lives && Land(w).lives == w.lives
      && forall life :: 0 <= life <= Life(w) ==> w'.lives[life] == w.lives[life]
  {
  }

  lemma RestartLosesIff(w: World)
    requires Inv(w) && NoneLost(w)
    ensures NoneLost(Apply(w, Restart)) <==> Safe(w, Restart)
  {
    hide Recorded, Inv, Land, NoneLost, Lost, InHand, Apply;
    var w' := Apply(w, Restart);
    RestartLands(w);
    if Newest(w) <= InHand(w) {
      forall life: nat, n: nat | Emitted(w', life, n)
        ensures !Lost(w', life, n)
      {
        NotLost(w, life, n);
        LostMeans(w, life, n);
        LostMeans(w', life, n);
        SameLogSameRecord(Land(w), Land(w'), life, n);
        if life == Life(w) {
          InHandIsRecorded(w, n);
        }
      }
      NoneLostWhen(w');
    } else {
      var n := Newest(w);
      InHandIsRecorded(w, n);
      SameLogSameRecord(Land(w), Land(w'), Life(w), n);
      LostMeans(w', Life(w), n);
      IsLost(w', Life(w), n);
    }
  }

  lemma NoneLostWhen(w: World)
    requires forall life: nat, n: nat :: Emitted(w, life, n) ==> !Lost(w, life, n)
    ensures NoneLost(w)
  {
  }

  /** With no poll's calls and no probe's verdict in flight, lost is unrecorded and gone. */
  lemma LostAtOnce(w: World, life: nat, n: nat)
    requires !Carrying(w) && !w.pending.ProbeReply?
    ensures Lost(w, life, n) <==> !Recorded(w, life, n) && Gone(w, life, n)
  {
    hide Recorded, Lost;
    LostMeans(w, life, n);
    LandsAlike(w);
    SameLogSameRecord(w, Land(w), life, n);
  }

  lemma LosePollSafe(w: World, life: nat, n: nat)
    requires Inv(w) && w.pending.PollReply? && Safe(w, LosePoll) && Emitted(w, life, n) && !Lost(w, life, n)
    ensures !Lost(Lose(w), life, n)
  {
    hide Recorded, Lost, Answer, InOrder, AllGenuine;
    LostAtOnce(Lose(w), life, n);
    SameLogSameRecord(w, Lose(w), life, n);
    if Carrying(w) {
      LostMeans(w, life, n);
      LandRecords(w, life, n);
    } else {
      LostAtOnce(w, life, n);
    }
  }

  lemma LosePollUnsafe(w: World)
    requires Inv(w) && !Safe(w, LosePoll) && Carrying(w)
    ensures Emitted(w, w.pending.life, FirstCarried(w)) && Lost(Lose(w), w.pending.life, FirstCarried(w))
  {
    hide Lost, Answer;
    var life, n := w.pending.life, FirstCarried(w);
    LandRecords(w, life, n);
    CarriedIsNew(w);
    LostAtOnce(Lose(w), life, n);
    SameLogSameRecord(w, Lose(w), life, n);
  }

  lemma CarriedIsNew(w: World)
    requires Inv(w) && Carrying(w)
    ensures !Recorded(w, w.pending.life, FirstCarried(w))
  {
    var all, k := w.log + Tagged(w.pending.life, w.pending.page), |w.log|;
    assert all[k] == Entry(w.pending.life, w.pending.page[0]);
    forall i | 0 <= i < k
      ensures w.log[i].life != w.pending.life || w.log[i].call.number != FirstCarried(w)
    {
      assert all[i] == w.log[i] && Before(all[i], all[k]);
    }
  }

  /** The world once its poll's reply has been delivered, as to what is lost. */
  lemma LostOnceLanded(w: World, life: nat, n: nat)
    requires w.pending.PollReply? || w.pending.ProbeReply?
    ensures Lost(Land(w), life, n) <==> !Recorded(Land(w), life, n) && Gone(Land(w), life, n)
  {
    hide Recorded, Lost;
    LostAtOnce(Land(w), life, n);
  }

  lemma DeliverPollSafe(w: World, life: nat, n: nat)
    requires Inv(w) && w.pending.PollReply? && Safe(w, DeliverPoll) && Emitted(w, life, n) && !Lost(w, life, n)
    ensures !Lost(Land(w), life, n)
  {
    hide Recorded, Lost, Answer, InOrder, AllGenuine;
    LostOnceLanded(w, life, n);
    LostMeans(w, life, n);
    if Carrying(w) {
      LandRecords(w, life, n);
    } else {
      LandsAlike(w);
    }
  }

  lemma DeliverPollUnsafe(w: World)
    requires Inv(w) && !Safe(w, DeliverPoll) && Carrying(w)
    ensures Emitted(w, Life(w), 1) && Lost(Land(w), Life(w), 1)
  {
    hide Recorded, Lost, Answer, InOrder, AllGenuine;
    OldPageMeansUnseen(w);
    LandRecords(w, Life(w), 1);
    if Recorded(Land(w), Life(w), 1) {
      InHandIsBound(w, 1);
    }
    LostOnceLanded(w, Life(w), 1);
  }

  lemma LoseProbeSafe(w: World, life: nat, n: nat)
    requires Inv(w) && w.pending.ProbeReply? && Safe(w, LoseProbe) && Emitted(w, life, n) && !Lost(w, life, n)
    ensures !Lost(Lose(w), life, n)
  {
    hide Recorded, Lost;
    LostAtOnce(Lose(w), life, n);
    SameLogSameRecord(w, Lose(w), life, n);
    LostMeans(w, life, n);
    SameLogSameRecord(w, Land(w), life, n);
  }

  lemma LoseProbeUnsafe(w: World)
    requires Inv(w) && !Safe(w, LoseProbe)
    ensures Emitted(w, Life(w), 1) && Lost(Lose(w), Life(w), 1)
  {
    hide Recorded, Lost, Inv, InHand, Land, CursorAfterProbe;
    ResetMeansUnseen(w);
    FirstUnrecorded(w);
    LostAtOnce(Lose(w), Life(w), 1);
    SameLogSameRecord(w, Lose(w), Life(w), 1);
  }

  lemma ResetMeansUnseen(w: World)
    requires Inv(w) && w.pending.ProbeReply? && CursorAfterProbe(w.cursor, w.pending.page) == 0
    ensures Unseen(w) && w.cursor > 0
  {
    hide InOrder, AllGenuine, CursorFits, Unseen;
  }

  lemma FirstUnrecorded(w: World)
    requires Inv(w) && Unseen(w)
    ensures !Recorded(w, Life(w), 1)
  {
    hide Recorded, Unseen, InOrder, AllGenuine, CursorFits;
    if Recorded(w, Life(w), 1) {
      NoneAboveLast(w, 1);
    }
  }

  /** Delivering a probe's reply, and being answered, lose nothing. */
  lemma DeliverProbeSafe(w: World, life: nat, n: nat)
    requires w.pending.ProbeReply? && !Lost(w, life, n)
    ensures !Lost(Land(w), life, n)
  {
    hide Recorded, Lost;
    LostOnceLanded(w, life, n);
    LostMeans(w, life, n);
  }

  lemma ServeSafe(w: World, step: Step, life: nat, n: nat)
    requires step.ServePoll? || step.ServeProbe?
    requires !Lost(w, life, n)
    ensures !Lost(Apply(w, step), life, n)
  {
    hide Recorded, Lost, Answer, Land;
    var w' := Apply(w, step);
    if w' != w {
      LostAtOnce(w, life, n);
      LostMeans(w', life, n);
      SameLogSameRecord(w, w', life, n);
      if Recorded(w', life, n) {
        RecordedLands(w', life, n);
      }
    }
  }

  lemma ScraperSafe(w: World, step: Step, life: nat, n: nat)
    requires Inv(w) && !step.Emit? && !step.Restart? && Safe(w, step)
    requires Emitted(w, life, n) && !Lost(w, life, n)
    ensures !Lost(Apply(w, step), life, n)
  {
    hide Lost, Emitted, Land, Safe, Inv;
    match step
    case ServePoll => ServeSafe(w, step, life, n);
    case ServeProbe => ServeSafe(w, step, life, n);
    case LosePoll => if w.pending.PollReply? { LosePollSafe(w, life, n); }
    case DeliverPoll => if w.pending.PollReply? { DeliverPollSafe(w, life, n); }
    case LoseProbe =>
      if w.pending.ProbeReply? {
        LoseProbeSafe(w, life, n);
      } else if w.pending.ProbeDue? {
        DueIsQuiet(w, life, n);
      }
    case DeliverProbe => if w.pending.ProbeReply? { DeliverProbeSafe(w, life, n); }
  }

  lemma DueIsQuiet(w: World, life: nat, n: nat)
    requires w.pending.ProbeDue?
    ensures Lost(Lose(w), life, n) == Lost(w, life, n)
  {
  }

  lemma ScraperUnsafe(w: World, step: Step)
    requires Inv(w) && !step.Emit? && !step.Restart? && !Safe(w, step)
    ensures !NoneLost(Apply(w, step))
  {
    hide Lost, NoneLost, Land, Inv;
    if step.LosePoll? {
      LosePollUnsafe(w);
      IsLost(Lose(w), w.pending.life, FirstCarried(w));
    } else if step.DeliverPoll? {
      DeliverPollUnsafe(w);
      SameLives(w);
      IsLost(Land(w), Life(w), 1);
    } else {
      LoseProbeUnsafe(w);
      IsLost(Lose(w), Life(w), 1);
    }
  }

  lemma SameLives(w: World)
    ensures Land(w).lives == w.lives
  {
  }

  /** From a world that has lost nothing, a step loses a call exactly when it is not safe. */
  lemma StepLosesIff(w: World, step: Step)
    requires Inv(w) && NoneLost(w)
    ensures NoneLost(Apply(w, step)) <==> Safe(w, step)
  {
    hide Lost, NoneLost, Inv, Safe, Emitted;
    if step.Restart? {
      RestartLosesIff(w);
    } else if !Safe(w, step) {
      if step.Emit? {
        EmitUnsafe(w, step.request);
      } else {
        ScraperUnsafe(w, step);
      }
    } else {
      forall life: nat, n: nat | Emitted(Apply(w, step), life, n)
        ensures !Lost(Apply(w, step), life, n)
      {
        if step.Emit? {
          EmitSafe(w, step.request, life, n);
        } else {
          SameEmitted(w, step, life, n);
          NotLost(w, life, n);
          ScraperSafe(w, step, life, n);
        }
      }
      NoneLostWhen(Apply(w, step));
    }
  }

  lemma SameEmitted(w: World, step: Step, life: nat, n: nat)
    requires !step.Emit? && !step.Restart?
    ensures Emitted(Apply(w, step), life, n) == Emitted(w, life, n)
  {
  }

  // ---- Whole runs ----

  /** Every step of the run is safe where it is taken. */
  ghost predicate AllSafe(w: World, steps: seq<Step>) {
    forall k :: 0 <= k < |steps| ==> Safe(Run(w, steps[..k]), steps[k])
  }

  lemma AllSafeFirst(w: World, steps: seq<Step>)
    requires steps != []
    ensures AllSafe(w, steps) <==> Safe(w, steps[0]) && AllSafe(Apply(w, steps[0]), steps[1..])
  {
    hide Safe, Apply;
    var first, rest := Apply(w, steps[0]), steps[1..];
    assert Run(w, steps[..0]) == w;
    forall k | 0 <= k < |rest|
      ensures Run(w, steps[..k + 1]) == Run(first, rest[..k]) && steps[k + 1] == rest[k]
    {
      assert steps[..k + 1][1..] == rest[..k];
    }
    if AllSafe(w, steps) {
      assert Safe(Run(w, steps[..0]), steps[0]);
    }
    if Safe(w, steps[0]) && AllSafe(first, rest) {
      forall k | 0 <= k < |steps|
        ensures Safe(Run(w, steps[..k]), steps[k])
      {
        if k > 0 {
          assert Safe(Run(first, rest[..k - 1]), rest[k - 1]);
        }
      }
    }
  }

  lemma {:induction false} RunFromLosesIff(w: World, steps: seq<Step>)
    requires Inv(w) && NoneLost(w)
    ensures NoneLost(Run(w, steps)) <==> AllSafe(w, steps)
    decreases |steps|
  {
    hide NoneLost, AllSafe, Safe, Inv, Apply, Lost;
    if steps == [] {
      NothingTaken(w);
    } else {
      var w' := Apply(w, steps[0]);
      StepLosesIff(w, steps[0]);
      StepKeepsInv(w, steps[0]);
      AllSafeFirst(w, steps);
      if NoneLost(w') {
        RunFromLosesIff(w', steps[1..]);
      } else {
        var life, n := SomeLost(w');
        LostForever(w', steps[1..], life, n);
        IsLost(Run(w', steps[1..]), life, n);
      }
    }
  }

  lemma NothingTaken(w: World)
    ensures AllSafe(w, [])
  {
  }

  lemma SomeLost(w: World) returns (life: nat, n: nat)
    requires !NoneLost(w)
    ensures Emitted(w, life, n) && Lost(w, life, n)
  {
    life, n :| Emitted(w, life, n) && Lost(w, life, n);
  }

  /** A run loses no call exactly when every one of its steps is safe where it is taken. */
  lemma RunLosesIff(steps: seq<Step>)
    ensures NoneLost(Run(START, steps)) <==> AllSafe(START, steps)
  {
    RunFromLosesIff(START, steps);
  }
}
