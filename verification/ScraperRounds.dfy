/**
 The scraper's own scrapes inside the runs: whatever becomes of each poll and each probe, answered
 by the life that serves it or failed in any way, while the server goes on emitting and
 restarting, a sequence of scrapes records and moves the cursor as a run of steps does.
 */
module ScraperRounds {
  import opened StorageEvents
  import opened ScraperRuns

  // ---- Scrape after scrape ----

  /** What came back in one scrape. */
  datatype Exchange = Exchange(poll: Reply, probe: Reply)

  datatype Feed = Feed(after: nat, recorded: seq<Call>)

  function Scrapes(f: Feed, xs: seq<Exchange>): Feed
    decreases |xs|
  {
    if xs == [] then f
    else Scrapes(Feed(CursorAfterScrape(f.after, xs[0].poll, xs[0].probe), f.recorded + Taken(xs[0].poll)), xs[1..])
  }

  method Watch(s: Scraper, xs: seq<Exchange>)
    requires s.up
    modifies s`after, s`recorded
    ensures Feed(s.after, s.recorded) == Scrapes(old(Feed(s.after, s.recorded)), xs)
  {
    ghost var goal := Scrapes(Feed(s.after, s.recorded), xs);
    assert xs[0..] == xs;
    for i := 0 to |xs|
      invariant s.up && goal == Scrapes(Feed(s.after, s.recorded), xs[i..])
    {
      assert xs[i..][0] == xs[i] && xs[i..][1..] == xs[i + 1..];
      s.Scrape(xs[i].poll, xs[i].probe);
    }
  }

  // ---- One scrape as steps ----

  /** What becomes of a request: its reply arrives, or it comes to a failure. */
  datatype Fate = Arrives | Fails(reply: Reply)

  /** One scrape, with what the server does before the poll is served, while its reply is under way,
      before the probe is served, and while that reply is under way; ok is the probe's status. */
  datatype Round = Round(
    before: seq<Step>, poll: Fate, polling: seq<Step>, between: seq<Step>, probe: Fate, probing: seq<Step>, ok: bool)

  predicate ServerOnly(steps: seq<Step>) {
    forall i :: 0 <= i < |steps| ==> steps[i].Emit? || steps[i].Restart?
  }

  /** A poll fails without a body or with another status than OK; a probe without calls. */
  predicate Possible(x: Round) {
    && ServerOnly(x.before) && ServerOnly(x.polling) && ServerOnly(x.between) && ServerOnly(x.probing)
    && (x.poll.Fails? ==> x.poll.reply.NoReply? || !x.poll.reply.ok)
    && (x.probe.Fails? ==> x.probe.reply.NoReply? || x.probe.reply.calls == [])
  }

  function PollSteps(x: Round): seq<Step> {
    x.before + [ServePoll] + x.polling + [if x.poll.Arrives? then DeliverPoll else LosePoll]
  }

  function ProbeSteps(x: Round): seq<Step> {
    x.between + [ServeProbe] + x.probing + [if x.probe.Arrives? then DeliverProbe else LoseProbe]
  }

  function PollOf(w: World, x: Round): Reply {
    if x.poll.Arrives? then Body(true, Answer(Served(Run(w, x.before)), w.cursor)) else x.poll.reply
  }

  function ProbeOf(w: World, x: Round): Reply {
    if x.probe.Arrives? then Body(x.ok, Answer(Served(Run(Run(w, PollSteps(x)), x.between)), 0)) else x.probe.reply
  }

  function Calls(log: seq<Entry>): seq<Call> {
    seq(|log|, i requires 0 <= i < |log| => log[i].call)
  }

  /** The server moves nothing of the scraper's. */
  lemma {:induction false} ServerLeavesScraper(w: World, steps: seq<Step>)
    requires ServerOnly(steps)
    ensures var u := Run(w, steps); u.log == w.log && u.cursor == w.cursor && u.pending == w.pending
    decreases |steps|
  {
    if steps != [] {
      ServerLeavesScraper(Apply(w, steps[0]), steps[1..]);
    }
  }

  /** A request, what the server does meanwhile, and what becomes of the reply, one after another. */
  lemma RunParts(w: World, before: seq<Step>, serve: Step, under: seq<Step>, end: Step)
    ensures Run(w, before + [serve] + under + [end]) ==
      Apply(Run(Apply(Run(w, before), serve), under), end)
  {
    hide Apply;
    RunAppend(w, before + [serve] + under, [end]);
    RunAppend(w, before + [serve], under);
    RunAppend(w, before, [serve]);
    RunOne(Run(w, before), serve);
    RunOne(Run(w, before + [serve] + under), end);
  }

  lemma RunOne(w: World, step: Step)
    ensures Run(w, [step]) == Apply(w, step)
  {
    assert [step][1..] == [];
  }

  lemma PollStepsMean(w: World, x: Round)
    requires w.pending.Quiet? && Possible(x)
    ensures var u, poll := Run(w, PollSteps(x)), PollOf(w, x);
      && Calls(u.log) == Calls(w.log) + Taken(poll)
      && u.cursor == CursorAfterScrape(w.cursor, poll, NoReply)
      && u.pending == if poll.Body? && poll.ok && poll.calls == [] && w.cursor > 0 then ProbeDue else Quiet
  {
    hide Answer, Run;
    RunParts(w, x.before, ServePoll, x.polling, if x.poll.Arrives? then DeliverPoll else LosePoll);
    ServerLeavesScraper(w, x.before);
    var served := Apply(Run(w, x.before), ServePoll);
    ServerLeavesScraper(served, x.polling);
    var arrived := Run(served, x.polling);
    if x.poll.Arrives? {
      var page := Answer(Served(Run(w, x.before)), w.cursor);
      assert arrived.pending.page == page;
      CallsAppend(w.log, arrived.pending.life, page);
    } else {
      assert Calls(w.log) + [] == Calls(w.log);
    }
  }

  lemma CallsAppend(log: seq<Entry>, life: nat, page: seq<Call>)
    ensures Calls(log + Tagged(life, page)) == Calls(log) + page
  {
  }

  lemma ProbeStepsMean(w: World, x: Round)
    requires Possible(x) && (w.pending.Quiet? || w.pending.ProbeDue?)
    ensures var u := Run(w, ProbeSteps(x));
      && u.log == w.log && u.pending.Quiet?
      && u.cursor ==
        if w.pending.Quiet? || x.probe.Fails? then w.cursor
        else CursorAfterProbe(w.cursor, Answer(Served(Run(w, x.between)), 0))
  {
    hide Answer, Run;
    RunParts(w, x.between, ServeProbe, x.probing, if x.probe.Arrives? then DeliverProbe else LoseProbe);
    ServerLeavesScraper(w, x.between);
    ServerLeavesScraper(Apply(Run(w, x.between), ServeProbe), x.probing);
  }

  /** One scrape, whatever becomes of its requests, records and moves the cursor as its steps do. */
  lemma RoundIsScrape(w: World, x: Round)
    requires w.pending.Quiet? && Possible(x)
    ensures var u := Run(w, PollSteps(x) + ProbeSteps(x));
      && u.pending.Quiet?
      && u.cursor == CursorAfterScrape(w.cursor, PollOf(w, x), ProbeOf(w, x))
      && Calls(u.log) == Calls(w.log) + Taken(PollOf(w, x))
  {
    hide Answer, Run, Calls;
    RunAppend(w, PollSteps(x), ProbeSteps(x));
    PollStepsMean(w, x);
    ProbeStepsMean(Run(w, PollSteps(x)), x);
  }

  // ---- All the scrapes ----

  function AllSteps(xs: seq<Round>): seq<Step> {
    if xs == [] then [] else PollSteps(xs[0]) + ProbeSteps(xs[0]) + AllSteps(xs[1..])
  }

  /** The replies the scraper sees, each poll and probe answered by the world it meets. */
  function Exchanges(w: World, xs: seq<Round>): seq<Exchange>
    decreases |xs|
  {
    if xs == [] then []
    else [Exchange(PollOf(w, xs[0]), ProbeOf(w, xs[0]))] + Exchanges(Run(w, PollSteps(xs[0]) + ProbeSteps(xs[0])), xs[1..])
  }

  lemma {:induction false} RoundsAreScrapes(w: World, xs: seq<Round>)
    requires w.pending.Quiet? && forall i :: 0 <= i < |xs| ==> Possible(xs[i])
    ensures var u := Run(w, AllSteps(xs));
      Scrapes(Feed(w.cursor, Calls(w.log)), Exchanges(w, xs)) == Feed(u.cursor, Calls(u.log))
    decreases |xs|
  {
    hide Possible, PollSteps, ProbeSteps, PollOf, ProbeOf, Calls, Run, CursorAfterScrape, Taken;
    if xs == [] {
      RunNothing(w);
    } else {
      var first, rest := PollSteps(xs[0]) + ProbeSteps(xs[0]), AllSteps(xs[1..]);
      RoundIsScrape(w, xs[0]);
      RunAppend(w, first, rest);
      RoundsAreScrapes(Run(w, first), xs[1..]);
      assert Exchanges(w, xs)[1..] == Exchanges(Run(w, first), xs[1..]);
    }
  }

  lemma RunNothing(w: World)
    ensures Run(w, []) == w
  {
  }

  /** Over any sequence of scrapes, with any of their requests failing and the server doing anything
      around them, the calls recorded are genuine and in the order served, each once. */
  lemma ScrapesRecordOnceInOrder(xs: seq<Round>)
    requires forall i :: 0 <= i < |xs| ==> Possible(xs[i])
    ensures var u := Run(START, AllSteps(xs));
      && Scrapes(Feed(0, []), Exchanges(START, xs)) == Feed(u.cursor, Calls(u.log))
      && AllGenuine(u.lives, u.log) && InOrder(u.log)
  {
    hide Possible, Run, AllSteps, Exchanges, Scrapes, AllGenuine, InOrder;
    RoundsAreScrapes(START, xs);
    assert Calls(START.log) == [];
    RecordedOnceInOrder(AllSteps(xs));
  }

  /** A failed poll leaves log and cursor alone, whatever its reply held and whatever a probe would
      have said. */
  lemma FailedPollChangesNothing(f: Feed, poll: Reply, probe: Reply)
    requires poll.NoReply? || !poll.ok
    ensures Scrapes(f, [Exchange(poll, probe)]) == f
  {
    var xs := [Exchange(poll, probe)];
    assert xs[1..] == [] && f.recorded + [] == f.recorded;
  }
}
