/**
 Every run of the storage server and the scraper together.

 A world holds every life of the server (a restart starts the next one), the scraper's log and
 cursor, and the reply in flight. Requests fail, replies are lost, and the server may emit or
 restart while a reply is under way, also between a poll and its probe.
 */
module ScraperRuns {
  import opened StorageEvents

  /** One recorded call, tagged with the server life that served it. */
  datatype Entry = Entry(life: nat, call: Call)

  datatype Pending =
    | Quiet
    | PollReply(life: nat, page: seq<Call>)
    | ProbeDue
    | ProbeReply(page: seq<Call>)

  datatype State = State(lives: seq<seq<Request>>, log: seq<Entry>, cursor: nat, pending: Pending)

  type World = w: State | |w.lives| > 0 witness State([[]], [], 0, Quiet)

  datatype Step =
    | Emit(request: Request)
    | Restart
    | ServePoll
    | LosePoll
    | DeliverPoll
    | ServeProbe
    | LoseProbe
    | DeliverProbe

  const START: World := State([[]], [], 0, Quiet)

  function Life(w: World): nat { |w.lives| - 1 }

  function Served(w: World): seq<Request> { w.lives[Life(w)] }

  function Newest(w: World): nat { |Served(w)| }

  function Tagged(life: nat, page: seq<Call>): (entries: seq<Entry>)
    ensures |entries| == |page|
    ensures forall i :: 0 <= i < |page| ==> entries[i] == Entry(life, page[i])
  {
    seq(|page|, i requires 0 <= i < |page| => Entry(life, page[i]))
  }

  /** One step; a step that is not enabled changes nothing. */
  function Apply(w: World, step: Step): World {
    match step
    case Emit(request) => w.(lives := w.lives[Life(w) := Served(w) + [request]])
    case Restart => w.(lives := w.lives + [[]])
    case ServePoll =>
      if w.pending.Quiet? then w.(pending := PollReply(Life(w), Answer(Served(w), w.cursor))) else w
    case LosePoll => if w.pending.PollReply? then w.(pending := Quiet) else w
    case DeliverPoll => if w.pending.PollReply? then Land(w) else w
    case ServeProbe =>
      if w.pending.ProbeDue? then w.(pending := ProbeReply(Answer(Served(w), 0))) else w
    case LoseProbe =>
      if w.pending.ProbeDue? || w.pending.ProbeReply? then w.(pending := Quiet) else w
    case DeliverProbe => if w.pending.ProbeReply? then Land(w) else w
  }

  /** The world once the reply in flight has been handled. */
  function Land(w: World): World {
    match w.pending
    case PollReply(life, page) =>
      w.(log := w.log + Tagged(life, page),
         cursor := CursorAfterPage(w.cursor, page),
         pending := if page == [] && w.cursor > 0 then ProbeDue else Quiet)
    case ProbeReply(page) => w.(cursor := CursorAfterProbe(w.cursor, page), pending := Quiet)
    case _ => w
  }

  /** The world once the reply in flight has been lost. */
  function Lose(w: World): World {
    w.(pending := Quiet)
  }

  /** The steps are the scraper's own: handling a poll's reply, and a probe's after an empty poll,
      records and moves the cursor as one scrape with those replies. */
  lemma LandingIsScraping(w: World, u: World)
    requires w.pending.PollReply?
    requires u.pending.ProbeReply? && u.cursor == w.cursor > 0
    ensures Land(w).log == w.log + Tagged(w.pending.life, Taken(Body(true, w.pending.page)))
    ensures Land(w).cursor == CursorAfterScrape(w.cursor, Body(true, w.pending.page), NoReply)
    ensures w.pending.page == [] ==>
      Land(w).pending.ProbeDue? &&
      Land(u).cursor == CursorAfterScrape(w.cursor, Body(true, w.pending.page), Body(true, u.pending.page))
  {
  }

  function Run(w: World, steps: seq<Step>): World
    decreases |steps|
  {
    if steps == [] then w else Run(Apply(w, steps[0]), steps[1..])
  }

  lemma {:induction false} RunAppend(w: World, a: seq<Step>, b: seq<Step>)
    ensures Run(w, a + b) == Run(Run(w, a), b)
    decreases |a|
  {
    if a == [] {
      assert a + b == b;
    } else {
      assert (a + b)[1..] == a[1..] + b;
      RunAppend(Apply(w, a[0]), a[1..], b);
    }
  }

  // ---- What every step keeps ----

  predicate Before(x: Entry, y: Entry) {
    x.life < y.life || (x.life == y.life && x.call.number < y.call.number)
  }

  ghost predicate InOrder(log: seq<Entry>) {
    forall i, j :: 0 <= i < j < |log| ==> Before(log[i], log[j])
  }

  /** A call the server really served, with its own number. */
  predicate Genuine(lives: seq<seq<Request>>, e: Entry) {
    && e.life < |lives|
    && 1 <= e.call.number <= |lives[e.life]|
    && e.call.request == lives[e.life][e.call.number - 1]
  }

  ghost predicate AllGenuine(lives: seq<seq<Request>>, log: seq<Entry>) {
    forall i :: 0 <= i < |log| ==> Genuine(lives, log[i])
  }

  /** Nothing of the server's current life has been recorded. */
  predicate Unseen(w: World) {
    w.log == [] || w.log[|w.log| - 1].life < Life(w)
  }

  predicate CursorFits(w: World) {
    if w.log == [] then w.cursor == 0
    else w.cursor == w.log[|w.log| - 1].call.number || (w.cursor == 0 && Unseen(w))
  }

  /** The page is what its life answered when its last call was the newest. */
  predicate PageFits(served: seq<Request>, cursor: nat, page: seq<Call>) {
    page == [] ||
    (var m := page[|page| - 1].number; m <= |served| && page == Answer(served[..m], cursor))
  }

  ghost predicate PendingFits(w: World) {
    match w.pending
    case Quiet => true
    case PollReply(life, page) =>
      && life < |w.lives|
      && (forall c :: c in page ==> c.number > w.cursor)
      && AllGenuine(w.lives, w.log + Tagged(life, page))
      && InOrder(w.log + Tagged(life, page))
      && PageFits(w.lives[life], w.cursor, page)
    case ProbeDue => w.cursor > 0
    case ProbeReply(page) => w.cursor > 0 && (CursorAfterProbe(w.cursor, page) == 0 ==> Unseen(w))
  }

  ghost predicate Inv(w: World) {
    && AllGenuine(w.lives, w.log)
    && InOrder(w.log)
    && CursorFits(w)
    && PendingFits(w)
  }

  lemma ServerKeepsGenuine(w: World, step: Step, log: seq<Entry>)
    requires step.Emit? || step.Restart?
    requires AllGenuine(w.lives, log)
    ensures AllGenuine(Apply(w, step).lives, log)
  {
    forall i | 0 <= i < |log|
      ensures Genuine(Apply(w, step).lives, log[i])
    {
      assert Genuine(w.lives, log[i]);
    }
  }

  lemma ServerKeepsPage(w: World, step: Step)
    requires step.Emit? || step.Restart?
    requires w.pending.PollReply? && w.pending.life < |w.lives|
    requires PageFits(w.lives[w.pending.life], w.cursor, w.pending.page)
    ensures PageFits(Apply(w, step).lives[w.pending.life], w.cursor, w.pending.page)
  {
    var was, now, page := w.lives[w.pending.life], Apply(w, step).lives[w.pending.life], w.pending.page;
    if page != [] {
      var m := page[|page| - 1].number;
      assert was <= now && now[..m] == was[..m];
    }
  }

  lemma ServerKeepsInv(w: World, step: Step)
    requires Inv(w)
    requires step.Emit? || step.Restart?
    ensures Inv(Apply(w, step))
  {
    hide PageFits;
    ServerKeepsGenuine(w, step, w.log);
    if w.pending.PollReply? {
      ServerKeepsGenuine(w, step, w.log + Tagged(w.pending.life, w.pending.page));
      ServerKeepsPage(w, step);
    }
  }

  lemma GenuineAppend(lives: seq<seq<Request>>, a: seq<Entry>, b: seq<Entry>)
    requires AllGenuine(lives, a) && AllGenuine(lives, b)
    ensures AllGenuine(lives, a + b)
  {
    hide Genuine;
  }

  lemma InOrderAppend(a: seq<Entry>, b: seq<Entry>)
    requires InOrder(a) && InOrder(b)
    requires a != [] ==> forall j :: 0 <= j < |b| ==> Before(a[|a| - 1], b[j])
    ensures InOrder(a + b)
  {
    forall i, j | 0 <= i < |a| && 0 <= j < |b|
      ensures Before(a[i], b[j])
    {
      assert Before(a[|a| - 1], b[j]);
      assert i == |a| - 1 || Before(a[i], a[|a| - 1]);
    }
  }

  /** The current life's answer, as entries: genuine, in order, and above the cursor. */
  lemma AnswerEntries(w: World)
    ensures var page := Answer(Served(w), w.cursor);
      && AllGenuine(w.lives, Tagged(Life(w), page)) && InOrder(Tagged(Life(w), page))
      && forall c :: c in page ==> c.number > w.cursor
  {
  }

  lemma LastBeforeAnswer(w: World)
    requires AllGenuine(w.lives, w.log) && CursorFits(w) && w.log != []
    ensures forall j :: 0 <= j < |Answer(Served(w), w.cursor)| ==>
      Before(w.log[|w.log| - 1], Entry(Life(w), Answer(Served(w), w.cursor)[j]))
  {
    assert Genuine(w.lives, w.log[|w.log| - 1]);
  }

  lemma AnswerFits(served: seq<Request>, cursor: nat)
    ensures PageFits(served, cursor, Answer(served, cursor))
  {
    assert served[..|served|] == served;
  }

  lemma ServePollKeepsInv(w: World)
    requires Inv(w)
    ensures Inv(Apply(w, ServePoll))
  {
    hide Answer, Genuine, Before, AllGenuine, InOrder, PageFits;
    if w.pending.Quiet? {
      AnswerFits(Served(w), w.cursor);
      AnswerEntries(w);
      if w.log != [] {
        LastBeforeAnswer(w);
      }
      GenuineAppend(w.lives, w.log, Tagged(Life(w), Answer(Served(w), w.cursor)));
      InOrderAppend(w.log, Tagged(Life(w), Answer(Served(w), w.cursor)));
    }
  }

  lemma ServeProbeKeepsInv(w: World)
    requires Inv(w)
    ensures Inv(Apply(w, ServeProbe))
  {
    if w.pending.ProbeDue? && !Unseen(w) {
      assert Genuine(w.lives, w.log[|w.log| - 1]);
    }
  }

  lemma LandKeepsInv(w: World)
    requires Inv(w)
    ensures Inv(Land(w))
  {
  }

  lemma LoseKeepsInv(w: World)
    requires Inv(w)
    ensures Inv(Lose(w))
  {
  }

  lemma StepKeepsInv(w: World, step: Step)
    requires Inv(w)
    ensures Inv(Apply(w, step))
  {
    hide Inv, Land;
    match step
    case Emit(_) => ServerKeepsInv(w, step);
    case Restart => ServerKeepsInv(w, step);
    case ServePoll => ServePollKeepsInv(w);
    case ServeProbe => ServeProbeKeepsInv(w);
    case _ => LandKeepsInv(w); LoseKeepsInv(w);
  }

  lemma {:induction false} RunKeepsInv(w: World, steps: seq<Step>)
    requires Inv(w)
    ensures Inv(Run(w, steps))
    decreases |steps|
  {
    if steps != [] {
      StepKeepsInv(w, steps[0]);
      RunKeepsInv(Apply(w, steps[0]), steps[1..]);
    }
  }

  /** In every run the log holds calls really served, each once, in the order served. */
  lemma RecordedOnceInOrder(steps: seq<Step>)
    ensures AllGenuine(Run(START, steps).lives, Run(START, steps).log)
    ensures InOrder(Run(START, steps).log)
    ensures forall i, j :: 0 <= i < j < |Run(START, steps).log| ==>
      Run(START, steps).log[i] != Run(START, steps).log[j]
  {
    RunKeepsInv(START, steps);
    var log := Run(START, steps).log;
    forall i, j | 0 <= i < j < |log|
      ensures log[i] != log[j]
    {
      assert Before(log[i], log[j]);
    }
  }

  /** The cursor goes back only to 0, and only while nothing of the current life is recorded. */
  lemma CursorGoesBackOnlyUnseen(steps: seq<Step>, step: Step)
    ensures var w, w' := Run(START, steps), Apply(Run(START, steps), step);
      w'.cursor < w.cursor ==> w'.cursor == 0 && w'.log == w.log && Unseen(w')
  {
    RunKeepsInv(START, steps);
  }
}
