/**
 The builtin storage server's call ring and the scraper that polls it.

 The server numbers its calls from 1 and keeps the newest thousand; a restart empties the
 ring and numbers from 1 again. The scraper asks for the calls after its cursor and, when
 nothing comes back, probes whether the numbers went back.
 */
module StorageEvents {

  const EVENT_RING_SIZE := 1000

  datatype Request = Request(rpc: string, bucket: string, name: string, status: int)

  datatype Call = Call(number: nat, request: Request)

  /** The calls of one server life, numbered from 1. */
  function Numbered(served: seq<Request>): (calls: seq<Call>)
    ensures |calls| == |served|
    ensures forall i :: 0 <= i < |served| ==> calls[i] == Call(i + 1, served[i])
  {
    seq(|served|, i requires 0 <= i < |served| => Call(i + 1, served[i]))
  }

  /** How many of a life's calls the ring has dropped. */
  function Dropped(newest: nat): nat {
    if newest <= EVENT_RING_SIZE then 0 else newest - EVENT_RING_SIZE
  }

  /** How many of a life's first calls `events?after=n` leaves out. */
  function Omitted(newest: nat, n: nat): (k: nat)
    ensures k <= newest
  {
    if n < Dropped(newest) then Dropped(newest) else if n < newest then n else newest
  }

  /** The answer to `events?after=n`: what the ring still holds, numbered above n. */
  function Answer(served: seq<Request>, n: nat): (page: seq<Call>)
    ensures |page| == |served| - Omitted(|served|, n)
    ensures forall i :: 0 <= i < |page| ==>
      page[i] == Call(Omitted(|served|, n) + i + 1, served[Omitted(|served|, n) + i])
  {
    Numbered(served)[Omitted(|served|, n)..]
  }

  /** The answer holds exactly the kept calls above n, oldest first. */
  lemma AnswerIsKeptCallsAbove(served: seq<Request>, n: nat, c: Call)
    ensures c in Answer(served, n) <==>
      1 <= c.number <= |served| && c.request == served[c.number - 1] &&
      Dropped(|served|) < c.number && n < c.number
  {
    var page, k := Answer(served, n), Omitted(|served|, n);
    if k < c.number <= |served| {
      assert page[c.number - 1 - k].number == c.number;
    }
  }

  /** The server's bounded buffer of calls. */
  class CallRing {
    var last: nat
    var calls: seq<Call>
    ghost var served: seq<Request>

    ghost predicate Valid()
      reads this
    {
      && last == |served|
      && calls == Numbered(served)[Dropped(last)..]
    }

    constructor ()
      ensures Valid() && served == []
    {
      last, calls, served := 0, [], [];
    }

    method Add(request: Request) returns (call: Call)
      requires Valid()
      modifies this
      ensures Valid()
      ensures served == old(served) + [request]
      ensures call == Call(|served|, request)
    {
      last := last + 1;
      call := Call(last, request);
      calls := calls + [call];
      if |calls| > EVENT_RING_SIZE {
        calls := calls[|calls| - EVENT_RING_SIZE..];
      }
      served := served + [request];
      assert Numbered(served) == Numbered(old(served)) + [call];
    }

    method After(n: nat) returns (page: seq<Call>)
      requires Valid()
      ensures page == Answer(served, n)
    {
      page := [];
      var from := Dropped(last);
      ghost var all := Numbered(served);
      for i := 0 to |calls|
        invariant page == if n <= from then all[from..from + i] else if n < from + i then all[n..from + i] else []
      {
        if calls[i].number > n {
          page := page + [calls[i]];
        }
      }
    }
  }

  /** What a GET of the events came to: no usable body, or a status and the decoded calls. */
  datatype Reply = NoReply | Body(ok: bool, calls: seq<Call>)

  /** The calls a poll's reply makes the scraper record. */
  function Taken(poll: Reply): seq<Call> {
    if poll.Body? && poll.ok then poll.calls else []
  }

  function CursorAfterPage(cursor: nat, page: seq<Call>): nat {
    if page == [] then cursor else page[|page| - 1].number
  }

  /** The probe's verdict: 0 when the newest call kept is below the cursor. */
  function CursorAfterProbe(cursor: nat, page: seq<Call>): nat {
    if page != [] && page[|page| - 1].number < cursor then 0 else cursor
  }

  /** The newest call kept closes an answer; a page moves the cursor to it, and a probe's page resets
      the cursor exactly when it is below. */
  lemma AnswerMovesCursor(served: seq<Request>, n: nat, cursor: nat)
    ensures Answer(served, n) == [] <==> |served| <= n
    ensures CursorAfterPage(cursor, Answer(served, n)) == if n < |served| then |served| else cursor
    ensures CursorAfterProbe(cursor, Answer(served, 0)) == if 1 <= |served| < cursor then 0 else cursor
  {
    var page, all := Answer(served, n), Answer(served, 0);
    assert page != [] ==> page[|page| - 1].number == |served|;
    assert all != [] ==> all[|all| - 1].number == |served|;
  }

  /** The cursor after a whole scrape: the probe counts only when the poll came back empty. */
  function CursorAfterScrape(cursor: nat, poll: Reply, probe: Reply): nat {
    if poll.NoReply? || !poll.ok then cursor
    else if poll.calls == [] && cursor > 0 && probe.Body? then CursorAfterProbe(cursor, probe.calls)
    else CursorAfterPage(cursor, poll.calls)
  }

  class Scraper {
    var up: bool
    var after: nat
    var recorded: seq<Call>

    constructor (up: bool)
      ensures this.up == up && after == 0 && recorded == []
    {
      this.up, after, recorded := up, 0, [];
    }

    method Scrape(poll: Reply, probe: Reply)
      modifies this`after, this`recorded
      ensures recorded == old(recorded) + (if up then Taken(poll) else [])
      ensures after == if up then CursorAfterScrape(old(after), poll, probe) else old(after)
    {
      if !up {
        return;
      }
      var asked := after;
      if poll.NoReply? || !poll.ok {
        return;
      }
      for i := 0 to |poll.calls|
        invariant recorded == old(recorded) + poll.calls[..i]
        invariant after == CursorAfterPage(asked, poll.calls[..i])
      {
        recorded := recorded + [poll.calls[i]];
        after := poll.calls[i].number;
      }
      assert poll.calls[..|poll.calls|] == poll.calls;
      if poll.calls == [] && asked > 0 {
        after := ProbeRestart(probe, asked);
      }
    }

    method ProbeRestart(probe: Reply, asked: nat) returns (cursor: nat)
      ensures cursor == if probe.Body? then CursorAfterProbe(asked, probe.calls) else asked
    {
      if probe.NoReply? || probe.calls == [] {
        return asked;
      }
      if probe.calls[|probe.calls| - 1].number < asked {
        return 0;
      }
      return asked;
    }
  }
}
