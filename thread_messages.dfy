/**
  * The history pager of utils.js, `GetMessagesFromThread`: ask the platform for pages of up to
  * 100 messages of a thread, each page older than the last message collected so far, until the
  * collection is as long as the thread's `message_count`; then reverse the collection once.
  *
  * The platform is a `PageSource`: a pure function from a request to its response. The source
  * code has no short-page stop, so under a pure source an empty page after a non-empty one
  * leaves the loop state exactly as it was and the loop repeats the same request forever; the
  * model reports that run as `Diverges` with the repeated state instead of running on.
  */
module ThreadMessages {
  import opened Discord

  /** The `limit` query parameter of every list-messages request. */
  const PageLimit: nat := 100

  /** One `channels/{channelId}/messages?limit={limit}[&before={before}]` request. */
  datatype PageRequest = PageRequest(channelId: Snowflake, limit: nat, before: Option<Snowflake>)

  /** The parsed page, newest message first, or the error `DiscordRequest` throws on a non-OK status. */
  datatype Response = Page(messages: seq<Message>) | Failure(error: ApiError)

  type PageSource = PageRequest -> Response

  /** The `before` parameter is sent only when `lastMsgID` is truthy: neither null nor the empty string. */
  function BeforeCursor(lastMsgId: Option<Snowflake>): (before: Option<Snowflake>)
    ensures before == None <==> lastMsgId == None || lastMsgId == Some("")
    ensures before.Some? ==> before == lastMsgId
  {
    if lastMsgId.Some? && lastMsgId.value != "" then lastMsgId else None
  }

  function RequestFor(thread: Thread, lastMsgId: Option<Snowflake>): PageRequest
  {
    PageRequest(thread.id, PageLimit, BeforeCursor(lastMsgId))
  }

  /** The loop's two variables: the accumulator `messages` and the cursor `lastMsgID`. */
  datatype LoopState = LoopState(messages: seq<Message>, lastMsgId: Option<Snowflake>)

  /** The state before the first request. */
  const Start: LoopState := LoopState([], None)

  /** Every state the loop reaches: the cursor is unset exactly while nothing is collected, and is
      otherwise the id of the last message collected. */
  predicate Reached(s: LoopState)
  {
    if s.messages == [] then s.lastMsgId == None else s.lastMsgId == Some(Last(s.messages).id)
  }

  /** The states at the head of the loop body: the start, or a state the loop test let through. */
  predicate Entry(thread: Thread, s: LoopState)
  {
    Reached(s) && (s.messages == [] || |s.messages| < thread.messageCount)
  }

  /** Why a fetch throws: a failed request, or `messages.at(-1).id` read on an empty accumulator. */
  datatype FetchError = RequestFailed(error: ApiError) | NoLastMessage

  datatype StepResult = Continued(state: LoopState) | Threw(error: FetchError)

  /** One pass through the body of the do-loop: request, append the page, move the cursor. */
  function Step(src: PageSource, thread: Thread, s: LoopState): (r: StepResult)
    ensures var response := src(RequestFor(thread, s.lastMsgId));
      && (r.Threw? && r.error.RequestFailed? <==> response.Failure?)
      && (response.Failure? ==> r == Threw(RequestFailed(response.error)))
      && (r == Threw(NoLastMessage) <==> response == Page([]) && s.messages == [])
      && (r.Continued? ==>
            && r.state.messages == s.messages + response.messages
            && r.state.messages != []
            && r.state.lastMsgId == Some(Last(r.state.messages).id))
  {
    match src(RequestFor(thread, s.lastMsgId))
    case Failure(e) => Threw(RequestFailed(e))
    case Page(page) =>
      var messages := s.messages + page;
      if messages == [] then Threw(NoLastMessage)
      else Continued(LoopState(messages, Some(Last(messages).id)))
  }

  /** A pass appends the page it received and keeps the cursor on the last message; it leaves the
      state unchanged exactly when the page is empty, and otherwise the accumulator grows. */
  lemma StepAppends(src: PageSource, thread: Thread, s: LoopState)
    requires Reached(s)
    ensures Step(src, thread, s).Continued? ==>
      var next := Step(src, thread, s).state;
      var response := src(RequestFor(thread, s.lastMsgId));
      && response.Page?
      && next.messages == s.messages + response.messages
      && Reached(next)
      && (next == s <==> response.messages == [])
      && (next != s ==> |next.messages| > |s.messages|)
  {
  }

  /** What the source does with the thread: returns the collected messages reversed, throws, or
      never returns because the loop state repeats. */
  datatype FetchOutcome = Fetched(messages: seq<Message>) | Aborted(error: FetchError) | Diverges(state: LoopState)

  /** One pass of the loop as observed: the state it began in, the request it made, the response. */
  datatype Iteration = Iteration(start: LoopState, request: PageRequest, response: Response)

  datatype Run = Run(iterations: seq<Iteration>, outcome: FetchOutcome)

  /** The loop run from state `s`, with every pass it makes and how it ends. */
  function RunFrom(src: PageSource, thread: Thread, s: LoopState): (r: Run)
    requires Reached(s)
    ensures |r.iterations| >= 1
    ensures r.iterations[0] == Iteration(s, RequestFor(thread, s.lastMsgId), src(RequestFor(thread, s.lastMsgId)))
    decreases thread.messageCount - |s.messages|
  {
    var request := RequestFor(thread, s.lastMsgId);
    var first := Iteration(s, request, src(request));
    match Step(src, thread, s)
    case Threw(e) => Run([first], Aborted(e))
    case Continued(next) =>
      StepAppends(src, thread, s);
      if |next.messages| >= thread.messageCount then Run([first], Fetched(Reverse(next.messages)))
      else if next == s then Run([first], Diverges(s))
      else
        var rest := RunFrom(src, thread, next);
        Run([first] + rest.iterations, rest.outcome)
  }

  /** What `GetMessagesFromThread(thread)` does. */
  function Fetch(src: PageSource, thread: Thread): (r: FetchOutcome)
    ensures r.Fetched? ==> |r.messages| >= thread.messageCount
    ensures r.Diverges? ==>
      0 < |r.state.messages| < thread.messageCount && Step(src, thread, r.state) == Continued(r.state)
  {
    FetchedIsReversedPages(src, thread, Start);
    DivergesIsFixedPoint(src, thread, Start);
    RunFrom(src, thread, Start).outcome
  }

  /** The messages of all the pages the run received, in the order it received them. */
  function Pages(iterations: seq<Iteration>): seq<Message>
  {
    if iterations == [] then []
    else
      var response := iterations[0].response;
      (if response.Page? then response.messages else []) + Pages(iterations[1..])
  }

  /** Pass `next` comes after pass `prev`: `prev` received a non-empty page, `next` starts from the
      accumulator of `prev` followed by that page, with the cursor on its last message, and the
      loop test (`messages.length < thread.message_count`) let it through. */
  predicate Follows(thread: Thread, prev: Iteration, next: Iteration)
  {
    && prev.response.Page?
    && prev.response.messages != []
    && next.start.messages == prev.start.messages + prev.response.messages
    && next.start.messages != []
    && next.start.lastMsgId == Some(Last(next.start.messages).id)
    && |next.start.messages| < thread.messageCount
  }

  /** The passes of a run chain up as the do-loop does: the first starts from `s`; every request
      asks the thread for `PageLimit` messages before the current cursor, and gets the source's
      answer; a pass is followed by another only if its page was non-empty and the accumulator it
      left is the previous accumulator followed by that page, with the cursor on its last message
      and still shorter than `messageCount`. */
  lemma {:induction false} RunIterations(src: PageSource, thread: Thread, s: LoopState)
    requires Reached(s)
    ensures var its := RunFrom(src, thread, s).iterations;
      && its[0].start == s
      && (forall i :: 0 <= i < |its| ==>
            && its[i].request == PageRequest(thread.id, PageLimit, BeforeCursor(its[i].start.lastMsgId))
            && its[i].response == src(its[i].request)
            && Reached(its[i].start))
      && (forall i, j :: 0 <= i && j == i + 1 && j < |its| ==> Follows(thread, its[i], its[j]))
    decreases thread.messageCount - |s.messages|
  {
    var run := RunFrom(src, thread, s);
    StepAppends(src, thread, s);
    if |run.iterations| > 1 {
      var next := Step(src, thread, s).state;
      RunIterations(src, thread, next);
      var rest := RunFrom(src, thread, next).iterations;
      assert run.iterations == [run.iterations[0]] + rest;
      forall i | 0 < i < |run.iterations|
        ensures run.iterations[i] == rest[i - 1]
      {
      }
    }
  }

  /** The first request carries no `before` cursor. */
  lemma FirstRequestUncursored(src: PageSource, thread: Thread)
    ensures RunFrom(src, thread, Start).iterations[0].request == PageRequest(thread.id, PageLimit, None)
  {
  }

  /** A fetch that returns gives back the reverse of everything collected: the messages it started
      with followed by every page in request order. That collection is at least `messageCount`
      long, and the last response was a page. */
  lemma {:induction false} FetchedIsReversedPages(src: PageSource, thread: Thread, s: LoopState)
    requires Reached(s)
    ensures var run := RunFrom(src, thread, s);
      run.outcome.Fetched? ==>
        && Last(run.iterations).response.Page?
        && |s.messages + Pages(run.iterations)| >= thread.messageCount
        && run.outcome.messages == Reverse(s.messages + Pages(run.iterations))
    decreases thread.messageCount - |s.messages|
  {
    var run := RunFrom(src, thread, s);
    StepAppends(src, thread, s);
    if |run.iterations| > 1 {
      var next := Step(src, thread, s).state;
      FetchedIsReversedPages(src, thread, next);
      var rest := RunFrom(src, thread, next).iterations;
      assert run.iterations[1..] == rest;
      assert Pages(run.iterations) == run.iterations[0].response.messages + Pages(rest);
    } else {
      assert Pages(run.iterations) == Pages([run.iterations[0]]);
    }
  }

  /** A failed request ends the run at once, and the run ends in `RequestFailed` exactly when its
      last request failed, with that request's error; no collected messages are returned. */
  lemma {:induction false} FailureAborts(src: PageSource, thread: Thread, s: LoopState)
    requires Reached(s)
    ensures var run := RunFrom(src, thread, s);
      && (Last(run.iterations).response.Failure? <==> run.outcome.Aborted? && run.outcome.error.RequestFailed?)
      && (Last(run.iterations).response.Failure? ==>
            run.outcome == Aborted(RequestFailed(Last(run.iterations).response.error)))
    decreases thread.messageCount - |s.messages|
  {
    var run := RunFrom(src, thread, s);
    StepAppends(src, thread, s);
    if |run.iterations| > 1 {
      var next := Step(src, thread, s).state;
      FailureAborts(src, thread, next);
      assert Last(run.iterations) == Last(RunFrom(src, thread, next).iterations);
    }
  }

  /** Once something is collected, `messages.at(-1)` is always defined: a run from a non-empty
      accumulator never ends in `NoLastMessage`. */
  lemma {:induction false} NoLastMessageOnlyFirst(src: PageSource, thread: Thread, s: LoopState)
    requires Reached(s) && s.messages != []
    ensures RunFrom(src, thread, s).outcome != Aborted(NoLastMessage)
    decreases thread.messageCount - |s.messages|
  {
    StepAppends(src, thread, s);
    match Step(src, thread, s)
    case Threw(e) =>
    case Continued(next) =>
      if |next.messages| < thread.messageCount && next != s {
        NoLastMessageOnlyFirst(src, thread, next);
      }
  }

  /** The fetch throws on `messages.at(-1).id` exactly when the very first page is empty. */
  lemma EmptyFirstPage(src: PageSource, thread: Thread)
    ensures Fetch(src, thread) == Aborted(NoLastMessage) <==> src(PageRequest(thread.id, PageLimit, None)) == Page([])
  {
    StepAppends(src, thread, Start);
    match Step(src, thread, Start)
    case Threw(e) =>
    case Continued(next) =>
      if |next.messages| < thread.messageCount && next != Start {
        NoLastMessageOnlyFirst(src, thread, next);
      }
  }

  /** A run never returns exactly when a page after the first comes back empty: the loop test is
      still true, and one more pass from the repeated state leads back to the same state, so the
      source issues the same request forever. */
  lemma {:induction false} DivergesIsFixedPoint(src: PageSource, thread: Thread, s: LoopState)
    requires Entry(thread, s)
    ensures var run := RunFrom(src, thread, s);
      && (run.outcome.Diverges? <==>
            Last(run.iterations).response == Page([]) && Last(run.iterations).start.messages != [])
      && (run.outcome.Diverges? ==>
            && run.outcome.state == Last(run.iterations).start
            && Entry(thread, run.outcome.state)
            && 0 < |run.outcome.state.messages| < thread.messageCount
            && Step(src, thread, run.outcome.state) == Continued(run.outcome.state))
    decreases thread.messageCount - |s.messages|
  {
    var run := RunFrom(src, thread, s);
    StepAppends(src, thread, s);
    if |run.iterations| > 1 {
      var next := Step(src, thread, s).state;
      DivergesIsFixedPoint(src, thread, next);
      assert Last(run.iterations) == Last(RunFrom(src, thread, next).iterations);
    }
  }

  /** With a source that answers every request the loop can send for this thread (limit
      `PageLimit`, any cursor) with a non-empty page, the fetch returns. */
  lemma {:induction false} NonEmptyPagesReturn(src: PageSource, thread: Thread, s: LoopState)
    requires Reached(s)
    requires forall lastMsgId :: src(RequestFor(thread, lastMsgId)).Page? && src(RequestFor(thread, lastMsgId)).messages != []
    ensures RunFrom(src, thread, s).outcome.Fetched?
    decreases thread.messageCount - |s.messages|
  {
    StepAppends(src, thread, s);
    var next := Step(src, thread, s).state;
    if |next.messages| < thread.messageCount {
      NonEmptyPagesReturn(src, thread, next);
    }
  }

  function Min(a: int, b: int): int
  {
    if a <= b then a else b
  }

  /** How many messages the pages hold that a loop needs to reach `count` when every page is
      full: the first page is always requested, then one more page while fewer than `count`
      messages are collected. It never falls short of `count` and overshoots by less than a page. */
  function Covered(count: int): (n: nat)
    ensures n >= PageLimit && n >= count
    ensures count > 0 ==> n < count + PageLimit
    decreases count
  {
    if count <= PageLimit then PageLimit else PageLimit + Covered(count - PageLimit)
  }

  /** The loop state after collecting the `k` newest messages of `history`. */
  function Collected(history: seq<Message>, k: nat): LoopState
    requires k <= |history|
  {
    LoopState(history[..k], if k == 0 then None else Some(history[k - 1].id))
  }

  /** The platform holds `history` for `thread`, newest message first, with non-empty ids, and
      answers each list request as its API documents: the up to `PageLimit` messages just older
      than the `before` message, or the newest ones when there is no cursor. */
  predicate Serves(src: PageSource, thread: Thread, history: seq<Message>)
  {
    && (forall i :: 0 <= i < |history| ==> history[i].id != "")
    && (forall k :: 0 <= k <= |history| ==>
          src(PageRequest(thread.id, PageLimit, Collected(history, k).lastMsgId))
            == Page(history[k..Min(k + PageLimit, |history|)]))
  }

  /** Against a platform that serves `history`, one pass from the `k` newest messages collects
      the next page of them, or throws when the history is empty. */
  lemma ServedStep(src: PageSource, thread: Thread, history: seq<Message>, k: nat)
    requires Serves(src, thread, history)
    requires k <= |history|
    ensures Reached(Collected(history, k))
    ensures var m := Min(k + PageLimit, |history|);
      Step(src, thread, Collected(history, k))
        == if m == 0 then Threw(NoLastMessage) else Continued(Collected(history, m))
  {
    var s := Collected(history, k);
    var m := Min(k + PageLimit, |history|);
    assert s.lastMsgId.Some? ==> s.lastMsgId.value == history[k - 1].id != "";
    assert src(RequestFor(thread, s.lastMsgId)) == Page(history[k..m]);
    assert history[..k] + history[k..m] == history[..m];
  }

  /** How a run goes on after a pass that did not throw. */
  lemma RunAfterPass(src: PageSource, thread: Thread, s: LoopState, next: LoopState)
    requires Reached(s) && Step(src, thread, s) == Continued(next)
    ensures Reached(next)
    ensures RunFrom(src, thread, s).outcome ==
      if |next.messages| >= thread.messageCount then Fetched(Reverse(next.messages))
      else if next == s then Diverges(s)
      else RunFrom(src, thread, next).outcome
  {
    StepAppends(src, thread, s);
  }

  /** Against a platform that serves `history`, the run from the `k` newest messages after its
      first pass. */
  lemma ServedPass(src: PageSource, thread: Thread, history: seq<Message>, k: nat)
    requires Serves(src, thread, history)
    requires k <= |history|
    ensures Reached(Collected(history, k))
    ensures var m := Min(k + PageLimit, |history|);
      RunFrom(src, thread, Collected(history, k)).outcome ==
        if m == 0 then Aborted(NoLastMessage)
        else if m >= thread.messageCount then Fetched(Reverse(history[..m]))
        else if m == k then Diverges(Collected(history, k))
        else RunFrom(src, thread, Collected(history, m)).outcome
  {
    var m := Min(k + PageLimit, |history|);
    ServedStep(src, thread, history, k);
    if m > 0 {
      RunAfterPass(src, thread, Collected(history, k), Collected(history, m));
    }
  }

  /** How the run from the `k` newest messages of `history` ends when every page is the next
      slice of `history`, pass by pass. */
  function ServedOutcome(history: seq<Message>, count: int, k: nat): FetchOutcome
    requires k <= |history|
    decreases |history| - k
  {
    var m := Min(k + PageLimit, |history|);
    if m == 0 then Aborted(NoLastMessage)
    else if m >= count then Fetched(Reverse(history[..m]))
    else if m == k then Diverges(Collected(history, k))
    else ServedOutcome(history, count, m)
  }

  /** Against a platform that serves `history`, the run ends as `ServedOutcome` says. */
  lemma {:induction false} ServedRunOutcome(src: PageSource, thread: Thread, history: seq<Message>, k: nat)
    requires Serves(src, thread, history)
    requires k <= |history|
    ensures Reached(Collected(history, k))
    ensures RunFrom(src, thread, Collected(history, k)).outcome == ServedOutcome(history, thread.messageCount, k)
    decreases |history| - k
  {
    var m := Min(k + PageLimit, |history|);
    ServedPass(src, thread, history, k);
    if m > 0 && m < thread.messageCount && m != k {
      ServedRunOutcome(src, thread, history, m);
    }
  }

  /** Pass by pass, an empty history throws, a history of at least `count` messages gives its
      newest messages in whole pages reversed, and a shorter one repeats its oldest state. */
  lemma {:induction false} ServedOutcomeCases(history: seq<Message>, count: int, k: nat)
    requires k <= |history| && (k == 0 || k < count)
    ensures var outcome := ServedOutcome(history, count, k);
      && (history == [] ==> outcome == Aborted(NoLastMessage))
      && (history != [] && |history| >= count ==>
            outcome == Fetched(Reverse(history[..Min(|history|, k + Covered(count - k))])))
      && (history != [] && |history| < count ==> outcome == Diverges(Collected(history, |history|)))
    decreases |history| - k
  {
    var m := Min(k + PageLimit, |history|);
    if m > 0 && m < count && m != k {
      ServedOutcomeCases(history, count, m);
      if |history| >= count {
        CoveredAfterFullPage(count, k, m);
      }
    }
  }

  /** Against a platform that serves `history`, the run from the `k` newest messages: an empty
      thread throws; a thread holding at least `messageCount` messages returns the newest of them
      (up to the first multiple of `PageLimit` at or past `messageCount`) in reverse; a thread
      holding fewer (deleted messages) never returns, repeating the request before the oldest. */
  lemma ServedRun(src: PageSource, thread: Thread, history: seq<Message>, k: nat)
    requires Serves(src, thread, history)
    requires k <= |history| && (k == 0 || k < thread.messageCount)
    ensures Reached(Collected(history, k))
    ensures var outcome := RunFrom(src, thread, Collected(history, k)).outcome;
      && (history == [] ==> outcome == Aborted(NoLastMessage))
      && (history != [] && |history| >= thread.messageCount ==>
            outcome == Fetched(Reverse(history[..Min(|history|, k + Covered(thread.messageCount - k))])))
      && (history != [] && |history| < thread.messageCount ==>
            outcome == Diverges(Collected(history, |history|)))
  {
    ServedRunOutcome(src, thread, history, k);
    ServedOutcomeCases(history, thread.messageCount, k);
  }

  /** A full page that leaves the loop test true moves the covered end along with it. */
  lemma CoveredAfterFullPage(count: int, k: int, m: int)
    requires m == k + PageLimit && m < count
    ensures k + Covered(count - k) == m + Covered(count - m)
  {
  }

  /** A thread whose `messageCount` is exactly the number of messages the platform holds is
      fetched whole, oldest message first. */
  lemma FetchReturnsHistory(src: PageSource, thread: Thread, history: seq<Message>)
    requires Serves(src, thread, history)
    requires |history| == thread.messageCount > 0
    ensures Fetch(src, thread) == Fetched(Reverse(history))
  {
    ServedRun(src, thread, history, 0);
    assert history[..|history|] == history;
  }

  /** A thread whose `messageCount` exceeds the messages the platform still holds is never
      fetched: the loop repeats the request before the oldest message forever. */
  lemma DeletedMessagesDiverge(src: PageSource, thread: Thread, history: seq<Message>)
    requires Serves(src, thread, history)
    requires 0 < |history| < thread.messageCount
    ensures Fetch(src, thread) == Diverges(Collected(history, |history|))
  {
    ServedRun(src, thread, history, 0);
  }

  /** Platform ids grow with posting time; `rank` reads the id as that number. */
  predicate NewestFirst(ms: seq<Message>, rank: Snowflake -> int)
  {
    forall i, j :: 0 <= i < j < |ms| ==> rank(ms[i].id) > rank(ms[j].id)
  }

  predicate OldestFirst(ms: seq<Message>, rank: Snowflake -> int)
  {
    forall i, j :: 0 <= i < j < |ms| ==> rank(ms[i].id) < rank(ms[j].id)
  }

  /** The single reversal at the end turns newest-first pages into posting order. */
  lemma ReversedIsOldestFirst(ms: seq<Message>, rank: Snowflake -> int)
    requires NewestFirst(ms, rank)
    ensures OldestFirst(Reverse(ms), rank)
  {
  }

  /** utils.js:42-52 as the loop it is. */
  method GetMessagesFromThread(src: PageSource, thread: Thread) returns (r: FetchOutcome)
    ensures r == Fetch(src, thread)
  {
    var messages: seq<Message> := [];
    var lastMsgId: Option<Snowflake> := None;
    while true
      invariant Reached(LoopState(messages, lastMsgId))
      invariant RunFrom(src, thread, LoopState(messages, lastMsgId)).outcome == Fetch(src, thread)
      decreases thread.messageCount - |messages|
    {
      var previous := LoopState(messages, lastMsgId);
      var response := src(PageRequest(thread.id, PageLimit, BeforeCursor(lastMsgId)));
      if response.Failure? {
        return Aborted(RequestFailed(response.error));
      }
      messages := messages + response.messages;
      if messages == [] {
        return Aborted(NoLastMessage);
      }
      lastMsgId := Some(messages[|messages| - 1].id);
      if |messages| >= thread.messageCount {
        return Fetched(Reverse(messages));
      }
      if LoopState(messages, lastMsgId) == previous {
        return Diverges(previous);
      }
      StepAppends(src, thread, previous);
    }
  }
}
