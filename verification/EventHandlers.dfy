/** The handlers of an event, which may add, remove and invoke handlers while they run. */
module EventHandlers {
  import opened Wrappers

  const TOKENS: nat := 0x1_0000_0000

  /** Tokens are 32-bit and wrap around. */
  type Token = t: nat | t < TOKENS

  /** The token reached after incrementing `count` times. */
  function TokenAfter(start: Token, count: nat): Token {
    (start + count) % TOKENS
  }

  /** The token the search stops at: it is free, and every token passed on the way is in use. */
  ghost predicate IsFirstFree(token: Token, start: Token, used: set<Token>) {
    token !in used && exists count: nat :: SearchStops(token, start, used, count)
  }

  ghost predicate SearchStops(token: Token, start: Token, used: set<Token>, count: nat) {
    token == TokenAfter(start, count) && forall k: nat | k < count :: TokenAfter(start, k) in used
  }

  lemma NextAfter(start: Token, count: nat)
    ensures TokenAfter(start, 0) == start && TokenAfter(start, count + 1) == (TokenAfter(start, count) + 1) % TOKENS
  {
  }

  /** After the last 32-bit token comes zero. */
  lemma TokensWrap(token: Token)
    ensures token < 0x1_0000_0000 && TokenAfter(token, 1) == if token == 0xFFFF_FFFF then 0 else token + 1
  {
  }

  lemma TokensDiffer(start: Token, j: nat, k: nat)
    requires j < k < TOKENS
    ensures TokenAfter(start, j) != TokenAfter(start, k)
  {
  }

  /** As many tokens are in use as the search has passed, so it ends before it is back where it started. */
  lemma {:induction false} PassedTokensAreUsed(start: Token, used: set<Token>, count: nat)
    requires count <= TOKENS
    requires forall k: nat | k < count :: TokenAfter(start, k) in used
    ensures |used| >= count
  {
    if count > 0 {
      var last := TokenAfter(start, count - 1);
      forall k: nat | k < count - 1
        ensures TokenAfter(start, k) in used - {last}
      {
        TokensDiffer(start, k, count - 1);
      }
      PassedTokensAreUsed(start, used - {last}, count - 1);
    }
  }

  /** The calls a handler makes back into its collection while it runs, in order. The handlers that a
      nested invoke runs make calls of their own. */
  datatype Step<H> =
    | AddStep(handler: H)
    | RemoveStep(token: Token)
    | InvokeStep(calls: seq<Call<H>>)

  datatype Call<H> = Call(steps: seq<Step<H>>)

  /** An upper bound on the handlers added by some steps. */
  function Adds<H>(steps: seq<Step<H>>): nat
    decreases steps
  {
    if steps == [] then 0 else StepAdds(steps[0]) + Adds(steps[1..])
  }

  function StepAdds<H>(step: Step<H>): nat
    decreases step
  {
    match step
    case AddStep(_) => 1
    case RemoveStep(_) => 0
    case InvokeStep(calls) => CallAdds(calls)
  }

  function CallAdds<H>(calls: seq<Call<H>>): nat
    decreases calls
  {
    if calls == [] then 0 else Adds(calls[0].steps) + CallAdds(calls[1..])
  }

  /** What one call came to. An invoke called handlers in some order; the i-th one called made calls of its own,
      and what these came to is inner[i]. Handlers called after the last of `inner` made none. */
  datatype Outcome<H> =
    | Added(token: Token, handler: H)
    | Removed(token: Token, found: bool)
    | Invoked(called: seq<Token>, inner: seq<Answer<H>>)

  datatype Answer<H> = Answer(log: seq<Outcome<H>>)

  /** The outcome is one of this call, made while these are the handlers: a handler added is the one given, a
      token is found exactly when it is live, and an invoke calls each of the handlers once, each of which makes
      all of its calls. */
  ghost predicate Follows<H>(live: set<Token>, step: Step<H>, outcome: Outcome<H>)
    decreases step, 0
  {
    match step
    case AddStep(handler) => outcome.Added? && outcome.handler == handler
    case RemoveStep(token) => outcome == Removed(token, token in live)
    case InvokeStep(calls) =>
      outcome.Invoked? && CallsEachOnce(outcome.called, live) && AllCalls(live, calls, outcome.inner)
  }

  ghost predicate AllCalls<H>(live: set<Token>, calls: seq<Call<H>>, inner: seq<Answer<H>>)
    decreases calls, 1
  {
    && |inner| == (if |calls| < |live| then |calls| else |live|)
    && FirstFollow(live, calls, inner)
  }

  /** The first of the handlers called have made all of their calls. */
  ghost predicate FirstFollow<H>(live: set<Token>, calls: seq<Call<H>>, inner: seq<Answer<H>>)
    decreases calls, 0
  {
    |inner| <= |calls| && forall i | 0 <= i < |inner| :: AllFollow(live, calls[i].steps, inner[i].log)
  }

  ghost predicate AllFollow<H>(live: set<Token>, steps: seq<Step<H>>, log: seq<Outcome<H>>)
    decreases steps, 2
  {
    |log| == |steps| && SomeFollow(live, steps, log)
  }

  /** The first calls of a handler have come to these outcomes. */
  ghost predicate SomeFollow<H>(live: set<Token>, steps: seq<Step<H>>, log: seq<Outcome<H>>)
    decreases steps, 1
  {
    |log| <= |steps| && forall i | 0 <= i < |log| :: Follows(live, steps[i], log[i])
  }

  /** What some calls came to, all nested ones included: the handlers added with their tokens, the tokens whose
      removal succeeded, and the handlers called by each invoke. */
  datatype Report<H> = Report(issued: map<Token, H>, removed: set<Token>, rounds: seq<seq<Token>>)

  function ReportOf<H>(outcome: Outcome<H>): Report<H>
    decreases outcome
  {
    match outcome
    case Added(token, handler) => Report(map[token := handler], {}, [])
    case Removed(token, found) => Report(map[], if found then {token} else {}, [])
    case Invoked(called, inner) =>
      var report := ReportOfAll(inner);
      report.(rounds := report.rounds + [called])
  }

  function ReportOfLog<H>(log: seq<Outcome<H>>): Report<H>
    decreases log
  {
    if log == [] then Report(map[], {}, [])
    else Merge(ReportOfLog(log[..|log| - 1]), ReportOf(log[|log| - 1]))
  }

  function ReportOfAll<H>(inner: seq<Answer<H>>): Report<H>
    decreases inner
  {
    if inner == [] then Report(map[], {}, [])
    else Merge(ReportOfAll(inner[..|inner| - 1]), ReportOfLog(inner[|inner| - 1].log))
  }

  /** The number of handlers added, all nested calls included. */
  function Issued<H>(outcome: Outcome<H>): nat
    decreases outcome
  {
    match outcome
    case Added(_, _) => 1
    case Removed(_, _) => 0
    case Invoked(_, inner) => IssuedInAll(inner)
  }

  function IssuedInLog<H>(log: seq<Outcome<H>>): nat
    decreases log
  {
    if log == [] then 0 else IssuedInLog(log[..|log| - 1]) + Issued(log[|log| - 1])
  }

  function IssuedInAll<H>(inner: seq<Answer<H>>): nat
    decreases inner
  {
    if inner == [] then 0 else IssuedInAll(inner[..|inner| - 1]) + IssuedInLog(inner[|inner| - 1].log)
  }

  lemma OneMoreOutcome<H>(log: seq<Outcome<H>>, outcome: Outcome<H>)
    ensures ReportOfLog(log + [outcome]) == Merge(ReportOfLog(log), ReportOf(outcome))
    ensures IssuedInLog(log + [outcome]) == IssuedInLog(log) + Issued(outcome)
  {
    hide Merge, ReportOf, Issued;
    assert (log + [outcome])[..|log|] == log;
  }

  lemma NoReport<H>(live: set<Token>, steps: seq<Step<H>>)
    ensures ReportOfLog<H>([]) == Report(map[], {}, []) && IssuedInLog<H>([]) == 0 && SomeFollow(live, steps, [])
  {
  }

  lemma OneMoreStep<H>(live: set<Token>, steps: seq<Step<H>>, log: seq<Outcome<H>>, outcome: Outcome<H>)
    requires SomeFollow(live, steps, log) && |log| < |steps| && Follows(live, steps[|log|], outcome)
    ensures SomeFollow(live, steps, log + [outcome])
  {
    hide Follows;
  }

  lemma OneMoreLog<H>(inner: seq<Answer<H>>, log: seq<Outcome<H>>)
    ensures ReportOfAll(inner + [Answer(log)]) == Merge(ReportOfAll(inner), ReportOfLog(log))
    ensures IssuedInAll(inner + [Answer(log)]) == IssuedInAll(inner) + IssuedInLog(log)
  {
    hide Merge, ReportOfLog, IssuedInLog;
    assert (inner + [Answer(log)])[..|inner|] == inner;
  }

  /** A round calls each of the handlers once. */
  ghost predicate CallsEachOnce(called: seq<Token>, handlers: set<Token>) {
    (forall i, j | 0 <= i < j < |called| :: called[i] != called[j]) && forall t :: t in called <==> t in handlers
  }

  ghost predicate RoundsCall(rounds: seq<seq<Token>>, handlers: set<Token>) {
    forall i | 0 <= i < |rounds| :: CallsEachOnce(rounds[i], handlers)
  }

  /** The report tells what changed while the handlers stayed the same: what was issued is pending besides
      what already was, and what was removed is marked besides what already was. */
  ghost predicate Tells<H>(
    report: Report<H>, handlers: set<Token>,
    toAdd: map<Token, H>, toRemove: set<Token>, newToAdd: map<Token, H>, newToRemove: set<Token>)
  {
    && report.issued.Keys !! handlers + toAdd.Keys && report.removed <= handlers
    && newToAdd == toAdd + report.issued && newToRemove == toRemove + report.removed
    && RoundsCall(report.rounds, handlers)
  }

  function Merge<H>(earlier: Report<H>, later: Report<H>): Report<H> {
    Report(earlier.issued + later.issued, earlier.removed + later.removed, earlier.rounds + later.rounds)
  }

  lemma MergeTells<H>(
    earlier: Report<H>, later: Report<H>, handlers: set<Token>, toAdd: map<Token, H>, toRemove: set<Token>,
    midToAdd: map<Token, H>, midToRemove: set<Token>, newToAdd: map<Token, H>, newToRemove: set<Token>)
    requires Tells(earlier, handlers, toAdd, toRemove, midToAdd, midToRemove)
    requires Tells(later, handlers, midToAdd, midToRemove, newToAdd, newToRemove)
    ensures Tells(Merge(earlier, later), handlers, toAdd, toRemove, newToAdd, newToRemove)
    ensures |Merge(earlier, later).issued| == |earlier.issued| + |later.issued|
  {
    MapsAssociate(toAdd, earlier.issued, later.issued);
    UnionSize(earlier.issued, later.issued);
    RoundsConcat(earlier.rounds, later.rounds, handlers);
  }

  lemma OutcomeTells<H>(
    log: seq<Outcome<H>>, outcome: Outcome<H>, handlers: set<Token>, toAdd: map<Token, H>, toRemove: set<Token>,
    midToAdd: map<Token, H>, midToRemove: set<Token>, newToAdd: map<Token, H>, newToRemove: set<Token>)
    requires Tells(ReportOfLog(log), handlers, toAdd, toRemove, midToAdd, midToRemove)
    requires Tells(ReportOf(outcome), handlers, midToAdd, midToRemove, newToAdd, newToRemove)
    ensures Tells(ReportOfLog(log + [outcome]), handlers, toAdd, toRemove, newToAdd, newToRemove)
    ensures |ReportOfLog(log + [outcome]).issued| == |ReportOfLog(log).issued| + |ReportOf(outcome).issued|
    ensures IssuedInLog(log + [outcome]) == IssuedInLog(log) + Issued(outcome)
  {
    hide Tells, Merge, ReportOf, ReportOfLog, Issued, IssuedInLog;
    OneMoreOutcome(log, outcome);
    MergeTells(ReportOfLog(log), ReportOf(outcome), handlers, toAdd, toRemove, midToAdd, midToRemove, newToAdd, newToRemove);
  }

  lemma LogTells<H>(
    inner: seq<Answer<H>>, log: seq<Outcome<H>>, handlers: set<Token>, toAdd: map<Token, H>, toRemove: set<Token>,
    midToAdd: map<Token, H>, midToRemove: set<Token>, newToAdd: map<Token, H>, newToRemove: set<Token>)
    requires Tells(ReportOfAll(inner), handlers, toAdd, toRemove, midToAdd, midToRemove)
    requires Tells(ReportOfLog(log), handlers, midToAdd, midToRemove, newToAdd, newToRemove)
    ensures Tells(ReportOfAll(inner + [Answer(log)]), handlers, toAdd, toRemove, newToAdd, newToRemove)
    ensures |ReportOfAll(inner + [Answer(log)]).issued| == |ReportOfAll(inner).issued| + |ReportOfLog(log).issued|
    ensures IssuedInAll(inner + [Answer(log)]) == IssuedInAll(inner) + IssuedInLog(log)
  {
    hide Tells, Merge, ReportOfLog, ReportOfAll, IssuedInLog, IssuedInAll;
    OneMoreLog(inner, log);
    MergeTells(ReportOfAll(inner), ReportOfLog(log), handlers, toAdd, toRemove, midToAdd, midToRemove, newToAdd, newToRemove);
  }

  lemma NothingTells<H>(handlers: set<Token>, toAdd: map<Token, H>, toRemove: set<Token>)
    ensures Tells(Report(map[], {}, []), handlers, toAdd, toRemove, toAdd, toRemove)
  {
    assert toAdd + map[] == toAdd;
  }

  lemma AddTells<H>(
    token: Token, handler: H, handlers: set<Token>, toAdd: map<Token, H>, toRemove: set<Token>)
    requires token !in handlers + toAdd.Keys
    ensures Tells(Report(map[token := handler], {}, []), handlers, toAdd, toRemove, toAdd[token := handler], toRemove)
  {
    assert toAdd[token := handler] == toAdd + map[token := handler];
  }

  lemma RemoveTells<H>(
    token: Token, removed: bool, handlers: set<Token>, toAdd: map<Token, H>, toRemove: set<Token>)
    requires removed == (token in handlers)
    ensures Tells(Report(map[], if removed then {token} else {}, []), handlers, toAdd, toRemove,
                  toAdd, toRemove + if removed then {token} else {})
  {
    assert toAdd + map[] == toAdd;
  }

  lemma NonePut<K, V>(before: map<K, V>, pending: map<K, V>)
    ensures before + (pending - pending.Keys) == before && pending - {} == pending
  {
  }

  lemma OnePut<K, V>(before: map<K, V>, pending: map<K, V>, ids: set<K>, id: K)
    requires id in ids && ids <= pending.Keys
    ensures (before + (pending - ids))[id := pending[id]] == before + (pending - (ids - {id}))
  {
  }

  lemma RoundTells<H>(
    report: Report<H>, called: seq<Token>, handlers: set<Token>,
    toAdd: map<Token, H>, toRemove: set<Token>, newToAdd: map<Token, H>, newToRemove: set<Token>)
    requires Tells(report, handlers, toAdd, toRemove, newToAdd, newToRemove)
    requires CallsEachOnce(called, handlers)
    ensures var longer := report.(rounds := report.rounds + [called]);
      && Tells(longer, handlers, toAdd, toRemove, newToAdd, newToRemove) && RoundsCall(longer.rounds, handlers)
      && longer.issued.Keys !! handlers + toAdd.Keys && longer.removed <= handlers
  {
    RoundsConcat(report.rounds, [called], handlers);
  }

  lemma InvokedIs<H>(live: set<Token>, calls: seq<Call<H>>, called: seq<Token>, inner: seq<Answer<H>>)
    requires CallsEachOnce(called, live) && AllCalls(live, calls, inner)
    ensures var outcome := Invoked(called, inner);
      && Follows(live, InvokeStep(calls), outcome) && Issued(outcome) == IssuedInAll(inner)
      && ReportOf(outcome) == ReportOfAll(inner).(rounds := ReportOfAll(inner).rounds + [called])
  {
    hide AllCalls, ReportOfAll, IssuedInAll, CallsEachOnce;
  }

  /** At the end of the outermost invoke, everything pending was reported. */
  lemma TellsAll<H>(report: Report<H>, handlers: set<Token>, newToAdd: map<Token, H>, newToRemove: set<Token>)
    requires Tells(report, handlers, map[], {}, newToAdd, newToRemove)
    ensures newToAdd == report.issued && newToRemove == report.removed
  {
    assert map[] + report.issued == report.issued && {} + report.removed == report.removed;
  }

  lemma MapsAssociate<K, V>(a: map<K, V>, b: map<K, V>, c: map<K, V>)
    ensures a + b + c == a + (b + c)
  {
  }

  lemma UnionSize<K, V>(a: map<K, V>, b: map<K, V>)
    requires a.Keys !! b.Keys
    ensures |a + b| == |a| + |b|
  {
    assert (a + b).Keys == a.Keys + b.Keys;
  }

  lemma RoundsConcat(a: seq<seq<Token>>, b: seq<seq<Token>>, handlers: set<Token>)
    requires RoundsCall(a, handlers) && RoundsCall(b, handlers)
    ensures RoundsCall(a + b, handlers)
  {
  }

  /** Every token issued takes one of the free ones. */
  lemma TellsInUse<H>(
    report: Report<H>, handlers: set<Token>,
    toAdd: map<Token, H>, toRemove: set<Token>, newToAdd: map<Token, H>, newToRemove: set<Token>)
    requires Tells(report, handlers, toAdd, toRemove, newToAdd, newToRemove)
    ensures |handlers + newToAdd.Keys| == |handlers + toAdd.Keys| + |report.issued|
  {
    assert handlers + newToAdd.Keys == (handlers + toAdd.Keys) + report.issued.Keys;
  }

  /** The collection as a plain set of handlers, changed by one call at a time. */
  function Apply<H>(handlers: map<Token, H>, outcome: Outcome<H>): map<Token, H> {
    match outcome
    case Added(token, handler) => handlers[token := handler]
    case Removed(token, _) => handlers - {token}
    case Invoked(_, _) => handlers + ReportOf(outcome).issued - ReportOf(outcome).removed
  }

  function Replay<H>(handlers: map<Token, H>, log: seq<Outcome<H>>): map<Token, H> {
    if log == [] then handlers else Apply(Replay(handlers, log[..|log| - 1]), log[|log| - 1])
  }

  /** What a call may come to when these are the handlers: a new token, whether the token was there, or rounds of
      exactly these handlers, with a new token for each handler added on the way. */
  ghost predicate Answers<H>(handlers: map<Token, H>, step: Step<H>, outcome: Outcome<H>) {
    var report := ReportOf(outcome);
    && Follows(handlers.Keys, step, outcome)
    && |report.issued| == Issued(outcome)
    && report.issued.Keys !! handlers.Keys && report.removed <= handlers.Keys
    && RoundsCall(report.rounds, handlers.Keys)
  }

  ghost predicate AllAnswer<H>(handlers: map<Token, H>, steps: seq<Step<H>>, log: seq<Outcome<H>>)
    requires |log| <= |steps|
  {
    forall i | 0 <= i < |log| :: Answers(Replay(handlers, log[..i]), steps[i], log[i])
  }

  lemma ReplayOneMore<H>(handlers: map<Token, H>, steps: seq<Step<H>>, log: seq<Outcome<H>>, outcome: Outcome<H>)
    requires |log| < |steps| && AllAnswer(handlers, steps, log)
    requires Answers(Replay(handlers, log), steps[|log|], outcome)
    ensures AllAnswer(handlers, steps, log + [outcome])
    ensures Replay(handlers, log + [outcome]) == Apply(Replay(handlers, log), outcome)
  {
    hide Answers, Apply;
    var longer := log + [outcome];
    assert longer[..|log|] == log;
    forall i | 0 <= i < |longer|
      ensures Answers(Replay(handlers, longer[..i]), steps[i], longer[i])
    {
      if i < |log| {
        assert longer[..i] == log[..i];
      }
    }
  }

  class EventHandlerCollection<H> {
    var handlers: map<Token, H>
    var handlersToAdd: map<Token, H>
    var handlersToRemove: set<Token>
    var nextToken: Token
    var lockCount: nat

    ghost predicate Valid()
      reads this
    {
      && handlers.Keys !! handlersToAdd.Keys
      && handlersToRemove <= handlers.Keys
      && (lockCount == 0 ==> handlersToAdd == map[] && handlersToRemove == {})
    }

    function InUse(): set<Token>
      reads this
    {
      handlers.Keys + handlersToAdd.Keys
    }

    constructor ()
      ensures Valid() && handlers == map[] && lockCount == 0 && nextToken == 1
    {
      handlers, handlersToAdd, handlersToRemove, nextToken, lockCount := map[], map[], {}, 1, 0;
    }

    /** Moves on to the next token that is not in use. */
    method SkipTokensInUse()
      requires |InUse()| < TOKENS
      modifies this`nextToken
      ensures IsFirstFree(nextToken, old(nextToken), InUse())
    {
      hide TokenAfter;
      ghost var start, used, passed: nat := nextToken, InUse(), 0;
      NextAfter(start, 0);
      while nextToken in handlers || nextToken in handlersToAdd
        invariant passed < TOKENS && nextToken == TokenAfter(start, passed)
        invariant forall k: nat | k < passed :: TokenAfter(start, k) in used
        decreases TOKENS - passed
      {
        PassedTokensAreUsed(start, used, passed + 1);
        NextAfter(start, passed);
        passed := passed + 1;
        nextToken := (nextToken + 1) % TOKENS;
      }
      assert SearchStops(nextToken, start, used, passed);
    }

    method Add(handler: H) returns (token: Token)
      requires Valid() && |InUse()| < TOKENS
      modifies this
      ensures Valid() && lockCount == old(lockCount) && handlersToRemove == old(handlersToRemove)
      ensures IsFirstFree(token, old(nextToken), old(InUse())) && nextToken == TokenAfter(token, 1)
      ensures old(lockCount) == 0 ==>
        handlers == old(handlers)[token := handler] && handlersToAdd == old(handlersToAdd)
      ensures old(lockCount) > 0 ==>
        handlers == old(handlers) && handlersToAdd == old(handlersToAdd)[token := handler]
    {
      lockCount := lockCount + 1;
      SkipTokensInUse();
      if lockCount == 1 {
        handlers := handlers[nextToken := handler];
      } else {
        handlersToAdd := handlersToAdd[nextToken := handler];
      }
      token := nextToken;
      nextToken := (nextToken + 1) % TOKENS;
      lockCount := lockCount - 1;
    }

    /** Only the current handlers can be removed: a handler added during the outermost invoke cannot be
        removed before that invoke is over. */
    method Remove(token: Token) returns (removed: bool)
      requires Valid()
      modifies this
      ensures Valid() && lockCount == old(lockCount) && nextToken == old(nextToken)
      ensures handlersToAdd == old(handlersToAdd) && removed == (token in old(handlers))
      ensures handlers == if old(lockCount) == 0 then old(handlers) - {token} else old(handlers)
      ensures handlersToRemove == old(handlersToRemove) + if removed && old(lockCount) > 0 then {token} else {}
    {
      lockCount := lockCount + 1;
      removed := token in handlers;
      if removed {
        if lockCount == 1 {
          handlers := handlers - {token};
        } else {
          handlersToRemove := handlersToRemove + {token};
        }
      }
      lockCount := lockCount - 1;
    }

    /** Takes one step of a handler, while it runs. */
    method TakeStep(step: Step<H>) returns (outcome: Outcome<H>)
      requires Valid() && lockCount > 0 && |InUse()| + StepAdds(step) <= TOKENS
      modifies this
      ensures Valid() && lockCount == old(lockCount) && handlers == old(handlers)
      ensures Follows(handlers.Keys, step, outcome)
      ensures Tells(ReportOf(outcome), handlers.Keys, old(handlersToAdd), old(handlersToRemove), handlersToAdd, handlersToRemove)
      ensures |ReportOf(outcome).issued| == Issued(outcome) <= StepAdds(step)
      decreases step
    {
      hide Tells, AllCalls, CallsEachOnce, ReportOfAll;
      match step {
        case AddStep(handler) =>
          ghost var toAdd := handlersToAdd;
          var token := Add(handler);
          AddTells(token, handler, handlers.Keys, toAdd, handlersToRemove);
          outcome := Added(token, handler);
        case RemoveStep(token) =>
          ghost var toRemove := handlersToRemove;
          var removed := Remove(token);
          RemoveTells(token, removed, handlers.Keys, handlersToAdd, toRemove);
          outcome := Removed(token, removed);
        case InvokeStep(calls) =>
          outcome := Invoke(calls);
      }
    }

    /** Takes the steps of one handler. */
    method Handle(steps: seq<Step<H>>) returns (log: seq<Outcome<H>>)
      requires Valid() && lockCount > 0 && |InUse()| + Adds(steps) <= TOKENS
      modifies this
      ensures Valid() && lockCount == old(lockCount) && handlers == old(handlers)
      ensures AllFollow(handlers.Keys, steps, log)
      ensures Tells(ReportOfLog(log), handlers.Keys, old(handlersToAdd), old(handlersToRemove), handlersToAdd, handlersToRemove)
      ensures |ReportOfLog(log).issued| == IssuedInLog(log) <= Adds(steps)
      decreases steps
    {
      hide Tells, SomeFollow, Follows, ReportOf, ReportOfLog, Issued, IssuedInLog, Adds, StepAdds, Valid;
      ghost var live := handlers.Keys;
      log := [];
      NoReport(live, steps);
      NothingTells(live, handlersToAdd, handlersToRemove);
      assert steps[0..] == steps;
      for i := 0 to |steps|
        invariant Valid() && lockCount == old(lockCount) && handlers == old(handlers)
        invariant |log| == i && SomeFollow(live, steps, log)
        invariant Tells(ReportOfLog(log), live, old(handlersToAdd), old(handlersToRemove), handlersToAdd, handlersToRemove)
        invariant |ReportOfLog(log).issued| == IssuedInLog(log)
        invariant |ReportOfLog(log).issued| + Adds(steps[i..]) <= Adds(steps)
      {
        AddsStep(steps, i);
        TellsInUse(ReportOfLog(log), live, old(handlersToAdd), old(handlersToRemove), handlersToAdd, handlersToRemove);
        ghost var toAdd, toRemove := handlersToAdd, handlersToRemove;
        var outcome := TakeStep(steps[i]);
        OneMoreStep(live, steps, log, outcome);
        OutcomeTells(log, outcome, live, old(handlersToAdd), old(handlersToRemove),
                     toAdd, toRemove, handlersToAdd, handlersToRemove);
        log := log + [outcome];
      }
    }

    /** The first of the calls were made: they came to what they ask for, and what is pending is what they tell of. */
    ghost predicate CallsMade(calls: seq<Call<H>>, inner: seq<Answer<H>>, toAdd: map<Token, H>, toRemove: set<Token>)
      reads this
    {
      && FirstFollow(handlers.Keys, calls, inner) && |inner| <= |calls|
      && Tells(ReportOfAll(inner), handlers.Keys, toAdd, toRemove, handlersToAdd, handlersToRemove)
      && |ReportOfAll(inner).issued| == IssuedInAll(inner)
      && |ReportOfAll(inner).issued| + CallAdds(calls[|inner|..]) <= CallAdds(calls)
    }

    /** Calls every handler once, in some order; the i-th one called takes the steps of calls[i]. */
    method CallHandlers(calls: seq<Call<H>>) returns (called: seq<Token>, inner: seq<Answer<H>>)
      requires Valid() && lockCount > 0 && |InUse()| + CallAdds(calls) <= TOKENS
      modifies this
      ensures Valid() && lockCount == old(lockCount) && handlers == old(handlers)
      ensures CallsEachOnce(called, handlers.Keys) && AllCalls(handlers.Keys, calls, inner)
      ensures Tells(ReportOfAll(inner), handlers.Keys, old(handlersToAdd), old(handlersToRemove), handlersToAdd, handlersToRemove)
      ensures |ReportOfAll(inner).issued| == IssuedInAll(inner) <= CallAdds(calls)
      decreases calls, 2
    {
      hide Tells, CallsEachOnce, AllCalls, FirstFollow, ReportOfAll, IssuedInAll, CallAdds, CallsMade, Valid;
      ghost var live := handlers.Keys;
      inner, called := [], [];
      NoCallsMade(calls);
      NothingCalled(live);
      var remaining := handlers.Keys;
      while remaining != {}
        invariant Valid() && lockCount == old(lockCount) && handlers == old(handlers)
        invariant CallsMade(calls, inner, old(handlersToAdd), old(handlersToRemove))
        invariant |inner| == (if |calls| < |live| - |remaining| then |calls| else |live| - |remaining|)
        invariant remaining <= live && CallsEachOnce(called, live - remaining)
        decreases |remaining|
      {
        var token :| token in remaining;
        assert |remaining - {token}| == |remaining| - 1;
        if |inner| < |calls| {
          inner := CallOne(calls, inner, old(handlersToAdd), old(handlersToRemove));
        }
        CallsOneMore(called, token, live, remaining);
        remaining, called := remaining - {token}, called + [token];
      }
      assert live - {} == live;
      WhatWasMade(calls, inner, old(handlersToAdd), old(handlersToRemove));
    }

    lemma NoCallsMade(calls: seq<Call<H>>)
      ensures CallsMade(calls, [], handlersToAdd, handlersToRemove)
    {
      hide Tells, FirstFollow, ReportOfAll, IssuedInAll, CallAdds;
      NothingFollows(handlers.Keys, calls);
      NothingTells(handlers.Keys, handlersToAdd, handlersToRemove);
      assert calls[0..] == calls;
    }

    lemma WhatWasMade(calls: seq<Call<H>>, inner: seq<Answer<H>>, toAdd: map<Token, H>, toRemove: set<Token>)
      requires CallsMade(calls, inner, toAdd, toRemove)
      requires |inner| == if |calls| < |handlers| then |calls| else |handlers|
      ensures AllCalls(handlers.Keys, calls, inner)
      ensures Tells(ReportOfAll(inner), handlers.Keys, toAdd, toRemove, handlersToAdd, handlersToRemove)
      ensures |ReportOfAll(inner).issued| == IssuedInAll(inner) <= CallAdds(calls)
    {
      hide Tells, FirstFollow, ReportOfAll, IssuedInAll, CallAdds;
    }

    /** Calls one more handler, which makes the next of the calls. */
    method CallOne(calls: seq<Call<H>>, inner: seq<Answer<H>>, ghost toAdd: map<Token, H>, ghost toRemove: set<Token>)
      returns (longer: seq<Answer<H>>)
      requires |inner| < |calls| && CallsMade(calls, inner, toAdd, toRemove)
      requires Valid() && lockCount > 0 && |handlers.Keys + toAdd.Keys| + CallAdds(calls) <= TOKENS
      modifies this
      ensures Valid() && lockCount == old(lockCount) && handlers == old(handlers)
      ensures |longer| == |inner| + 1 && CallsMade(calls, longer, toAdd, toRemove)
      decreases calls, 1
    {
      hide Tells, FirstFollow, ReportOfAll, IssuedInAll, CallAdds, Valid;
      TellsInUse(ReportOfAll(inner), handlers.Keys, toAdd, toRemove, handlersToAdd, handlersToRemove);
      longer := CallNext(calls, inner, toAdd, toRemove);
    }

    /** Lets the next handler take its steps. */
    method CallNext(calls: seq<Call<H>>, inner: seq<Answer<H>>, ghost toAdd: map<Token, H>, ghost toRemove: set<Token>)
      returns (longer: seq<Answer<H>>)
      requires |inner| < |calls| && FirstFollow(handlers.Keys, calls, inner)
      requires Valid() && lockCount > 0 && |InUse()| + CallAdds(calls[|inner|..]) <= TOKENS
      requires Tells(ReportOfAll(inner), handlers.Keys, toAdd, toRemove, handlersToAdd, handlersToRemove)
      modifies this
      ensures Valid() && lockCount == old(lockCount) && handlers == old(handlers)
      ensures |longer| == |inner| + 1 && FirstFollow(handlers.Keys, calls, longer)
      ensures Tells(ReportOfAll(longer), handlers.Keys, toAdd, toRemove, handlersToAdd, handlersToRemove)
      ensures |ReportOfAll(inner).issued| == IssuedInAll(inner) ==> |ReportOfAll(longer).issued| == IssuedInAll(longer)
      ensures |ReportOfAll(longer).issued| + CallAdds(calls[|longer|..]) <= |ReportOfAll(inner).issued| + CallAdds(calls[|inner|..])
      decreases calls, 0
    {
      hide Tells, AllFollow, FirstFollow, ReportOfLog, ReportOfAll, IssuedInLog, IssuedInAll, CallAdds, Adds, Valid, InUse;
      ghost var midToAdd, midToRemove := handlersToAdd, handlersToRemove;
      var next := |inner|;
      CallAddsStep(calls, next);
      var log := Handle(calls[next].steps);
      OneMoreFollows(handlers.Keys, calls, inner, log);
      LogTells(inner, log, handlers.Keys, toAdd, toRemove, midToAdd, midToRemove, handlersToAdd, handlersToRemove);
      longer := inner + [Answer(log)];
    }

    method AddPending()
      modifies this`handlers
      ensures handlers == old(handlers) + handlersToAdd
    {
      ghost var before := handlers;
      var ids := handlersToAdd.Keys;
      NonePut(before, handlersToAdd);
      while ids != {}
        invariant ids <= handlersToAdd.Keys && handlers == before + (handlersToAdd - ids)
        decreases |ids|
      {
        var id :| id in ids;
        OnePut(before, handlersToAdd, ids, id);
        handlers, ids := handlers[id := handlersToAdd[id]], ids - {id};
      }
    }

    method RemoveMarked()
      modifies this`handlers
      ensures handlers == old(handlers) - handlersToRemove
    {
      var marked := handlersToRemove;
      while marked != {}
        invariant marked <= handlersToRemove && handlers == old(handlers) - (handlersToRemove - marked)
        decreases |marked|
      {
        var id :| id in marked;
        handlers, marked := handlers - {id}, marked - {id};
      }
    }

    /** Adds the pending handlers, then removes the marked ones. */
    method ApplyChanges()
      requires Valid()
      modifies this
      ensures Valid() && lockCount == old(lockCount)
      ensures handlers == old(handlers) + old(handlersToAdd) - old(handlersToRemove)
      ensures handlersToAdd == map[] && handlersToRemove == {}
    {
      AddPending();
      handlersToAdd := map[];
      RemoveMarked();
      handlersToRemove := {};
    }

    /** Runs the handlers. They are the same ones in every nested invoke, whatever they add or remove on
        the way; the changes take effect when the outermost invoke ends. */
    method Invoke(calls: seq<Call<H>>) returns (outcome: Outcome<H>)
      requires Valid() && |InUse()| + CallAdds(calls) <= TOKENS
      modifies this
      ensures Valid() && lockCount == old(lockCount) && |ReportOf(outcome).issued| == Issued(outcome) <= CallAdds(calls)
      ensures Follows(old(handlers).Keys, InvokeStep(calls), outcome)
      ensures RoundsCall(ReportOf(outcome).rounds, old(handlers).Keys)
      ensures ReportOf(outcome).issued.Keys !! old(InUse()) && ReportOf(outcome).removed <= old(handlers).Keys
      ensures old(lockCount) > 0 ==> handlers == old(handlers)
      ensures old(lockCount) > 0 ==>
        Tells(ReportOf(outcome), handlers.Keys, old(handlersToAdd), old(handlersToRemove), handlersToAdd, handlersToRemove)
      ensures old(lockCount) == 0 ==> handlers == old(handlers) + ReportOf(outcome).issued - ReportOf(outcome).removed
      decreases calls, 3
    {
      hide AllCalls, ReportOfAll, IssuedInAll, CallsEachOnce, CallAdds, Tells, RoundsCall, Follows, ReportOf, Issued;
      lockCount := lockCount + 1;
      var called, inner := CallHandlers(calls);
      RoundTells(ReportOfAll(inner), called, handlers.Keys, old(handlersToAdd), old(handlersToRemove), handlersToAdd, handlersToRemove);
      InvokedIs(handlers.Keys, calls, called, inner);
      outcome := Invoked(called, inner);
      EndInvoke(ReportOf(outcome), old(handlersToAdd), old(handlersToRemove));
    }

    /** The end of an invoke; the outermost one makes the pending changes. */
    method EndInvoke(ghost report: Report<H>, ghost toAdd: map<Token, H>, ghost toRemove: set<Token>)
      requires Valid() && lockCount > 0 && Tells(report, handlers.Keys, toAdd, toRemove, handlersToAdd, handlersToRemove)
      requires lockCount == 1 ==> toAdd == map[] && toRemove == {}
      modifies this
      ensures Valid() && lockCount == old(lockCount) - 1
      ensures lockCount > 0 ==>
        handlers == old(handlers) && handlersToAdd == old(handlersToAdd) && handlersToRemove == old(handlersToRemove)
      ensures lockCount == 0 ==> handlers == old(handlers) + report.issued - report.removed
    {
      hide Tells;
      if lockCount == 1 {
        TellsAll(report, handlers.Keys, handlersToAdd, handlersToRemove);
        ApplyChanges();
      }
      lockCount := lockCount - 1;
    }

    /** Makes one call from outside of any handler. */
    method CallOnce(step: Step<H>) returns (outcome: Outcome<H>)
      requires Valid() && lockCount == 0 && |handlers| + StepAdds(step) <= TOKENS
      modifies this
      ensures Valid() && lockCount == 0 && |handlers| <= |old(handlers)| + StepAdds(step)
      ensures Answers(old(handlers), step, outcome) && handlers == Apply(old(handlers), outcome)
    {
      assert InUse() == handlers.Keys;
      match step {
        case AddStep(handler) =>
          var token := Add(handler);
          outcome := Added(token, handler);
        case RemoveStep(token) =>
          var found := Remove(token);
          outcome := Removed(token, found);
        case InvokeStep(calls) =>
          outcome := InvokeOnce(calls);
      }
    }

    /** Invokes the handlers from outside of any handler. */
    method InvokeOnce(calls: seq<Call<H>>) returns (outcome: Outcome<H>)
      requires Valid() && lockCount == 0 && |handlers| + CallAdds(calls) <= TOKENS
      modifies this
      ensures Valid() && lockCount == 0 && |handlers| <= |old(handlers)| + CallAdds(calls)
      ensures Answers(old(handlers), InvokeStep(calls), outcome) && handlers == Apply(old(handlers), outcome)
    {
      hide Follows, ReportOf, Issued, RoundsCall, CallAdds, Valid, InUse, Answers, Apply;
      NothingPending();
      outcome := Invoke(calls);
      InvokedApplies(old(handlers), calls, outcome);
    }

    lemma NothingPending()
      requires Valid() && lockCount == 0
      ensures InUse() == handlers.Keys
    {
    }

    /** Over any sequence of calls, with any calls nested in handlers, every call comes to what it asks for, and
        the collection behaves as the plain set that the outcomes change. */
    method CallAll(steps: seq<Step<H>>) returns (log: seq<Outcome<H>>)
      requires Valid() && lockCount == 0 && |handlers| + Adds(steps) <= TOKENS
      modifies this
      ensures Valid() && lockCount == 0 && |log| == |steps|
      ensures AllAnswer(old(handlers), steps, log) && handlers == Replay(old(handlers), log)
    {
      hide Answers, Apply, Adds, StepAdds, Valid;
      log := [];
      assert steps[0..] == steps;
      for i := 0 to |steps|
        invariant Valid() && lockCount == 0 && |log| == i
        invariant |handlers| + Adds(steps[i..]) <= TOKENS
        invariant AllAnswer(old(handlers), steps, log) && handlers == Replay(old(handlers), log)
      {
        AddsStep(steps, i);
        var outcome := CallOnce(steps[i]);
        ReplayOneMore(old(handlers), steps, log, outcome);
        log := log + [outcome];
      }
    }
  }

  lemma InvokedApplies<H>(handlers: map<Token, H>, calls: seq<Call<H>>, outcome: Outcome<H>)
    requires Follows(handlers.Keys, InvokeStep(calls), outcome) && |ReportOf(outcome).issued| == Issued(outcome)
    requires RoundsCall(ReportOf(outcome).rounds, handlers.Keys)
    requires ReportOf(outcome).issued.Keys !! handlers.Keys && ReportOf(outcome).removed <= handlers.Keys
    ensures Answers(handlers, InvokeStep(calls), outcome)
    ensures Apply(handlers, outcome) == handlers + ReportOf(outcome).issued - ReportOf(outcome).removed
    ensures |Apply(handlers, outcome)| <= |handlers| + |ReportOf(outcome).issued|
  {
    hide ReportOf, Issued, AllCalls, CallsEachOnce, RoundsCall;
    UnionSize(handlers, ReportOf(outcome).issued);
    SmallerMap(handlers + ReportOf(outcome).issued, ReportOf(outcome).removed);
  }

  lemma SmallerMap<K, V>(m: map<K, V>, keys: set<K>)
    ensures |m - keys| <= |m|
  {
    assert (m - keys).Keys == m.Keys - keys;
    SmallerSet(m.Keys, keys);
  }

  lemma SmallerSet<K>(s: set<K>, t: set<K>)
    ensures |s - t| <= |s|
  {
    assert s == (s - t) + (s * t);
  }

  lemma NothingCalled(handlers: set<Token>)
    ensures CallsEachOnce([], handlers - handlers)
  {
  }

  lemma NothingFollows<H>(live: set<Token>, calls: seq<Call<H>>)
    ensures FirstFollow(live, calls, []) && ReportOfAll<H>([]) == Report(map[], {}, []) && IssuedInAll<H>([]) == 0
  {
  }

  lemma OneMoreFollows<H>(live: set<Token>, calls: seq<Call<H>>, inner: seq<Answer<H>>, log: seq<Outcome<H>>)
    requires FirstFollow(live, calls, inner) && |inner| < |calls| && AllFollow(live, calls[|inner|].steps, log)
    ensures FirstFollow(live, calls, inner + [Answer(log)])
  {
    hide AllFollow;
  }

  lemma CallAddsStep<H>(calls: seq<Call<H>>, i: nat)
    requires i < |calls|
    ensures CallAdds(calls[i..]) == Adds(calls[i].steps) + CallAdds(calls[i + 1..])
  {
    hide Adds;
    assert calls[i..][0] == calls[i] && calls[i..][1..] == calls[i + 1..];
  }

  lemma AddsStep<H>(steps: seq<Step<H>>, i: nat)
    requires i < |steps|
    ensures Adds(steps[i..]) == StepAdds(steps[i]) + Adds(steps[i + 1..])
  {
    hide StepAdds;
    assert steps[i..][0] == steps[i] && steps[i..][1..] == steps[i + 1..];
  }

  lemma CallsOneMore(called: seq<Token>, token: Token, handlers: set<Token>, remaining: set<Token>)
    requires CallsEachOnce(called, handlers - remaining) && token in remaining && remaining <= handlers
    ensures CallsEachOnce(called + [token], handlers - (remaining - {token}))
  {
  }
}
