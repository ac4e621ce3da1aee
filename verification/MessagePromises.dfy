/** The promise of a message, which tells once whether the message was sent. */
module MessagePromises {
  import opened Wrappers
  import opened Bytes

  /** The flags of a promise, and the value that its future has been given. */
  datatype Promise = Promise(isFinished: bool, isCanceled: bool, isSucceeded: bool, outcome: Option<bool>) {
    /** The flags tell whether the future has its value, and which. */
    predicate Consistent() {
      && (isFinished <==> outcome.Some?)
      && (isSucceeded <==> outcome == Some(true))
      && (isCanceled ==> outcome == Some(false))
    }
  }

  const FRESH: Promise := Promise(false, false, false, None)

  datatype Call = Finish(success: bool) | Cancel

  /** What a call that holds the lock does. The outcome can be set only once: a second value would throw. */
  function Apply(promise: Promise, call: Call): Promise {
    if promise.isFinished then promise
    else
      match call
      case Finish(success) => promise.(isFinished := true, isSucceeded := success, outcome := Some(success))
      case Cancel => Promise(true, true, false, Some(false))
  }

  /** What the destructor leaves; it does not raise the flag. */
  function Destroyed(promise: Promise): Promise {
    if promise.isFinished then promise else promise.(outcome := Some(false))
  }

  function Run(promise: Promise, calls: seq<Call>): Promise
    decreases |calls|
  {
    if calls == [] then promise else Run(Apply(promise, calls[0]), calls[1..])
  }

  /** Once given, the outcome stays. */
  lemma {:induction false} OutcomeStays(promise: Promise, calls: seq<Call>)
    requires promise.Consistent()
    ensures Run(promise, calls).Consistent()
    ensures promise.outcome.Some? ==> Run(promise, calls) == promise && Destroyed(promise) == promise
    decreases |calls|
  {
    if calls != [] {
      OutcomeStays(Apply(promise, calls[0]), calls[1..]);
    }
  }

  /** In whatever order threads finish and cancel, the first call alone decides the outcome; the outcome of
      a promise that nobody finishes is decided, as a failure, when it is destroyed. */
  lemma {:induction false} FirstCallDecides(calls: seq<Call>)
    ensures Destroyed(Run(FRESH, calls)).outcome ==
            Some(calls != [] && calls[0] == Finish(true))
    ensures Run(FRESH, calls).isCanceled <==> calls != [] && calls[0] == Cancel
  {
    if calls != [] {
      OutcomeStays(Apply(FRESH, calls[0]), calls[1..]);
    }
  }

  class MessagePromise {
    const message: seq<Byte>
    var isFinished: bool
    var isCanceled: bool
    var isSucceeded: bool
    var outcome: Option<bool>

    function State(): Promise
      reads this
    {
      Promise(isFinished, isCanceled, isSucceeded, outcome)
    }

    constructor (message: seq<Byte>)
      ensures this.message == message && State() == FRESH
    {
      this.message := message;
      isFinished, isCanceled, isSucceeded, outcome := false, false, false, None;
    }

    /** Gives the future its value, which throws when it has one already. */
    method SetValue(value: bool)
      requires outcome == None
      modifies this`outcome
      ensures outcome == Some(value)
    {
      outcome := Some(value);
    }

    method Cancel()
      requires State().Consistent()
      modifies this
      ensures State() == Apply(old(State()), Call.Cancel) && State().Consistent()
    {
      if isFinished {
        return;
      }
      isFinished := true;
      isCanceled := true;
      isSucceeded := false;
      SetValue(false);
    }

    method Finish(success: bool)
      requires State().Consistent()
      modifies this
      ensures State() == Apply(old(State()), Call.Finish(success)) && State().Consistent()
    {
      if isFinished {
        return;
      }
      isFinished := true;
      isSucceeded := success;
      SetValue(success);
    }

    method Destroy()
      requires State().Consistent()
      modifies this
      ensures State() == Destroyed(old(State()))
    {
      if !isFinished {
        SetValue(false);
      }
    }
  }
}
