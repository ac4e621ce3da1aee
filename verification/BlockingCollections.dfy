/** The queue that passes work between threads, one locked region of its methods at a time. */
module BlockingCollections {
  import opened Wrappers

  datatype Queue<T> = Queue(items: seq<T>, signalled: bool, isComplete: bool) {
    /** A thread that waits for the event cannot sleep while there is something to take. */
    predicate Ready() {
      |items| > 0 ==> signalled
    }
  }

  /** What one thread does while it holds the lock. Completing takes no lock, and is two steps: the flag is set, and
      then the event. */
  datatype Call<T> = Push(item: T) | Take | Clear | MarkComplete | Signal

  function Apply<T>(queue: Queue<T>, call: Call<T>): Queue<T> {
    match call
    case Push(item) => queue.(items := queue.items + [item], signalled := true)
    case Take =>
      if |queue.items| == 0 then queue
      else queue.(items := queue.items[1..], signalled := queue.signalled && |queue.items| != 1)
    case Clear => queue.(items := [])
    case MarkComplete => queue.(isComplete := true)
    case Signal => queue.(signalled := true)
  }

  /** The items that a call removes. */
  function Departed<T>(queue: Queue<T>, call: Call<T>): seq<T> {
    match call
    case Take => if |queue.items| == 0 then [] else [queue.items[0]]
    case Clear => queue.items
    case _ => []
  }

  function Run<T>(queue: Queue<T>, calls: seq<Call<T>>): Queue<T>
    decreases |calls|
  {
    if |calls| == 0 then queue else Run(Apply(queue, calls[0]), calls[1..])
  }

  function AllDeparted<T>(queue: Queue<T>, calls: seq<Call<T>>): seq<T>
    decreases |calls|
  {
    if |calls| == 0 then [] else Departed(queue, calls[0]) + AllDeparted(Apply(queue, calls[0]), calls[1..])
  }

  function Pushed<T>(calls: seq<Call<T>>): seq<T> {
    if |calls| == 0 then [] else (if calls[0].Push? then [calls[0].item] else []) + Pushed(calls[1..])
  }

  /** Whatever the threads do, items leave in the order in which they came, and none is lost or doubled. */
  lemma {:induction false} ItemsLeaveInOrder<T>(queue: Queue<T>, calls: seq<Call<T>>)
    ensures queue.items + Pushed(calls) == AllDeparted(queue, calls) + Run(queue, calls).items
    decreases |calls|
  {
    hide Apply, Departed;
    if |calls| > 0 {
      var call, next := calls[0], Apply(queue, calls[0]);
      ItemsLeaveInOrder(next, calls[1..]);
      OneCall(queue, call);
      var pushed := if call.Push? then [call.item] else [];
      assert queue.items + Pushed(calls) == (queue.items + pushed) + Pushed(calls[1..]);
      assert Departed(queue, call) + (next.items + Pushed(calls[1..])) ==
             AllDeparted(queue, calls) + Run(queue, calls).items;
    }
  }

  lemma OneCall<T>(queue: Queue<T>, call: Call<T>)
    ensures queue.items + (if call.Push? then [call.item] else []) ==
            Departed(queue, call) + Apply(queue, call).items
  {
  }

  /** Whatever the threads do, whenever the lock is free something to take means that the event is set. */
  lemma {:induction false} StaysReady<T>(queue: Queue<T>, calls: seq<Call<T>>)
    requires queue.Ready()
    ensures Run(queue, calls).Ready()
    decreases |calls|
  {
    if |calls| > 0 {
      StaysReady(Apply(queue, calls[0]), calls[1..]);
    }
  }

  predicate SetsEvent<T>(call: Call<T>) {
    call.Push? || call.Signal?
  }

  /** The last item is taken at some point, and nothing sets the event after that. */
  predicate TakenLast<T>(queue: Queue<T>, calls: seq<Call<T>>) {
    exists k | 0 <= k < |calls| :: TakenLastAt(queue, calls, k)
  }

  predicate TakenLastAt<T>(queue: Queue<T>, calls: seq<Call<T>>, k: nat)
    requires k < |calls|
  {
    && calls[k].Take? && |Run(queue, calls[..k]).items| == 1
    && forall j | k < j < |calls| :: !SetsEvent(calls[j])
  }

  /** A complete queue stays complete, and its event is not set, so that threads that wait are not woken, exactly when
      its last item was taken and nothing has set the event since, or nothing has ever set it. So the signal of a
      completion is lost exactly when the last item is taken afterwards and nothing sets the event again. */
  lemma {:induction false} CompletionIsLost<T>(queue: Queue<T>, calls: seq<Call<T>>)
    requires queue.isComplete
    ensures Run(queue, calls).isComplete
    ensures !Run(queue, calls).signalled <==>
      || TakenLast(queue, calls)
      || (!queue.signalled && forall j | 0 <= j < |calls| :: !SetsEvent(calls[j]))
    decreases |calls|
  {
    if |calls| > 0 {
      var n := |calls| - 1;
      CompletionIsLost(queue, calls[..n]);
      RunOneMore(queue, calls, n);
      var before := Run(queue, calls[..n]);
      assert calls[..n + 1] == calls;
      forall k | 0 <= k < n
        ensures calls[..n][..k] == calls[..k] && calls[..n][k] == calls[k]
      {
      }
      if k :| 0 <= k < n && TakenLastAt(queue, calls, k) {
        assert TakenLastAt(queue, calls[..n], k);
      }
      if k :| 0 <= k < n && TakenLastAt(queue, calls[..n], k) {
        assert !SetsEvent(calls[n]) ==> TakenLastAt(queue, calls, k);
      }
      assert TakenLastAt(queue, calls, n) <==> calls[n].Take? && |before.items| == 1;
    }
  }

  lemma {:induction false} RunOneMore<T>(queue: Queue<T>, calls: seq<Call<T>>, n: nat)
    requires n < |calls|
    ensures Run(queue, calls[..n + 1]) == Apply(Run(queue, calls[..n]), calls[n])
    decreases n
  {
    hide Apply;
    if n > 0 {
      RunOneMore(Apply(queue, calls[0]), calls[1..], n - 1);
      assert calls[..n + 1][1..] == calls[1..][..n] && calls[..n][1..] == calls[1..][..n - 1];
    } else {
      assert calls[..1][1..] == [];
    }
  }

  /** What a thread that tries to get an item ends with, when the others make some calls while it waits. */
  function Got<T>(queue: Queue<T>, meanwhile: seq<Call<T>>): (r: (Option<T>, Queue<T>)) {
    if |queue.items| > 0 then (Some(queue.items[0]), Apply(queue, Take))
    else if queue.isComplete then (None, queue)
    else
      var later := Run(queue, meanwhile);
      (if |later.items| > 0 then Some(later.items[0]) else None, Apply(later, Take))
  }

  class BlockingCollection<T> {
    var collection: seq<T>
    var event: bool
    var isComplete: bool

    function State(): Queue<T>
      reads this
    {
      Queue(collection, event, isComplete)
    }

    predicate Valid()
      reads this
    {
      State().Ready()
    }

    constructor ()
      ensures State() == Queue([], false, false) && Valid()
    {
      collection, event, isComplete := [], false, false;
    }

    /** Adds an item, unless the collection is complete; that is looked at before the lock is taken, so
        others may still complete or clear the collection in between. */
    method Add(item: T, meanwhile: seq<Call<T>>) returns (ok: bool)
      requires Valid()
      modifies this
      ensures Valid()
      ensures ok == !old(State().isComplete)
      ensures State() == if ok then Apply(Run(old(State()), meanwhile), Push(item)) else old(State())
    {
      if isComplete {
        return false;
      }
      LetOthersRun(meanwhile);
      collection := collection + [item];
      event := true;
      ok := true;
    }

    method TryGet(meanwhile: seq<Call<T>>) returns (item: Option<T>)
      requires Valid()
      modifies this
      ensures Valid()
      ensures (item, State()) == Got(old(State()), meanwhile)
    {
      for i := 0 to 2
        invariant Valid()
        invariant i == 0 ==> State() == old(State())
        invariant i > 0 ==>
          |old(State()).items| == 0 && !old(State()).isComplete && State() == Run(old(State()), meanwhile)
        invariant i < 2
      {
        if |collection| > 0 {
          if |collection| == 1 {
            event := false;
          }
          item := Some(collection[0]);
          collection := collection[1..];
          return;
        } else if i == 1 || isComplete {
          return None;
        }
        LetOthersRun(meanwhile);
      }
      item := None;
    }

    method Clear()
      requires Valid()
      modifies this
      ensures Valid() && State() == Apply(old(State()), Call<T>.Clear)
    {
      while |collection| > 0
        invariant Valid() && event == old(event) && isComplete == old(isComplete)
      {
        collection := collection[1..];
      }
    }

    /** Sets the flag and then the event; others may run in between, as no lock is taken. */
    method Complete(meanwhile: seq<Call<T>>)
      requires Valid()
      modifies this
      ensures Valid() && State() == Apply(Run(Apply(old(State()), MarkComplete), meanwhile), Signal)
    {
      isComplete := true;
      LetOthersRun(meanwhile);
      event := true;
    }

    /** The calls that other threads make while this one does not hold the lock. */
    method LetOthersRun(calls: seq<Call<T>>)
      requires Valid()
      modifies this
      ensures Valid() && State() == Run(old(State()), calls)
    {
      assert calls[0..] == calls;
      for i := 0 to |calls|
        invariant Valid() && Run(State(), calls[i..]) == Run(old(State()), calls)
      {
        assert calls[i..][1..] == calls[i + 1..];
        match calls[i]
        case Push(item) => collection := collection + [item]; event := true;
        case Take =>
          if |collection| > 0 {
            event := event && |collection| != 1;
            collection := collection[1..];
          }
        case Clear => Clear();
        case MarkComplete => isComplete := true;
        case Signal => event := true;
      }
    }
  }
}
