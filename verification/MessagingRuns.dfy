/** Runs of a messaging channel: callers, the sender, the network and the receiver take steps in any order. */
module MessagingRuns {
  import opened Wrappers
  import opened Sequences
  import opened Bytes
  import opened BlockingCollections
  import opened MessagePromises
  import opened SocketStreams

  type Message = seq<Byte>

  /** The sender waits for a message, has some bytes of a frame left to hand to the socket, or has ended and
      will never send the bytes that were left. */
  datatype Sender = Idle | Writing(left: seq<Byte>) | Ended(left: seq<Byte>)

  /** The field of a frame that the receiver reads. */
  datatype Field = Magic | Length | Body(length: nat)

  datatype Receiver = Reading(field: Field, buffer: seq<Byte>) | Stopped

  /** Messages are known by the order in which they were made. What was pushed to the queue, what has left it,
      which frames were started (nothing means a heartbeat), how many of them the receiver has read and all
      that was handed to the socket is history. */
  datatype State = State(
    promises: seq<Promise>,
    destroyed: set<nat>,
    adding: set<nat>,
    queue: Queue<nat>,
    sender: Sender,
    wire: seq<Byte>,
    receiver: Receiver,
    delivered: seq<Message>,
    pushed: seq<nat>,
    departed: seq<nat>,
    started: seq<Option<nat>>,
    read: nat,
    sent: seq<Byte>)

  const INITIAL: State := State([], {}, {}, Queue([], false, false), Idle, [], Reading(Magic, []), [], [], [], [], 0, [])

  datatype Step =
    | Make
    | Enqueue(id: nat)
    | StartMessage
    | StartHeartbeat
    | Transfer(count: nat)
    | FinishFrame
    | EndSending
    | CompleteQueue
    | SignalQueue
    | ClearQueue
    | CancelMessage(id: nat)
    | DestroyPromise(id: nat)
    | Receive(count: nat)
    | Advance
    | StopReceiving

  function Size(field: Field): nat {
    match field
    case Magic => 8
    case Length => 4
    case Body(length) => length
  }

  function Left(sender: Sender): seq<Byte> {
    if sender.Idle? then [] else sender.left
  }

  /** The message that the sender holds. */
  predicate Holds(s: State, id: nat) {
    s.sender.Writing? && s.started != [] && s.started[|s.started| - 1] == Some(id)
  }

  predicate Enabled(m: seq<Message>, s: State, step: Step) {
    match step
    case Make => |s.promises| < |m| && !s.queue.isComplete
    case Enqueue(id) => id in s.adding
    case StartMessage => s.sender.Idle? && s.queue.items != []
    case StartHeartbeat => s.sender.Idle? && s.queue.items == []
    case Transfer(count) => s.sender.Writing? && count <= |s.sender.left|
    case FinishFrame => s.sender.Writing? && s.sender.left == []
    case EndSending => !s.sender.Ended?
    case CompleteQueue => s.sender.Ended?
    case SignalQueue => s.sender.Ended? && s.queue.isComplete
    case ClearQueue => s.sender.Ended?
    case CancelMessage(id) => id < |s.promises| && id !in s.destroyed
    case DestroyPromise(id) =>
      id < |s.promises| && id !in s.destroyed && id !in s.adding && id !in s.queue.items && !Holds(s, id)
    case Receive(count) =>
      s.receiver.Reading? && count <= |s.wire| && |s.receiver.buffer| + count <= Size(s.receiver.field)
    case Advance => s.receiver.Reading? && |s.receiver.buffer| == Size(s.receiver.field)
    case StopReceiving => true
  }

  function Next(m: seq<Message>, s: State, step: Step): State
    requires Enabled(m, s, step)
  {
    match step
    case Make => s.(promises := s.promises + [FRESH], adding := s.adding + {|s.promises|})
    case Enqueue(id) =>
      s.(adding := s.adding - {id}, queue := BlockingCollections.Apply(s.queue, Push(id)), pushed := s.pushed + [id])
    case StartMessage =>
      var id := s.queue.items[0];
      s.(queue := BlockingCollections.Apply(s.queue, Take), departed := s.departed + [id],
         started := s.started + [Some(id)], sender := Writing(Frame(MessageOf(m, Some(id)))))
    case StartHeartbeat => s.(started := s.started + [None], sender := Writing(Frame([])))
    case Transfer(count) =>
      var part := s.sender.left[..count];
      s.(sender := Writing(s.sender.left[count..]), sent := s.sent + part, wire := s.wire + part)
    case FinishFrame =>
      s.(sender := Idle,
         promises := seq(|s.promises|, i requires 0 <= i < |s.promises| =>
           if Holds(s, i) then MessagePromises.Apply(s.promises[i], Finish(true)) else s.promises[i]))
    case EndSending => s.(sender := Ended(Left(s.sender)))
    case CompleteQueue => s.(queue := BlockingCollections.Apply(s.queue, MarkComplete))
    case SignalQueue => s.(queue := BlockingCollections.Apply(s.queue, Signal))
    case ClearQueue =>
      s.(queue := BlockingCollections.Apply(s.queue, Clear), departed := s.departed + s.queue.items)
    case CancelMessage(id) => s.(promises := s.promises[id := MessagePromises.Apply(s.promises[id], Cancel)])
    case DestroyPromise(id) =>
      s.(promises := s.promises[id := Destroyed(s.promises[id])], destroyed := s.destroyed + {id})
    case Receive(count) =>
      s.(wire := s.wire[count..], receiver := s.receiver.(buffer := s.receiver.buffer + s.wire[..count]))
    case Advance => Advanced(s)
    case StopReceiving => s.(receiver := Stopped)
  }

  /** What the receiver does when it has read a field. */
  function Advanced(s: State): State
    requires s.receiver.Reading?
  {
    var buffer := s.receiver.buffer;
    match s.receiver.field
    case Magic => if FromBytes(buffer) == MAGIC then s.(receiver := Reading(Length, [])) else s.(receiver := Stopped)
    case Length => var length := FromBytes(buffer);
      if length == 0 then s.(receiver := Reading(Magic, []), read := s.read + 1)
      else s.(receiver := Reading(Body(length), []))
    case Body(length) => s.(receiver := Reading(Magic, []), read := s.read + 1, delivered := s.delivered + [buffer])
  }

  ghost predicate IsRun(m: seq<Message>, s: State, steps: seq<Step>, end: State)
    decreases |steps|
  {
    if steps == [] then end == s
    else Enabled(m, s, steps[0]) && IsRun(m, Next(m, s, steps[0]), steps[1..], end)
  }

  // ---------------------------------------------------------------- the queue

  function MessageOf(m: seq<Message>, id: Option<nat>): Message {
    if id.Some? && id.value < |m| then m[id.value] else []
  }

  function MessagesOf(m: seq<Message>, ids: seq<Option<nat>>): (r: seq<Message>)
    ensures |r| == |ids|
  {
    seq(|ids|, i requires 0 <= i < |ids| => MessageOf(m, ids[i]))
  }

  function Somes(ids: seq<nat>): (r: seq<Option<nat>>)
    ensures |r| == |ids|
  {
    seq(|ids|, i requires 0 <= i < |ids| => Some(ids[i]))
  }

  function WithoutHeartbeats(ids: seq<Option<nat>>): seq<nat> {
    if ids == [] then []
    else (if ids[0].Some? then [ids[0].value] else []) + WithoutHeartbeats(ids[1..])
  }

  ghost predicate QueueInOrder(s: State) {
    && s.queue.Ready()
    && s.pushed == s.departed + s.queue.items
    && WithoutHeartbeats(s.started) <= s.departed
    && (!s.sender.Ended? ==> WithoutHeartbeats(s.started) == s.departed)
  }

  lemma {:induction false} OneMoreStarted(ids: seq<Option<nat>>, id: Option<nat>)
    ensures WithoutHeartbeats(ids + [id]) == WithoutHeartbeats(ids) + if id.Some? then [id.value] else []
  {
    if ids == [] {
      assert [id][1..] == [];
    } else {
      OneMoreStarted(ids[1..], id);
      assert (ids + [id])[1..] == ids[1..] + [id];
    }
  }

  lemma QueueStaysInOrder(m: seq<Message>, s: State, step: Step)
    requires QueueInOrder(s) && Enabled(m, s, step)
    ensures QueueInOrder(Next(m, s, step))
  {
    hide WithoutHeartbeats, FromBytes, Frame, MAGIC, MessagePromises.Apply, Destroyed;
    if step.StartMessage? {
      OneMoreStarted(s.started, Some(s.queue.items[0]));
    } else if step.StartHeartbeat? {
      OneMoreStarted(s.started, None);
    }
  }

  // ---------------------------------------------------------------- what is sent

  /** The bytes of started frames. */
  function FramesOf(m: seq<Message>, ids: seq<Option<nat>>): seq<Byte> {
    Frames(MessagesOf(m, ids))
  }

  ghost predicate SentInOrder(m: seq<Message>, s: State) {
    s.sent + Left(s.sender) == FramesOf(m, s.started)
  }

  lemma OneMoreFrame(m: seq<Message>, ids: seq<Option<nat>>, id: Option<nat>)
    ensures FramesOf(m, ids + [id]) == FramesOf(m, ids) + Frame(MessageOf(m, id))
  {
    hide Frame, MessageOf;
    assert MessagesOf(m, ids + [id]) == MessagesOf(m, ids) + [MessageOf(m, id)];
    FramesConcat(MessagesOf(m, ids), [MessageOf(m, id)]);
    FramesOfOne(MessageOf(m, id));
  }

  lemma SentStaysInOrder(m: seq<Message>, s: State, step: Step)
    requires SentInOrder(m, s) && Enabled(m, s, step)
    ensures SentInOrder(m, Next(m, s, step))
  {
    hide FramesOf, FromBytes, Frame, MAGIC, MessagePromises.Apply, BlockingCollections.Apply, Destroyed;
    match step
    case StartMessage =>
      OneMoreFrame(m, s.started, Some(s.queue.items[0]));
      assert s.sent + [] == s.sent;
    case StartHeartbeat =>
      OneMoreFrame(m, s.started, None);
      assert s.sent + [] == s.sent;
    case Transfer(count) =>
      assert s.sent + s.sender.left[..count] + s.sender.left[count..] == s.sent + s.sender.left;
    case _ =>
  }

  // ---------------------------------------------------------------- what is received

  ghost predicate Fits(m: seq<Message>) {
    forall i | 0 <= i < |m| :: |m[i]| < LENGTH_LIMIT
  }

  /** The fields of the frame that the receiver has read before this one. */
  function Before(field: Field): seq<Byte> {
    match field
    case Magic => []
    case Length => ToBytes(MAGIC, 8)
    case Body(length) => ToBytes(MAGIC, 8) + ToBytes(length, 4)
  }

  /** What is not yet read as a message: the fields read of a frame, the buffer, the bytes under way. */
  function Pending(s: State): seq<Byte>
    requires s.receiver.Reading?
  {
    Before(s.receiver.field) + (s.receiver.buffer + (s.wire + Left(s.sender)))
  }

  ghost predicate ReceivedInOrder(m: seq<Message>, s: State) {
    && s.read <= |s.started|
    && s.delivered == NonEmpty(MessagesOf(m, s.started[..s.read]))
    && (s.receiver.Reading? ==>
          && Pending(s) == FramesOf(m, s.started[s.read..])
          && (s.receiver.field.Body? ==> 0 < s.receiver.field.length < LENGTH_LIMIT))
  }

  /** When bytes of a frame are pending, the next frame is that of the first message not yet read. */
  lemma FirstFrame(m: seq<Message>, ids: seq<Option<nat>>)
    requires FramesOf(m, ids) != []
    ensures ids != [] && FramesOf(m, ids) == Frame(MessageOf(m, ids[0])) + FramesOf(m, ids[1..])
  {
    hide Frame, MessageOf;
    if ids != [] {
      assert MessagesOf(m, ids)[1..] == MessagesOf(m, ids[1..]);
    }
  }

  lemma EveryMessageFits(m: seq<Message>, id: Option<nat>)
    requires Fits(m)
    ensures |MessageOf(m, id)| < LENGTH_LIMIT
  {
    LimitIs();
    assert 0 < LENGTH_LIMIT;
  }

  lemma SameParts<T>(a: seq<T>, x: seq<T>, b: seq<T>, y: seq<T>)
    requires |a| == |b| && a + x == b + y
    ensures a == b && x == y
  {
    assert (a + x)[..|a|] == a && (b + y)[..|b|] == b;
    assert (a + x)[|a|..] == x && (b + y)[|b|..] == y;
  }

  lemma FrameStarts(message: Message, more: seq<Byte>)
    ensures Frame(message) + more == ToBytes(MAGIC, 8) + (ToBytes(|message|, 4) + (message + more))
  {
    hide ToBytes, MAGIC, Frame;
    FrameParts(message);
    Regroup(ToBytes(MAGIC, 8), ToBytes(|message|, 4) + message, more);
    Regroup(ToBytes(|message|, 4), message, more);
  }

  lemma MagicIsNext(message: Message, more: seq<Byte>, buffer: seq<Byte>, rest: seq<Byte>)
    requires |buffer| == 8 && Frame(message) + more == buffer + rest
    ensures FromBytes(buffer) == MAGIC && ToBytes(MAGIC, 8) + rest == Frame(message) + more
  {
    hide FromBytes, ToBytes, MAGIC, Frame;
    FrameStarts(message, more);
    SameParts(buffer, rest, ToBytes(MAGIC, 8), ToBytes(|message|, 4) + (message + more));
    MagicRoundTrip();
  }

  lemma LengthIsNext(message: Message, more: seq<Byte>, buffer: seq<Byte>, rest: seq<Byte>)
    requires |message| < LENGTH_LIMIT && |buffer| == 4 && Frame(message) + more == ToBytes(MAGIC, 8) + (buffer + rest)
    ensures FromBytes(buffer) == |message| && buffer == ToBytes(|message|, 4) && message + more == rest
  {
    hide FromBytes, ToBytes, MAGIC, LENGTH_LIMIT, Frame, Pow256;
    FrameStarts(message, more);
    SameParts(ToBytes(MAGIC, 8), ToBytes(|message|, 4) + (message + more), ToBytes(MAGIC, 8), buffer + rest);
    SameParts(ToBytes(|message|, 4), message + more, buffer, rest);
    NumberRoundTrip(|message|, 4);
    LimitIs();
    FitsWhole(|message|, Pow256(4));
  }

  lemma BodyIsNext(message: Message, more: seq<Byte>, length: nat, buffer: seq<Byte>, rest: seq<Byte>)
    requires |message| < LENGTH_LIMIT && length < LENGTH_LIMIT && |buffer| == length
    requires Frame(message) + more == ToBytes(MAGIC, 8) + ToBytes(length, 4) + (buffer + rest)
    ensures message == buffer && more == rest
  {
    hide FromBytes, ToBytes, MAGIC, LENGTH_LIMIT, Frame, Pow256;
    var field := ToBytes(length, 4);
    Regroup(ToBytes(MAGIC, 8), field, buffer + rest);
    LengthIsNext(message, more, field, buffer + rest);
    NumberRoundTrip(length, 4);
    LimitIs();
    FitsWhole(length, Pow256(4));
    SameParts(message, more, buffer, rest);
  }

  /** One more frame was read as a whole. */
  lemma OneMoreRead(m: seq<Message>, started: seq<Option<nat>>, read: nat)
    requires read < |started|
    ensures NonEmpty(MessagesOf(m, started[..read + 1])) ==
            NonEmpty(MessagesOf(m, started[..read])) + Kept(MessageOf(m, started[read]))
    ensures started[read..][0] == started[read] && started[read..][1..] == started[read + 1..]
  {
    hide NonEmpty, Kept, MessageOf;
    assert MessagesOf(m, started[..read + 1]) == MessagesOf(m, started[..read]) + [MessageOf(m, started[read])];
    NonEmptyConcat(MessagesOf(m, started[..read]), [MessageOf(m, started[read])]);
    NonEmptyOfOne(MessageOf(m, started[read]));
  }

  /** What is pending starts with the next frame. */
  lemma PendingFrame(m: seq<Message>, s: State)
    requires Fits(m) && ReceivedInOrder(m, s) && Enabled(m, s, Advance)
    ensures s.read < |s.started| && |MessageOf(m, s.started[s.read])| < LENGTH_LIMIT
    ensures Pending(s) == Frame(MessageOf(m, s.started[s.read])) + FramesOf(m, s.started[s.read + 1..])
  {
    hide FramesOf, MessagesOf, MessageOf, NonEmpty, Frame, FromBytes, ToBytes, MAGIC, LENGTH_LIMIT, Fits, Left;
    var ids := s.started[s.read..];
    assert |Pending(s)| >= |Before(s.receiver.field)| + |s.receiver.buffer| > 0;
    FirstFrame(m, ids);
    EveryMessageFits(m, ids[0]);
  }

  /** The receiver finds the magic number, the length and the message of the next frame in turn. */
  lemma AdvanceKeepsOrder(m: seq<Message>, s: State)
    requires Fits(m) && ReceivedInOrder(m, s) && Enabled(m, s, Advance)
    ensures ReceivedInOrder(m, Advanced(s))
    ensures Advanced(s).receiver.Reading?
  {
    hide FramesOf, MessagesOf, MessageOf, NonEmpty, Frame, FromBytes, ToBytes, MAGIC, LENGTH_LIMIT, Fits, Left, Kept, Frames,
      QueueInOrder, SentInOrder;
    PendingFrame(m, s);
    var message, more := MessageOf(m, s.started[s.read]), FramesOf(m, s.started[s.read + 1..]);
    var rest, buffer := s.wire + Left(s.sender), s.receiver.buffer;
    Nothing(buffer + rest);
    Nothing(rest);
    Nothing(more);
    OneMoreRead(m, s.started, s.read);
    match s.receiver.field
    case Magic =>
      MagicIsNext(message, more, buffer, rest);
    case Length =>
      LengthIsNext(message, more, buffer, rest);
      KeptIs(message, s.delivered);
      LengthKeepsOrder(m, s, message, more);
    case Body(length) =>
      BodyIsNext(message, more, length, buffer, rest);
      KeptIs(message, s.delivered);
  }

  lemma LengthKeepsOrder(m: seq<Message>, s: State, message: Message, more: seq<Byte>)
    requires ReceivedInOrder(m, s) && s.receiver.Reading? && s.receiver.field == Length && s.read < |s.started|
    requires message == MessageOf(m, s.started[s.read]) && more == FramesOf(m, s.started[s.read + 1..])
    requires |message| < LENGTH_LIMIT && Pending(s) == Frame(message) + more
    requires FromBytes(s.receiver.buffer) == |message| && s.receiver.buffer == ToBytes(|message|, 4)
    requires message + more == s.wire + Left(s.sender)
    requires NonEmpty(MessagesOf(m, s.started[..s.read + 1])) ==
             (if |message| == 0 then s.delivered else s.delivered + [message])
    ensures ReceivedInOrder(m, Advanced(s)) && Advanced(s).receiver.Reading?
  {
    hide FramesOf, MessagesOf, MessageOf, NonEmpty, Frame, FromBytes, ToBytes, MAGIC, LENGTH_LIMIT, Left;
    var rest := s.wire + Left(s.sender);
    Nothing(rest);
    Nothing(more);
    Nothing([] + rest);
    if |message| > 0 {
      Regroup(ToBytes(MAGIC, 8), s.receiver.buffer, rest);
    }
  }

  lemma Nothing(bytes: seq<Byte>)
    ensures [] + bytes == bytes
  {
  }

  lemma KeptIs(message: Message, before: seq<Message>)
    ensures before + Kept(message) == if |message| == 0 then before else before + [message]
  {
  }

  lemma StartKeepsOrder(m: seq<Message>, s: State, id: Option<nat>, next: State)
    requires ReceivedInOrder(m, s) && s.sender.Idle?
    requires next.started == s.started + [id] && next.sender == Writing(Frame(MessageOf(m, id)))
    requires next.wire == s.wire && next.receiver == s.receiver && next.read == s.read && next.delivered == s.delivered
    ensures ReceivedInOrder(m, next)
  {
    hide FramesOf, MessagesOf, MessageOf, NonEmpty, Frame, FromBytes, ToBytes, MAGIC, LENGTH_LIMIT;
    assert next.started[..s.read] == s.started[..s.read];
    assert next.started[s.read..] == s.started[s.read..] + [id];
    if s.receiver.Reading? {
      OneMoreFrame(m, s.started[s.read..], id);
      assert s.wire + [] == s.wire;
      assert Pending(next) == Pending(s) + Frame(MessageOf(m, id));
    }
  }

  lemma ReceivedStaysInOrder(m: seq<Message>, s: State, step: Step)
    requires Fits(m) && ReceivedInOrder(m, s) && Enabled(m, s, step)
    ensures ReceivedInOrder(m, Next(m, s, step))
  {
    hide FramesOf, MessagesOf, NonEmpty, Frame, FromBytes, ToBytes, MAGIC, LENGTH_LIMIT, Fits,
      MessagePromises.Apply, BlockingCollections.Apply, Destroyed, Advanced, ReceivedInOrder;
    var next := Next(m, s, step);
    match step
    case StartMessage => StartKeepsOrder(m, s, Some(s.queue.items[0]), next);
    case StartHeartbeat => StartKeepsOrder(m, s, None, next);
    case Advance => AdvanceKeepsOrder(m, s);
    case _ => MovingKeepsOrder(m, s, step);
  }

  /** Moving bytes from the sender to the network and on to the receiver changes nothing of what is pending. */
  lemma MovingKeepsOrder(m: seq<Message>, s: State, step: Step)
    requires ReceivedInOrder(m, s) && Enabled(m, s, step)
    requires !step.StartMessage? && !step.StartHeartbeat? && !step.Advance?
    ensures ReceivedInOrder(m, Next(m, s, step))
  {
    hide FramesOf, MessagesOf, NonEmpty, Frame, FromBytes, ToBytes, MAGIC, LENGTH_LIMIT, MessagePromises.Apply,
      BlockingCollections.Apply, Destroyed, Advanced, Before;
    if s.receiver.Reading? {
      match step
      case Transfer(count) =>
        assert s.wire + s.sender.left[..count] + s.sender.left[count..] == s.wire + s.sender.left;
      case Receive(count) =>
        var left := Left(s.sender);
        assert s.receiver.buffer + s.wire[..count] + (s.wire[count..] + left) == s.receiver.buffer + (s.wire + left);
      case _ =>
    }
  }

  // ---------------------------------------------------------------- the promises

  /** The frame of a message was handed to the socket to its last byte. */
  ghost predicate WhollySent(m: seq<Message>, s: State, id: nat) {
    exists j | 0 <= j < |s.started| :: s.started[j] == Some(id) && FramesOf(m, s.started[..j + 1]) <= s.sent
  }

  predicate Owned(s: State, id: nat) {
    id in s.adding || id in s.queue.items || Holds(s, id)
  }

  /** Only promises that nobody needs any more are destroyed. */
  ghost predicate OwnersKept(s: State) {
    && (forall id: nat | id in s.destroyed || Owned(s, id) :: id < |s.promises|)
    && (forall id: nat | id in s.destroyed :: !Owned(s, id))
  }

  /** The promise tells the truth: it is a success only if the message was sent, and once it is destroyed
      its future has a value. */
  ghost predicate PromiseKept(m: seq<Message>, s: State, id: nat)
    requires id < |s.promises|
  {
    && (if id in s.destroyed then s.promises[id].outcome.Some? else s.promises[id].Consistent())
    && (s.promises[id].outcome == Some(true) ==> WhollySent(m, s, id))
  }

  ghost predicate PromisesKept(m: seq<Message>, s: State) {
    forall id: nat | id < |s.promises| :: PromiseKept(m, s, id)
  }

  lemma OwnersStayKept(m: seq<Message>, s: State, step: Step)
    requires OwnersKept(s) && Enabled(m, s, step)
    ensures OwnersKept(Next(m, s, step))
  {
    hide FromBytes, Frame, MAGIC, MessageOf, MessagePromises.Apply, Destroyed;
    var next := Next(m, s, step);
    forall id: nat | Owned(next, id)
      ensures Owned(s, id) || (step.Make? && id == |s.promises|)
    {
    }
  }

  /** What was sent stays sent. */
  lemma SentStaysSent(m: seq<Message>, s: State, next: State, id: nat)
    requires WhollySent(m, s, id) && s.started <= next.started && s.sent <= next.sent
    ensures WhollySent(m, next, id)
  {
    hide FramesOf;
    var j :| 0 <= j < |s.started| && s.started[j] == Some(id) && FramesOf(m, s.started[..j + 1]) <= s.sent;
    assert next.started[..j + 1] == s.started[..j + 1];
  }

  /** The message that the sender has just finished was sent. */
  lemma FinishedIsSent(m: seq<Message>, s: State, id: nat)
    requires SentInOrder(m, s) && Enabled(m, s, FinishFrame) && Holds(s, id)
    ensures WhollySent(m, s, id)
  {
    hide FramesOf;
    var j := |s.started| - 1;
    assert s.started[..j + 1] == s.started;
    assert s.sent + [] == s.sent;
  }

  /** History only grows. */
  lemma HistoryGrows(m: seq<Message>, s: State, step: Step)
    requires Enabled(m, s, step)
    ensures var next := Next(m, s, step); s.started <= next.started && s.sent <= next.sent && s.pushed <= next.pushed
    ensures |s.promises| <= |Next(m, s, step).promises|
  {
    hide FromBytes, Frame, MAGIC, MessageOf, MessagePromises.Apply, BlockingCollections.Apply, Destroyed;
  }

  /** How a step may change a promise. */
  lemma PromiseStep(m: seq<Message>, s: State, step: Step, id: nat)
    requires Enabled(m, s, step) && id < |s.promises|
    ensures var next := Next(m, s, step);
      match step
      case FinishFrame =>
        next.promises[id] == (if Holds(s, id) then MessagePromises.Apply(s.promises[id], Finish(true)) else s.promises[id])
        && next.destroyed == s.destroyed
      case CancelMessage(other) =>
        next.promises[id] == (if id == other then MessagePromises.Apply(s.promises[id], Cancel) else s.promises[id])
        && next.destroyed == s.destroyed
      case DestroyPromise(other) =>
        next.promises[id] == (if id == other then Destroyed(s.promises[id]) else s.promises[id])
        && next.destroyed == s.destroyed + {other}
      case _ => next.promises[id] == s.promises[id] && next.destroyed == s.destroyed
  {
    hide FromBytes, Frame, MAGIC, MessageOf, MessagePromises.Apply, BlockingCollections.Apply, Destroyed;
  }

  lemma PromiseStaysKept(m: seq<Message>, s: State, step: Step, id: nat)
    requires OwnersKept(s) && SentInOrder(m, s) && Enabled(m, s, step)
    requires id < |s.promises| && PromiseKept(m, s, id)
    ensures id < |Next(m, s, step).promises| && PromiseKept(m, Next(m, s, step), id)
    ensures s.promises[id].outcome.Some? ==> Next(m, s, step).promises[id].outcome == s.promises[id].outcome
  {
    hide Next, SentInOrder, WhollySent, Holds;
    var next := Next(m, s, step);
    HistoryGrows(m, s, step);
    PromiseStep(m, s, step, id);
    if WhollySent(m, s, id) {
      SentStaysSent(m, s, next, id);
    } else if step.FinishFrame? && Holds(s, id) {
      FinishedIsSent(m, s, id);
      SentStaysSent(m, s, next, id);
    }
  }

  lemma NewPromise(m: seq<Message>, s: State, step: Step, id: nat)
    requires OwnersKept(s) && Enabled(m, s, step) && |s.promises| <= id < |Next(m, s, step).promises|
    ensures PromiseKept(m, Next(m, s, step), id)
  {
    hide FromBytes, Frame, MAGIC, MessageOf, MessagePromises.Apply, BlockingCollections.Apply, Destroyed, WhollySent;
    assert step.Make?;
  }

  // ---------------------------------------------------------------- runs

  ghost predicate Invariant(m: seq<Message>, s: State) {
    && QueueInOrder(s) && SentInOrder(m, s) && OwnersKept(s) && PromisesKept(m, s)
    && (Fits(m) ==> ReceivedInOrder(m, s))
  }

  lemma InvariantInitially(m: seq<Message>)
    ensures Invariant(m, INITIAL)
  {
    hide MAGIC, LENGTH_LIMIT;
    assert MessagesOf(m, []) == [];
    assert FramesOf(m, []) == [];
  }

  lemma InvariantStays(m: seq<Message>, s: State, step: Step)
    requires Invariant(m, s) && Enabled(m, s, step)
    ensures Invariant(m, Next(m, s, step))
  {
    hide QueueInOrder, SentInOrder, OwnersKept, ReceivedInOrder, Fits, Next, PromiseKept, Enabled;
    var next := Next(m, s, step);
    QueueStaysInOrder(m, s, step);
    SentStaysInOrder(m, s, step);
    OwnersStayKept(m, s, step);
    forall id: nat | id < |next.promises|
      ensures PromiseKept(m, next, id)
    {
      if id < |s.promises| {
        PromiseStaysKept(m, s, step, id);
      } else {
        NewPromise(m, s, step, id);
      }
    }
    if Fits(m) {
      ReceivedStaysInOrder(m, s, step);
    }
  }

  lemma {:induction false} InvariantAlways(m: seq<Message>, s: State, steps: seq<Step>, end: State)
    requires Invariant(m, s) && IsRun(m, s, steps, end)
    ensures Invariant(m, end)
    decreases |steps|
  {
    hide Invariant, Enabled, Next;
    if steps != [] {
      InvariantStays(m, s, steps[0]);
      InvariantAlways(m, Next(m, s, steps[0]), steps[1..], end);
    }
  }

  // ---------------------------------------------------------------- what every run promises

  /** The messages queued, in the order in which they were queued, without the empty ones. */
  function Queued(m: seq<Message>, s: State): seq<Message> {
    NonEmpty(MessagesOf(m, Somes(s.pushed)))
  }

  lemma {:induction false} HeartbeatsAreEmpty(m: seq<Message>, ids: seq<Option<nat>>)
    ensures NonEmpty(MessagesOf(m, ids)) == NonEmpty(MessagesOf(m, Somes(WithoutHeartbeats(ids))))
  {
    hide Kept, NonEmpty;
    if ids == [] {
      assert MessagesOf(m, ids) == MessagesOf(m, Somes([])) == [];
    } else {
      var rest := WithoutHeartbeats(ids[1..]);
      HeartbeatsAreEmpty(m, ids[1..]);
      NonEmptyConcat([MessageOf(m, ids[0])], MessagesOf(m, ids[1..]));
      NonEmptyConcat([MessageOf(m, ids[0])], MessagesOf(m, Somes(rest)));
      NonEmptyOfOne(MessageOf(m, ids[0]));
      assert MessagesOf(m, ids) == [MessageOf(m, ids[0])] + MessagesOf(m, ids[1..]);
      if ids[0].Some? {
        assert MessagesOf(m, Somes(WithoutHeartbeats(ids))) == [MessageOf(m, ids[0])] + MessagesOf(m, Somes(rest));
      } else {
        NothingKept();
        assert WithoutHeartbeats(ids) == rest;
      }
    }
  }

  lemma NothingKept()
    ensures Kept([]) == []
  {
  }

  lemma PrefixOfMessages(m: seq<Message>, a: seq<Option<nat>>, b: seq<Option<nat>>)
    requires a <= b
    ensures NonEmpty(MessagesOf(m, a)) <= NonEmpty(MessagesOf(m, b))
  {
    hide NonEmpty;
    assert MessagesOf(m, b) == MessagesOf(m, a) + MessagesOf(m, b[|a|..]);
    NonEmptyConcat(MessagesOf(m, a), MessagesOf(m, b[|a|..]));
  }

  /** In every run, what was delivered is a prefix of the non-empty messages queued, in their order; no part
      of a message and no other message is ever delivered, and the receiver never takes a field for another. */
  lemma DeliveredInOrder(m: seq<Message>, steps: seq<Step>, end: State)
    requires Fits(m) && IsRun(m, INITIAL, steps, end)
    ensures end.delivered <= Queued(m, end)
    ensures Enabled(m, end, Advance) ==> Next(m, end, Advance).receiver.Reading?
  {
    hide IsRun, Fits, NonEmpty, MessagesOf, WithoutHeartbeats, FromBytes, MAGIC, SentInOrder, PromisesKept,
      OwnersKept, Pending, FramesOf, LENGTH_LIMIT, Advanced;
    InvariantInitially(m);
    InvariantAlways(m, INITIAL, steps, end);
    PrefixOfMessages(m, end.started[..end.read], end.started);
    HeartbeatsAreEmpty(m, end.started);
    var taken := WithoutHeartbeats(end.started);
    assert taken <= end.pushed;
    PrefixOfMessages(m, Somes(taken), Somes(end.pushed));
    if Enabled(m, end, Advance) {
      AdvanceKeepsOrder(m, end);
    }
  }

  /** When nothing waits and no byte is under way, every non-empty message queued has been delivered. */
  lemma QuietMeansDelivered(m: seq<Message>, steps: seq<Step>, end: State)
    requires Fits(m) && IsRun(m, INITIAL, steps, end)
    requires end.sender.Idle? && end.queue.items == [] && end.wire == [] && end.receiver == Reading(Magic, [])
    ensures end.delivered == Queued(m, end)
  {
    hide IsRun, Fits, NonEmpty, MessagesOf, WithoutHeartbeats, SentInOrder, PromisesKept, OwnersKept, FramesOf, LENGTH_LIMIT;
    InvariantInitially(m);
    InvariantAlways(m, INITIAL, steps, end);
    var ahead := end.started[end.read..];
    assert FramesOf(m, ahead) == [];
    NothingAhead(m, ahead);
    assert end.started[..end.read] == end.started;
    HeartbeatsAreEmpty(m, end.started);
    assert end.pushed == WithoutHeartbeats(end.started);
  }

  lemma NothingAhead(m: seq<Message>, ids: seq<Option<nat>>)
    ensures ids != [] ==> FramesOf(m, ids) != []
  {
    hide Frame;
    if ids != [] {
      assert FramesOf(m, ids) == Frame(MessagesOf(m, ids)[0]) + Frames(MessagesOf(m, ids)[1..]);
    }
  }

  /** In every run, a future that tells of success belongs to a message whose whole frame was handed to the
      socket; a destroyed promise has given its future a value; and a value once given never changes. */
  lemma PromisesTellTheTruth(m: seq<Message>, steps: seq<Step>, s: State, more: seq<Step>, end: State, id: nat)
    requires IsRun(m, INITIAL, steps, s) && IsRun(m, s, more, end) && id < |s.promises|
    ensures s.promises[id].outcome == Some(true) ==> WhollySent(m, s, id)
    ensures id in s.destroyed ==> s.promises[id].outcome.Some?
    ensures id < |end.promises|
    ensures s.promises[id].outcome.Some? ==> end.promises[id].outcome == s.promises[id].outcome
  {
    hide IsRun, WhollySent, SentInOrder, QueueInOrder, OwnersKept, ReceivedInOrder, Fits;
    InvariantInitially(m);
    InvariantAlways(m, INITIAL, steps, s);
    assert PromiseKept(m, s, id);
    OutcomeStays(m, s, more, end, id);
  }

  lemma {:induction false} OutcomeStays(m: seq<Message>, s: State, steps: seq<Step>, end: State, id: nat)
    requires Invariant(m, s) && IsRun(m, s, steps, end) && id < |s.promises|
    ensures id < |end.promises|
    ensures s.promises[id].outcome.Some? ==> end.promises[id].outcome == s.promises[id].outcome
    decreases |steps|
  {
    hide Enabled, Next, PromiseKept, SentInOrder, QueueInOrder, OwnersKept, ReceivedInOrder, Fits;
    if steps != [] {
      InvariantStays(m, s, steps[0]);
      HistoryGrows(m, s, steps[0]);
      PromiseStaysKept(m, s, steps[0], id);
      OutcomeStays(m, Next(m, s, steps[0]), steps[1..], end, id);
    }
  }

  /** Whenever a step has ended, something in the queue means that a waiting sender will be woken. */
  lemma NoWakeUpIsLost(m: seq<Message>, steps: seq<Step>, end: State)
    requires IsRun(m, INITIAL, steps, end)
    ensures end.queue.items != [] ==> end.queue.signalled
    ensures end.pushed == end.departed + end.queue.items
  {
    hide IsRun, Fits, SentInOrder, PromisesKept, OwnersKept, ReceivedInOrder;
    InvariantInitially(m);
    InvariantAlways(m, INITIAL, steps, end);
  }

  // ---------------------------------------------------------------- canceling

  /** The steps without those that cancel a message. */
  function WithoutCancels(steps: seq<Step>): seq<Step>
    decreases |steps|
  {
    if steps == [] then []
    else (if steps[0].CancelMessage? then [] else [steps[0]]) + WithoutCancels(steps[1..])
  }

  /** The states differ at most in the outcomes of the promises. */
  predicate SameButPromises(a: State, b: State) {
    |a.promises| == |b.promises| && a.(promises := []) == b.(promises := [])
  }

  lemma SameStep(m: seq<Message>, a: State, b: State, step: Step)
    requires SameButPromises(a, b) && Enabled(m, a, step)
    ensures Enabled(m, b, step) && SameButPromises(Next(m, a, step), Next(m, b, step))
    ensures step.CancelMessage? ==> SameButPromises(Next(m, a, step), b)
  {
    hide FromBytes, Frame, MAGIC, MessageOf, MessagePromises.Apply, BlockingCollections.Apply, Destroyed;
  }

  /** Canceling decides promises and nothing else: without the cancels, a run queues, sends and delivers the same. */
  lemma {:induction false} CancelingChangesNothingElse(m: seq<Message>, a: State, b: State, steps: seq<Step>, end: State)
    returns (other: State)
    requires IsRun(m, a, steps, end) && SameButPromises(a, b)
    ensures IsRun(m, b, WithoutCancels(steps), other) && SameButPromises(end, other)
    decreases |steps|
  {
    hide SameButPromises, Next, Enabled;
    if steps == [] {
      other := b;
    } else {
      SameStep(m, a, b, steps[0]);
      var next := Next(m, a, steps[0]);
      if steps[0].CancelMessage? {
        other := CancelingChangesNothingElse(m, next, b, steps[1..], end);
        assert [] + WithoutCancels(steps[1..]) == WithoutCancels(steps[1..]);
      } else {
        other := CancelingChangesNothingElse(m, next, Next(m, b, steps[0]), steps[1..], end);
        FirstStep(m, b, steps[0], WithoutCancels(steps[1..]), other);
      }
    }
  }

  lemma FirstStep(m: seq<Message>, s: State, step: Step, more: seq<Step>, end: State)
    requires Enabled(m, s, step) && IsRun(m, Next(m, s, step), more, end)
    ensures IsRun(m, s, [step] + more, end)
  {
    hide Enabled, Next;
    assert ([step] + more)[0] == step && ([step] + more)[1..] == more;
  }

  /** A message that is canceled while it is queued is still sent as a whole. */
  lemma CanceledIsStillSent(m: seq<Message>) returns (steps: seq<Step>, end: State)
    requires m != []
    ensures IsRun(m, INITIAL, steps, end) && CancelMessage(0) in steps
    ensures |end.promises| > 0 && end.promises[0].outcome == Some(false) && WhollySent(m, end, 0)
  {
    hide Frame, IsRun;
    var frame := Frame(m[0]);
    var made := Next(m, INITIAL, Make);
    var queued := Next(m, made, Enqueue(0));
    var canceled := Next(m, queued, CancelMessage(0));
    var taken := Next(m, canceled, StartMessage);
    var sent := Next(m, taken, Transfer(|frame|));
    end := sent;
    steps := [Transfer(|frame|)];
    NoSteps(m, end);
    FirstStep(m, taken, Transfer(|frame|), [], end);
    assert [Transfer(|frame|)] + [] == [Transfer(|frame|)];
    FirstStep(m, canceled, StartMessage, steps, end);
    steps := [StartMessage] + steps;
    FirstStep(m, queued, CancelMessage(0), steps, end);
    steps := [CancelMessage(0)] + steps;
    FirstStep(m, made, Enqueue(0), steps, end);
    steps := [Enqueue(0)] + steps;
    FirstStep(m, INITIAL, Make, steps, end);
    steps := [Make] + steps;
    OneMoreFrame(m, [], Some(0));
    assert end.started[..1] == [Some(0)] && [] + [Some(0)] == [Some(0)];
    assert FramesOf(m, []) == [] by {
      assert MessagesOf(m, []) == [];
    }
    assert end.sent == FramesOf(m, end.started[..1]);
  }

  lemma NoSteps(m: seq<Message>, s: State)
    ensures IsRun(m, s, [], s)
  {
  }

  lemma ThreeSteps(m: seq<Message>, s: State, one: Step, two: Step, three: Step)
    requires Enabled(m, s, one) && Enabled(m, Next(m, s, one), two)
    requires Enabled(m, Next(m, Next(m, s, one), two), three)
    ensures IsRun(m, s, [one, two, three], Next(m, Next(m, Next(m, s, one), two), three))
  {
    hide Next, Enabled, IsRun;
    var a := Next(m, s, one);
    var b := Next(m, a, two);
    NoSteps(m, Next(m, b, three));
    FirstStep(m, b, three, [], Next(m, b, three));
    FirstStep(m, a, two, [three] + [], Next(m, b, three));
    FirstStep(m, s, one, [two] + ([three] + []), Next(m, b, three));
    assert [one] + ([two] + ([three] + [])) == [one, two, three];
  }

  lemma {:induction false} RunsConcat(m: seq<Message>, s: State, a: seq<Step>, middle: State, b: seq<Step>, end: State)
    requires IsRun(m, s, a, middle) && IsRun(m, middle, b, end)
    ensures IsRun(m, s, a + b, end)
    decreases |a|
  {
    hide Next, Enabled;
    if a == [] {
      assert a + b == b;
    } else {
      RunsConcat(m, Next(m, s, a[0]), a[1..], middle, b, end);
      assert (a + b)[0] == a[0] && (a + b)[1..] == a[1..] + b;
    }
  }

  /** Messages are made one after the other, and none any more once the queue is complete. */
  lemma {:induction false} NoneMadeOnceComplete(m: seq<Message>, s: State, steps: seq<Step>, end: State)
    requires IsRun(m, s, steps, end) && |s.promises| <= |m|
    ensures |s.promises| <= |end.promises| <= |m|
    ensures s.queue.isComplete ==> end.queue.isComplete && |end.promises| == |s.promises| && Make !in steps
    decreases |steps|
  {
    hide Next, Enabled;
    if steps != [] {
      MadeStep(m, s, steps[0]);
      NoneMadeOnceComplete(m, Next(m, s, steps[0]), steps[1..], end);
      assert steps == [steps[0]] + steps[1..];
    }
  }

  lemma MadeStep(m: seq<Message>, s: State, step: Step)
    requires Enabled(m, s, step) && |s.promises| <= |m|
    ensures |s.promises| <= |Next(m, s, step).promises| <= |m|
    ensures s.queue.isComplete ==>
      Next(m, s, step).queue.isComplete && |Next(m, s, step).promises| == |s.promises| && step != Make
  {
    hide FromBytes, Frame, MAGIC, MessageOf, MessagePromises.Apply, Destroyed;
  }

  /** A message that is being added is not queued yet, and nothing is queued twice. */
  ghost predicate QueuedOnce(s: State) {
    && (forall i, j | 0 <= i < j < |s.pushed| :: s.pushed[i] != s.pushed[j])
    && (forall i | 0 <= i < |s.pushed| :: s.pushed[i] < |s.promises| && s.pushed[i] !in s.adding)
    && forall id | id in s.adding :: id < |s.promises|
  }

  lemma QueuedOnceStays(m: seq<Message>, s: State, step: Step)
    requires QueuedOnce(s) && Enabled(m, s, step)
    ensures QueuedOnce(Next(m, s, step))
  {
    hide FromBytes, Frame, MAGIC, MessageOf, MessagePromises.Apply, BlockingCollections.Apply, Destroyed, Holds;
  }

  lemma {:induction false} QueuedOnceAlways(m: seq<Message>, s: State, steps: seq<Step>, end: State)
    requires QueuedOnce(s) && IsRun(m, s, steps, end)
    ensures QueuedOnce(end)
    decreases |steps|
  {
    hide QueuedOnce, Enabled, Next;
    if steps != [] {
      QueuedOnceStays(m, s, steps[0]);
      QueuedOnceAlways(m, Next(m, s, steps[0]), steps[1..], end);
    }
  }

  /** In every run, no message is queued twice, and none is sent twice. */
  lemma NothingIsSentTwice(m: seq<Message>, steps: seq<Step>, end: State)
    requires IsRun(m, INITIAL, steps, end)
    ensures forall i, j | 0 <= i < j < |end.pushed| :: end.pushed[i] != end.pushed[j]
    ensures var sent := WithoutHeartbeats(end.started); forall i, j | 0 <= i < j < |sent| :: sent[i] != sent[j]
  {
    hide IsRun;
    QueuedOnceAlways(m, INITIAL, steps, end);
    InvariantInitially(m);
    InvariantAlways(m, INITIAL, steps, end);
    hide SentInOrder, OwnersKept, PromisesKept, ReceivedInOrder, Fits;
    var sent := WithoutHeartbeats(end.started);
    assert sent <= end.departed <= end.pushed;
  }

  // ---------------------------------------------------------------- queued too late

  /** The message is pushed on the way, and the queue is not cleared after that. */
  ghost predicate PushedLast(steps: seq<Step>, id: nat) {
    exists k | 0 <= k < |steps| :: steps[k] == Enqueue(id) && ClearQueue !in steps[k + 1..]
  }

  /** The message is in the queue already, or is pushed on the way, and the queue is not cleared after that. */
  ghost predicate StaysBehind(s: State, steps: seq<Step>, id: nat) {
    (id in s.queue.items && ClearQueue !in steps) || PushedLast(steps, id)
  }

  lemma PushedAfter(steps: seq<Step>, id: nat)
    requires steps != [] && PushedLast(steps[1..], id)
    ensures PushedLast(steps, id)
  {
    var rest := steps[1..];
    var k :| 0 <= k < |rest| && rest[k] == Enqueue(id) && ClearQueue !in rest[k + 1..];
    SliceOfSuffix(steps, 1, k + 1, |rest|);
    assert steps[k + 1] == Enqueue(id) && steps[k + 1 + 1..] == rest[k + 1..];
  }

  lemma PushedFirstOrAfter(steps: seq<Step>, id: nat)
    requires steps != [] && PushedLast(steps, id)
    ensures PushedLast(steps[1..], id) || (steps[0] == Enqueue(id) && ClearQueue !in steps[1..])
  {
    var k :| 0 <= k < |steps| && steps[k] == Enqueue(id) && ClearQueue !in steps[k + 1..];
    if k > 0 {
      var rest := steps[1..];
      assert rest[k - 1] == Enqueue(id) && rest[k - 1 + 1..] == steps[k + 1..];
    }
  }

  lemma LaterStep(s: State, steps: seq<Step>, id: nat, next: State)
    requires steps != [] && (id in next.queue.items <==>
      if steps[0] == ClearQueue then false else id in s.queue.items || steps[0] == Enqueue(id))
    ensures StaysBehind(next, steps[1..], id) <==> StaysBehind(s, steps, id)
  {
    if PushedLast(steps[1..], id) {
      PushedAfter(steps, id);
    } else {
      hide PushedLast;
      if PushedLast(steps, id) {
        PushedFirstOrAfter(steps, id);
      }
      if steps[0] == Enqueue(id) && ClearQueue !in steps[1..] {
        PushedNow(steps, id);
      }
      assert ClearQueue in steps <==> steps[0] == ClearQueue || ClearQueue in steps[1..];
    }
  }

  lemma PushedNow(steps: seq<Step>, id: nat)
    requires steps != [] && steps[0] == Enqueue(id) && ClearQueue !in steps[1..]
    ensures PushedLast(steps, id)
  {
    assert ClearQueue !in steps[0 + 1..];
  }

  /** Once the sender has ended, no message is started any more, and a message is in the queue at the end exactly
      when it was pushed after the queue was cleared for the last time. Nobody takes it from there. */
  lemma {:induction false} QueuedTooLate(m: seq<Message>, s: State, steps: seq<Step>, end: State, id: nat)
    requires s.sender.Ended? && IsRun(m, s, steps, end)
    ensures end.sender == s.sender && end.started == s.started && end.sent == s.sent
    ensures id in end.queue.items <==> StaysBehind(s, steps, id)
    decreases |steps|
  {
    hide Next, Enabled, StaysBehind;
    if steps == [] {
      NothingLater(s, id);
    } else {
      var next := Next(m, s, steps[0]);
      EndedStep(m, s, steps[0], id);
      LaterStep(s, steps, id, next);
      QueuedTooLate(m, next, steps[1..], end, id);
    }
  }

  lemma NothingLater(s: State, id: nat)
    ensures StaysBehind(s, [], id) <==> id in s.queue.items
  {
  }

  lemma EndedStep(m: seq<Message>, s: State, step: Step, id: nat)
    requires s.sender.Ended? && Enabled(m, s, step)
    ensures var next := Next(m, s, step);
      && next.sender == s.sender && next.started == s.started && next.sent == s.sent
      && (id in next.queue.items <==> if step == ClearQueue then false else id in s.queue.items || step == Enqueue(id))
  {
    hide FromBytes, Frame, MAGIC, MessageOf, MessagePromises.Apply, Destroyed;
  }

  /** A message is made, and the sender ends. */
  lemma MadeThenEnded(m: seq<Message>) returns (end: State)
    requires m != []
    ensures IsRun(m, INITIAL, [Make, EndSending, CompleteQueue], end)
    ensures end == INITIAL.(promises := [FRESH], adding := {0}, sender := Ended([]), queue := Queue([], false, true))
  {
    hide IsRun;
    var made := Next(m, INITIAL, Make);
    assert made == INITIAL.(promises := [FRESH], adding := {0});
    var ended := Next(m, made, EndSending);
    end := Next(m, ended, CompleteQueue);
    ThreeSteps(m, INITIAL, Make, EndSending, CompleteQueue);
  }

  /** The queue is cleared for the last time, and then a message is pushed. */
  lemma ClearedThenPushed(m: seq<Message>, s: State, id: nat) returns (end: State)
    requires s.sender.Ended? && s.queue.isComplete && id in s.adding
    ensures IsRun(m, s, [SignalQueue, ClearQueue, Enqueue(id)], end)
    ensures end.promises == s.promises && end.sender == s.sender && end.started == s.started
    ensures end.queue == Queue([id], true, true)
  {
    hide IsRun;
    var signalled := Next(m, s, SignalQueue);
    var cleared := Next(m, signalled, ClearQueue);
    end := Next(m, cleared, Enqueue(id));
    ThreeSteps(m, s, SignalQueue, ClearQueue, Enqueue(id));
  }

  /** A message that passed the check for completion before the queue was completed stays in the queue for good when
      it is pushed after the queue was cleared. */
  lemma LateMessageStays(m: seq<Message>) returns (steps: seq<Step>, end: State)
    requires m != []
    ensures IsRun(m, INITIAL, steps, end)
    ensures end.sender.Ended? && end.queue.isComplete && end.queue.items == [0] && end.started == []
    ensures |end.promises| > 0 && end.promises[0].outcome == None
  {
    hide IsRun;
    var middle := MadeThenEnded(m);
    end := ClearedThenPushed(m, middle, 0);
    RunsConcat(m, INITIAL, [Make, EndSending, CompleteQueue], middle, [SignalQueue, ClearQueue, Enqueue(0)], end);
    steps := [Make, EndSending, CompleteQueue] + [SignalQueue, ClearQueue, Enqueue(0)];
  }
}
