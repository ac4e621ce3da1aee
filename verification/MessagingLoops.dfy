/** What the loops of the sender and the receiver promise for one turn are steps of the state machine. */
module MessagingLoops {
  import opened Wrappers
  import opened Sequences
  import opened Bytes
  import opened BlockingCollections
  import opened MessagePromises
  import opened SocketStreams
  import opened MessagingRuns
  import TcpMessaging

  // ---------------------------------------------------------------- a turn of the sender

  /** What others push while the sender waits for a message. */
  function Pushes<T>(items: seq<T>): (calls: seq<BlockingCollections.Call<T>>)
    ensures |calls| == |items|
  {
    seq(|items|, i requires 0 <= i < |items| => Push(items[i]))
  }

  lemma {:induction false} PushesRun<T>(queue: Queue<T>, items: seq<T>)
    ensures BlockingCollections.Run(queue, Pushes(items)) ==
            queue.(items := queue.items + items, signalled := queue.signalled || items != [])
    decreases |items|
  {
    if items == [] {
      assert queue.items + [] == queue.items;
    } else {
      assert Pushes(items)[1..] == Pushes(items[1..]);
      PushesRun(queue.(items := queue.items + [items[0]], signalled := true), items[1..]);
      assert items == [items[0]] + items[1..];
      Regroup(queue.items, [items[0]], items[1..]);
    }
  }

  /** What is pushed before the sender takes anything: it waits only for a queue that is empty and not complete. */
  function Awaited<T>(queue: Queue<T>, items: seq<T>): seq<T> {
    if queue.items == [] && !queue.isComplete then items else []
  }

  lemma GotIs<T>(queue: Queue<T>, items: seq<T>)
    ensures var later := queue.items + Awaited(queue, items);
      var got := Got(queue, Pushes(items));
      && got.0 == (if later == [] then None else Some(later[0]))
      && got.1 == BlockingCollections.Apply(
           queue.(items := later, signalled := queue.signalled || Awaited(queue, items) != []), Take)
  {
    hide Pushes;
    PushesRun(queue, items);
    assert queue.items + [] == queue.items;
  }

  /** What the sender takes in a turn; nothing means a heartbeat. */
  function Task(s: State, ids: seq<nat>): Option<nat> {
    Got(s.queue, Pushes(ids)).0
  }

  function TaskFrame(m: seq<Message>, s: State, ids: seq<nat>): seq<Byte> {
    Frame(MessageOf(m, Task(s, ids)))
  }

  /** The state after a turn of the sender in which so many bytes of the frame were sent: the whole frame, and then the
      promise is fulfilled; or a part of it, and then the sender has ended. */
  ghost predicate SenderTurn(m: seq<Message>, s: State, ids: seq<nat>, done: nat, end: State)
    requires done <= |TaskFrame(m, s, ids)|
  {
    var frame := TaskFrame(m, s, ids);
    && end.queue == Got(s.queue, Pushes(ids)).1 && end.sent == s.sent + frame[..done]
    && end.sender == (if done == |frame| then Idle else Ended(frame[done..]))
    && |end.promises| == |s.promises|
    && forall id: nat | id < |s.promises| ::
         end.promises[id] == if done == |frame| && Task(s, ids) == Some(id) then MessagePromises.Apply(s.promises[id], Finish(true))
                             else s.promises[id]
  }

  predicate Adding(s: State, ids: seq<nat>) {
    (forall i | 0 <= i < |ids| :: ids[i] in s.adding) && forall i, j | 0 <= i < j < |ids| :: ids[i] != ids[j]
  }

  /** Others push what they are adding. */
  lemma {:induction false} PushesTakeSteps(m: seq<Message>, s: State, ids: seq<nat>) returns (steps: seq<Step>, end: State)
    requires Adding(s, ids)
    ensures IsRun(m, s, steps, end)
    ensures end == s.(adding := end.adding, pushed := end.pushed, queue := BlockingCollections.Run(s.queue, Pushes(ids)))
    decreases |ids|
  {
    hide IsRun;
    if ids == [] {
      steps, end := [], s;
      NoSteps(m, s);
    } else {
      var more;
      more, end := PushesTakeSteps(m, Next(m, s, Enqueue(ids[0])), ids[1..]);
      FirstStep(m, s, Enqueue(ids[0]), more, end);
      steps := [Enqueue(ids[0])] + more;
      assert Pushes(ids)[1..] == Pushes(ids[1..]);
    }
  }

  /** Every turn of the sender is a run of the state machine, whatever others push while it waits and whatever the
      connection takes of the frame. */
  lemma SenderTakesSteps(m: seq<Message>, s: State, ids: seq<nat>, done: nat) returns (steps: seq<Step>, end: State)
    requires s.sender.Idle? && Adding(s, ids) && done <= |TaskFrame(m, s, ids)|
    ensures IsRun(m, s, steps, end) && SenderTurn(m, s, ids, done, end)
  {
    hide IsRun, Frame, Pushes;
    var waited := Awaited(s.queue, ids);
    var pushed, later := PushesTakeSteps(m, s, waited);
    PushesRun(s.queue, []);
    assert s.queue.items + [] == s.queue.items;
    var more;
    more, end := FrameTakesSteps(m, later, done);
    RunsConcat(m, s, pushed, later, more, end);
    steps := pushed + more;
  }

  /** What the sender takes from a queue for which it need not wait. */
  function Now(s: State): Option<nat> {
    if s.queue.items == [] then None else Some(s.queue.items[0])
  }

  lemma FrameTakesSteps(m: seq<Message>, s: State, done: nat) returns (steps: seq<Step>, end: State)
    requires s.sender.Idle? && done <= |Frame(MessageOf(m, Now(s)))|
    ensures IsRun(m, s, steps, end)
    ensures var frame := Frame(MessageOf(m, Now(s)));
      && end.queue == BlockingCollections.Apply(s.queue, Take) && end.sent == s.sent + frame[..done]
      && end.sender == (if done == |frame| then Idle else Ended(frame[done..]))
      && |end.promises| == |s.promises|
      && forall id: nat | id < |s.promises| ::
           end.promises[id] == if done == |frame| && Now(s) == Some(id) then MessagePromises.Apply(s.promises[id], Finish(true))
                               else s.promises[id]
  {
    hide Frame, IsRun, FromBytes, MAGIC, MessagePromises.Apply;
    var frame := Frame(MessageOf(m, Now(s)));
    var start := if s.queue.items == [] then StartHeartbeat else StartMessage;
    var stop := if done == |frame| then FinishFrame else EndSending;
    steps := [start, Transfer(done), stop];
    var started := Next(m, s, start);
    assert started.sender == Writing(frame);
    var sent := Next(m, started, Transfer(done));
    assert sent.sender == Writing(frame[done..]);
    end := Next(m, sent, stop);
    ThreeSteps(m, s, start, Transfer(done), stop);
  }

  /** The state after a turn of the receiver that took so many bytes from the wire. */
  ghost predicate ReceiverTurn(s: State, done: nat, end: State)
    requires done <= |s.wire|
  {
    && end.wire == s.wire[done..]
    && match ReadFrame(s.wire[..done])
       case Whole(message, _) =>
         end.receiver == Reading(Magic, []) && end.delivered == s.delivered + Kept(message) && end.read == s.read + 1
       case _ => end.receiver.Stopped? && end.delivered == s.delivered
  }

  /** A read of one field: its bytes come, and the receiver goes on to the next field. */
  lemma ReadField(m: seq<Message>, s: State) returns (end: State)
    requires s.receiver.Reading? && s.receiver.buffer == [] && Size(s.receiver.field) <= |s.wire|
    ensures var size := Size(s.receiver.field);
      && IsRun(m, s, [Receive(size), Advance], end)
      && end == Advanced(s.(wire := s.wire[size..], receiver := Reading(s.receiver.field, s.wire[..size])))
  {
    hide IsRun, Advanced;
    var size := Size(s.receiver.field);
    var received := Next(m, s, Receive(size));
    assert [] + s.wire[..size] == s.wire[..size];
    assert received == s.(wire := s.wire[size..], receiver := Reading(s.receiver.field, s.wire[..size]));
    end := Next(m, received, Advance);
    NoSteps(m, end);
    FirstStep(m, received, Advance, [], end);
    FirstStep(m, s, Receive(size), [Advance] + [], end);
    assert [Receive(size)] + ([Advance] + []) == [Receive(size), Advance];
  }

  /** The receiver gives up after it took some bytes of a field. */
  lemma StopInField(m: seq<Message>, s: State, count: nat) returns (end: State)
    requires s.receiver.Reading? && s.receiver.buffer == [] && count <= Size(s.receiver.field) && count <= |s.wire|
    ensures IsRun(m, s, [Receive(count), StopReceiving], end)
    ensures end == s.(wire := s.wire[count..], receiver := Stopped)
  {
    hide IsRun;
    var received := Next(m, s, Receive(count));
    end := Next(m, received, StopReceiving);
    NoSteps(m, end);
    FirstStep(m, received, StopReceiving, [], end);
    FirstStep(m, s, Receive(count), [StopReceiving] + [], end);
    assert [Receive(count)] + ([StopReceiving] + []) == [Receive(count), StopReceiving];
  }

  lemma Slices(bytes: seq<Byte>, done: nat)
    requires done <= |bytes|
    ensures done >= 8 ==> bytes[..done][..8] == bytes[..8] && bytes[8..][done - 8..] == bytes[done..]
    ensures done >= 12 ==> bytes[..done][8..12] == bytes[8..][..4] && bytes[8..][4..] == bytes[12..]
    ensures done >= 12 ==> bytes[12..][..done - 12] == bytes[..done][12..] && bytes[12..][done - 12..] == bytes[done..]
  {
  }

  /** Every turn of the receiver is a run of the state machine: a whole frame, eight bytes that are not the magic
      number, or a part of a frame after which the connection fails. */
  lemma ReceiverTakesSteps(m: seq<Message>, s: State, done: nat) returns (steps: seq<Step>, end: State)
    requires s.receiver == Reading(Magic, []) && done <= |s.wire|
    requires match ReadFrame(s.wire[..done])
      case Whole(_, rest) => rest == []
      case BadMagic => done == 8
      case Short => true
    ensures IsRun(m, s, steps, end) && ReceiverTurn(s, done, end)
  {
    hide IsRun, FromBytes, MAGIC;
    var wire := s.wire;
    Slices(wire, done);
    if done < 8 {
      end := StopInField(m, s, done);
      steps := [Receive(done), StopReceiving];
    } else {
      var atLength := ReadField(m, s);
      steps := [Receive(8), Advance];
      if FromBytes(wire[..8]) != MAGIC {
        end := atLength;
      } else if done < 12 {
        end := StopInField(m, atLength, done - 8);
        RunsConcat(m, s, steps, atLength, [Receive(done - 8), StopReceiving], end);
        steps := steps + [Receive(done - 8), StopReceiving];
      } else {
        var atBody := ReadField(m, atLength);
        RunsConcat(m, s, steps, atLength, [Receive(4), Advance], atBody);
        steps := steps + [Receive(4), Advance];
        var more;
        more, end := BodyTakesSteps(m, atBody, FromBytes(wire[8..][..4]), done - 12);
        RunsConcat(m, s, steps, atBody, more, end);
        steps := steps + more;
        BodyEnds(s, done, end);
      }
    }
  }

  /** The rest of a turn, after the length was read. */
  lemma BodyTakesSteps(m: seq<Message>, s: State, length: nat, count: nat) returns (steps: seq<Step>, end: State)
    requires s.receiver == (if length == 0 then Reading(Magic, []) else Reading(Body(length), []))
    requires count <= length && count <= |s.wire|
    ensures IsRun(m, s, steps, end) && end.wire == s.wire[count..]
    ensures if length == 0 then end == s
            else if count < length then end.receiver.Stopped? && end.delivered == s.delivered
            else end.receiver == Reading(Magic, []) && end.delivered == s.delivered + [s.wire[..count]] && end.read == s.read + 1
  {
    hide IsRun;
    if length == 0 {
      steps, end := [], s;
      NoSteps(m, s);
    } else if count < length {
      end := StopInField(m, s, count);
      steps := [Receive(count), StopReceiving];
    } else {
      end := ReadField(m, s);
      steps := [Receive(length), Advance];
    }
  }

  lemma BodyEnds(s: State, done: nat, end: State)
    requires s.receiver == Reading(Magic, []) && 12 <= done <= |s.wire| && FromBytes(s.wire[..8]) == MAGIC
    requires done - 12 <= FromBytes(s.wire[8..][..4]) && end.wire == s.wire[12..][done - 12..]
    requires var length := FromBytes(s.wire[8..][..4]);
      if done - 12 < length then end.receiver.Stopped? && end.delivered == s.delivered
      else
        && end.receiver == Reading(Magic, []) && end.read == s.read + 1
        && end.delivered == s.delivered + if length == 0 then [] else [s.wire[12..][..done - 12]]
    ensures ReceiverTurn(s, done, end)
  {
    hide FromBytes, MAGIC;
    Slices(s.wire, done);
    var length := FromBytes(s.wire[8..][..4]);
    if done - 12 == length {
      assert s.wire[..done][12..12 + length] == s.wire[12..][..done - 12];
    }
  }

  // ---------------------------------------------------------------- the loops themselves

  type Channel = TcpMessaging.TcpMessagingChannel

  /** The objects of the messages in the queue, which the state machine knows by their numbers. */
  ghost predicate SameQueue(queue: Queue<MessagePromise>, ids: Queue<nat>, objects: seq<MessagePromise>) {
    && queue.signalled == ids.signalled && queue.isComplete == ids.isComplete
    && SameItems(queue.items, ids.items, objects)
  }

  ghost predicate SameItems(items: seq<MessagePromise>, ids: seq<nat>, objects: seq<MessagePromise>) {
    |items| == |ids| && forall i | 0 <= i < |ids| :: ids[i] < |objects| && items[i] == objects[ids[i]]
  }

  /** The channel is in this state, when these are the promises made so far. */
  ghost predicate Shows(channel: Channel, objects: seq<MessagePromise>, m: seq<Message>, s: State)
    reads channel, channel.messagesToSend, channel.stream.socket, objects
  {
    && |objects| == |s.promises| <= |m|
    && (forall i, j | 0 <= i < j < |objects| :: objects[i] != objects[j])
    && (forall id | 0 <= id < |objects| :: objects[id].message == m[id] && objects[id].State() == s.promises[id])
    && channel.messagesToSend.Valid() && SameQueue(channel.messagesToSend.State(), s.queue, objects)
    && channel.stream.socket.sent == s.sent
  }

  /** What is taken is the object of the message that the state machine takes. */
  lemma SameGot(queue: Queue<MessagePromise>, ids: Queue<nat>, objects: seq<MessagePromise>,
                items: seq<MessagePromise>, pushed: seq<nat>)
    requires SameQueue(queue, ids, objects) && SameItems(items, pushed, objects)
    ensures var got, id := Got(queue, Pushes(items)), Got(ids, Pushes(pushed));
      && SameQueue(got.1, id.1, objects)
      && match id.0
         case None => got.0 == None
         case Some(n) => n < |objects| && got.0 == Some(objects[n]) && (n in ids.items || n in pushed)
  {
    hide Pushes, Got;
    GotIs(queue, items);
    GotIs(ids, pushed);
  }

  /** A promise that is in the queue, or about to be, is not destroyed. */
  lemma QueuedIsConsistent(m: seq<Message>, s: State, id: nat)
    requires Invariant(m, s) && (id in s.queue.items || id in s.adding)
    ensures id < |s.promises| && s.promises[id].Consistent()
  {
    hide QueueInOrder, SentInOrder, ReceivedInOrder, WhollySent, Fits;
    assert PromiseKept(m, s, id);
  }

  lemma OneTurn(queue: Queue<MessagePromise>, calls: TcpMessaging.Calls)
    ensures TcpMessaging.Taken(queue, [calls]) == [Got(queue, calls).0]
    ensures TcpMessaging.Left(queue, [calls][..0]) == queue && TcpMessaging.Left(queue, [calls][..1]) == Got(queue, calls).1
  {
    hide Got;
    assert [calls][1..] == [] && [calls][..1] == [calls];
  }

  function Holder(task: Option<MessagePromise>): set<MessagePromise> {
    if task.None? then {} else {task.value}
  }

  /** One turn of the sender loop, told without the turns before. */
  method SendOne(channel: Channel, calls: TcpMessaging.Calls) returns (ok: bool, ghost done: nat)
    requires channel.messagesToSend.Valid()
    requires forall p | p in Holder(Got(channel.messagesToSend.State(), calls).0) :: p.State().Consistent()
    modifies channel.messagesToSend, channel.stream.socket, Holder(Got(channel.messagesToSend.State(), calls).0)
    ensures channel.messagesToSend.Valid()
    ensures channel.messagesToSend.State() == Got(old(channel.messagesToSend.State()), calls).1
    ensures var task := Got(old(channel.messagesToSend.State()), calls).0;
      var frame := Frame(TcpMessaging.Payload(task));
      && done <= |frame| && channel.stream.socket.sent == old(channel.stream.socket.sent) + frame[..done]
      && (ok <==> done == |frame|) && (!ok ==> channel.stream.socket.plan == [])
      && forall p | p in Holder(task) :: p.State() == if ok then MessagePromises.Apply(old(p.State()), Finish(true)) else old(p.State())
  {
    hide Got, Frame, SendAll, AllSizes, MessagePromises.Apply, TcpMessaging.Taken, TcpMessaging.Left, TcpMessaging.Payload,
      TcpMessaging.Payloads, TcpMessaging.Sent;
    ghost var queue, first, plan := channel.messagesToSend.State(), channel.stream.socket.sent, channel.stream.socket.plan;
    OneTurn(queue, calls);
    ghost var task := Got(queue, calls).0;
    ghost var before := map p | p in Holder(task) :: p.State();
    TcpMessaging.NoFrames([task], first);
    TcpMessaging.NoFlow(plan, [task]);
    TcpMessaging.OneMoreFrame([task], 0, first);
    ghost var part;
    ok, part := channel.SendTurn([calls], 0, Holder(task), before, queue, first, plan);
    ghost var frame := Frame(TcpMessaging.Payload(task));
    assert frame[..|frame|] == frame;
    done := if ok then |frame| else |part|;
  }

  /** Every turn of the sender loop of a channel is a run of the state machine. */
  method TakeSenderTurn(channel: Channel, objects: seq<MessagePromise>, ids: seq<nat>, ghost m: seq<Message>, ghost s: State)
    returns (ok: bool, ghost steps: seq<Step>, ghost end: State)
    requires Shows(channel, objects, m, s) && Invariant(m, s) && s.sender.Idle? && Adding(s, ids)
    modifies channel.messagesToSend, channel.stream.socket, objects
    ensures IsRun(m, s, steps, end) && Shows(channel, objects, m, end)
    ensures ok <==> end.sender.Idle?
    ensures !ok ==> end.sender.Ended? && channel.stream.socket.plan == []
  {
    hide Pushes, Got, IsRun, Invariant, Frame, SameQueue, MessagePromises.Apply;
    forall i | 0 <= i < |ids|
      ensures ids[i] < |objects|
    {
      QueuedIsConsistent(m, s, ids[i]);
    }
    var items := seq(|ids|, i requires 0 <= i < |ids| => objects[ids[i]]);
    SameGot(channel.messagesToSend.State(), s.queue, objects, items, ids);
    if Task(s, ids).Some? {
      QueuedIsConsistent(m, s, Task(s, ids).value);
    }
    ghost var done;
    ok, done := SendOne(channel, Pushes(items));
    steps, end := SenderTakesSteps(m, s, ids, done);
  }

  /** Every turn of the receiver loop of a channel is a run of the state machine. */
  method TakeReceiverTurn(channel: Channel, ghost m: seq<Message>, ghost s: State)
    returns (ending: TcpMessaging.Ending, message: seq<Byte>, ghost steps: seq<Step>, ghost end: State)
    requires channel.stream.socket.incoming == s.wire && s.receiver == Reading(Magic, [])
    modifies channel.stream.socket
    ensures IsRun(m, s, steps, end) && channel.stream.socket.incoming == end.wire
    ensures if ending.Disconnected? then end.receiver == Reading(Magic, []) && end.delivered == s.delivered + Kept(message)
            else end.receiver.Stopped? && end.delivered == s.delivered
  {
    hide IsRun, ReadFrame, ReceiveAll;
    ending, message := channel.ReceiveFrame();
    steps, end := ReceiverTakesSteps(m, s, |s.wire| - |channel.stream.socket.incoming|);
  }
}
