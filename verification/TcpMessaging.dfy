/** The sender and the receiver of a messaging channel, each as the loop of its own thread. */
module TcpMessaging {
  import opened Wrappers
  import opened Sequences
  import opened Bytes
  import opened BlockingCollections
  import opened MessagePromises
  import opened SocketStreams

  type Calls = seq<BlockingCollections.Call<MessagePromise>>

  /** What the sender takes from the queue in its turns; nothing means a heartbeat. */
  function Taken(queue: Queue<MessagePromise>, turns: seq<Calls>): (taken: seq<Option<MessagePromise>>)
    ensures |taken| == |turns|
    decreases |turns|
  {
    if turns == [] then []
    else
      var got := Got(queue, turns[0]);
      [got.0] + Taken(got.1, turns[1..])
  }

  /** The queue after these turns. */
  function Left(queue: Queue<MessagePromise>, turns: seq<Calls>): Queue<MessagePromise>
    decreases |turns|
  {
    if turns == [] then queue else Left(Got(queue, turns[0]).1, turns[1..])
  }

  function Payload(item: Option<MessagePromise>): seq<Byte> {
    if item.None? then [] else item.value.message
  }

  function Payloads(items: seq<Option<MessagePromise>>): seq<seq<Byte>> {
    seq(|items|, i requires 0 <= i < |items| => Payload(items[i]))
  }

  /** The bytes of the first frames. */
  function Sent(items: seq<Option<MessagePromise>>, whole: nat): seq<Byte>
    requires whole <= |items|
  {
    Frames(Payloads(items[..whole]))
  }

  lemma OneMoreFrame(items: seq<Option<MessagePromise>>, i: nat, before: seq<Byte>)
    requires i < |items|
    ensures before + Sent(items, i + 1) == before + Sent(items, i) + Frame(Payload(items[i]))
    ensures items[..i + 1] == items[..i] + [items[i]]
  {
    hide Frame, Payload;
    assert Payloads(items[..i + 1]) == Payloads(items[..i]) + [Payload(items[i])];
    FramesConcat(Payloads(items[..i]), [Payload(items[i])]);
    FramesOfOne(Payload(items[i]));
  }

  lemma NoFrames(items: seq<Option<MessagePromise>>, before: seq<Byte>)
    ensures before + Sent(items, 0) == before && items[..0] == []
  {
  }

  /** The promises of what was sent so far are finished as a success, and the others are as before. */
  ghost predicate Fulfilled(promises: set<MessagePromise>, before: map<MessagePromise, Promise>, sofar: seq<Option<MessagePromise>>)
    reads promises
  {
    forall p | p in promises ::
      && p in before && before[p].Consistent()
      && p.State() == if Some(p) in sofar then MessagePromises.Apply(before[p], Finish(true)) else before[p]
  }

  predicate AllIn(items: seq<Option<MessagePromise>>, promises: set<MessagePromise>) {
    forall i | 0 <= i < |items| && items[i].Some? :: items[i].value in promises
  }

  lemma {:induction false} FirstSizes(messages: seq<seq<Byte>>, i: nat) returns (more: seq<nat>)
    requires i <= |messages|
    ensures AllSizes(messages) == AllSizes(messages[..i]) + more
  {
    hide FieldSizes;
    if i == |messages| {
      more := [];
      assert messages[..i] == messages;
    } else {
      var n := |messages| - 1;
      more := FirstSizes(messages[..n], i);
      assert messages[..n][..i] == messages[..i];
      more := more + FieldSizes(messages[n]);
    }
  }

  /** What was sent in the first turns is all that is sent when the connection has failed. */
  lemma SentInAll(plan: seq<nat>, items: seq<Option<MessagePromise>>, i: nat, flow: Flow)
    requires i <= |items| && flow == SendAll(plan, AllSizes(Payloads(items[..i])))
    requires i < |items| ==> flow.plan == []
    ensures flow == SendAll(plan, AllSizes(Payloads(items)))
  {
    hide SendAll, AllSizes, Payload;
    if i < |items| {
      var more := FirstSizes(Payloads(items), i);
      assert Payloads(items)[..i] == Payloads(items[..i]);
      SendConcat(plan, AllSizes(Payloads(items[..i])), more);
      NothingSent(more);
    } else {
      assert items[..i] == items;
    }
  }

  lemma OneMoreFlow(plan: seq<nat>, items: seq<Option<MessagePromise>>, i: nat, flow: Flow, next: Flow)
    requires i < |items| && flow == SendAll(plan, AllSizes(Payloads(items[..i])))
    requires next == SendAll(flow.plan, FieldSizes(Payload(items[i])))
    ensures Flow(flow.done + next.done, next.plan) == SendAll(plan, AllSizes(Payloads(items[..i + 1])))
  {
    hide SendAll, FieldSizes, Payload;
    var before, message := Payloads(items[..i]), Payload(items[i]);
    assert Payloads(items[..i + 1]) == before + [message];
    assert (before + [message])[..|before|] == before;
    SendConcat(plan, AllSizes(before), FieldSizes(message));
  }

  lemma NoFlow(plan: seq<nat>, items: seq<Option<MessagePromise>>)
    ensures SendAll(plan, AllSizes(Payloads(items[..0]))) == Flow(0, plan)
  {
  }

  /** Bytes that stop within a frame. */
  lemma PartIsShort(bytes: seq<Byte>, done: nat)
    requires done <= |bytes|
    requires done < 8 || (FromBytes(bytes[..8]) == MAGIC && (done < 12 || done - 12 < FromBytes(bytes[8..12])))
    ensures ReadFrame(bytes[..done]) == Short
  {
    hide FromBytes, MAGIC;
    if done >= 8 {
      SliceOfPrefix(bytes, done, 0, 8);
    }
    if done >= 12 {
      SliceOfPrefix(bytes, done, 8, 12);
    }
  }

  lemma AllIsWhole(bytes: seq<Byte>, done: nat)
    requires 12 <= done <= |bytes| && FromBytes(bytes[..8]) == MAGIC && FromBytes(bytes[8..12]) == done - 12
    ensures ReadFrame(bytes[..done]) == Whole(bytes[12..done], [])
  {
    hide FromBytes, MAGIC;
    SliceOfPrefix(bytes, done, 0, 8);
    SliceOfPrefix(bytes, done, 8, 12);
  }

  datatype Ending = Disconnected | Failed | Mismatched

  class TcpMessagingChannel {
    const messagesToSend: BlockingCollection<MessagePromise>
    const stream: SocketStream
    var isConnected: bool
    /** The messages raised to the handlers. */
    var received: seq<seq<Byte>>

    constructor (stream: SocketStream)
      ensures this.stream == stream && fresh(messagesToSend) && messagesToSend.State() == Queue([], false, false)
      ensures isConnected && received == []
    {
      this.stream := stream;
      messagesToSend := new BlockingCollection();
      isConnected, received := true, [];
    }

    method SendMessage(message: seq<Byte>, meanwhile: Calls) returns (promise: Option<MessagePromise>)
      requires messagesToSend.Valid()
      modifies messagesToSend
      ensures messagesToSend.Valid()
      ensures promise.None? <==> old(messagesToSend.isComplete)
      ensures match promise
        case None => messagesToSend.State() == old(messagesToSend.State())
        case Some(p) =>
          && fresh(p) && p.message == message && p.State() == FRESH
          && messagesToSend.State() == BlockingCollections.Apply(BlockingCollections.Run(old(messagesToSend.State()), meanwhile), Push(p))
    {
      var messagePromise := new MessagePromise(message);
      var ok := messagesToSend.Add(messagePromise, meanwhile);
      promise := if ok then Some(messagePromise) else None;
    }

    /** Sends one frame. */
    method SendFrame(message: seq<Byte>) returns (ok: bool, ghost done: nat)
      modifies stream.socket
      ensures done <= |Frame(message)| && stream.socket.sent == old(stream.socket.sent) + Frame(message)[..done]
      ensures ok <==> done == |Frame(message)|
      ensures !ok ==> stream.socket.plan == []
      ensures Flow(done, stream.socket.plan) == SendAll(old(stream.socket.plan), FieldSizes(message))
    {
      hide Frame, ToBytes, MAGIC, Transfer, SendAll;
      ghost var plan := stream.socket.plan;
      SendFirst(plan, 8, [4, |message|]);
      assert [8] + [4, |message|] == FieldSizes(message);
      ghost var head, tail := ToBytes(MAGIC, 8), ToBytes(|message|, 4) + message;
      FrameParts(message);
      ok, done := stream.WriteNumber(MAGIC, 8);
      PartOfFirst(head, tail, done);
      if !ok {
        NothingSent([4, |message|]);
        return;
      }
      assert head[..8] == head;
      ghost var more;
      ok, more := stream.WriteVector(message);
      PartOfSecond(head, tail, more);
      done := 8 + more;
    }

    /** Sends one message, or a heartbeat, and fulfils its promise. */
    method SendNext(task: Option<MessagePromise>, ghost promises: set<MessagePromise>,
                    ghost before: map<MessagePromise, Promise>, ghost sofar: seq<Option<MessagePromise>>)
      returns (ok: bool, ghost part: seq<Byte>)
      requires Fulfilled(promises, before, sofar) && (task.Some? ==> task.value in promises)
      modifies stream.socket, promises
      ensures stream.socket.sent == old(stream.socket.sent) + part
      ensures if ok then part == Frame(Payload(task)) else part < Frame(Payload(task))
      ensures !ok ==> stream.socket.plan == []
      ensures Flow(|part|, stream.socket.plan) == SendAll(old(stream.socket.plan), FieldSizes(Payload(task)))
      ensures Fulfilled(promises, before, if ok then sofar + [task] else sofar)
    {
      hide Frame, MessagePromises.Apply, SendAll, FieldSizes;
      ghost var done;
      ok, done := SendFrame(if task.Some? then task.value.message else []);
      part := Frame(Payload(task))[..done];
      if ok && task.Some? {
        FinishTwice(before[task.value]);
        FinishIsConsistent();
        task.value.Finish(true);
      }
    }

    /** The sender, which finds the channel connected as often as there are turns; in each turn the others
        make some calls while the sender waits for a message. The first frames are sent as a whole, in the
        order in which their messages were taken; if the connection fails, a proper part of the next frame was
        sent. As much is sent as the connection takes. The promises of the messages sent as a whole are fulfilled,
        and no other promise is touched. */
    method SendMessages(turns: seq<Calls>, ghost promises: set<MessagePromise>)
      returns (ghost whole: nat, ghost part: seq<Byte>)
      requires messagesToSend.Valid()
      requires AllIn(Taken(messagesToSend.State(), turns), promises)
      requires forall p | p in promises :: p.State().Consistent()
      modifies this, messagesToSend, stream.socket, promises
      ensures !isConnected && messagesToSend.State().isComplete && messagesToSend.State().items == []
      ensures received == old(received)
      ensures var taken := Taken(old(messagesToSend.State()), turns);
        && whole <= |turns|
        && stream.socket.sent == old(stream.socket.sent) + Sent(taken, whole) + part
        && (whole == |turns| ==> part == [])
        && (whole < |turns| ==> part < Frame(Payload(taken[whole])) && stream.socket.plan == [])
        && Flow(|stream.socket.sent| - |old(stream.socket.sent)|, stream.socket.plan) ==
           SendAll(old(stream.socket.plan), AllSizes(Payloads(taken)))
        && forall p | p in promises ::
             p.State() == if Some(p) in taken[..whole] then MessagePromises.Apply(old(p.State()), Finish(true)) else old(p.State())
    {
      hide Sent, Frame, Payload, Payloads, SendAll, AllSizes, FieldSizes, Got, MessagePromises.Apply,
        BlockingCollections.Apply, Taken, Left, AllIn;
      ghost var queue := messagesToSend.State();
      ghost var taken := Taken(queue, turns);
      ghost var before := map p | p in promises :: p.State();
      whole, part := 0, [];
      assert turns[..0] == [];
      ghost var first := stream.socket.sent;
      NoFrames(taken, first);
      NothingTaken(queue);
      ghost var plan := stream.socket.plan;
      NoFlow(plan, taken);
      var ok := true;
      var i := 0;
      while i < |turns| && ok
        invariant i <= |turns| && (ok ==> whole == i && part == [])
        invariant whole <= |turns| && (!ok ==> whole < |turns| && part < Frame(Payload(taken[whole])))
        invariant !ok ==> stream.socket.plan == []
        invariant messagesToSend.Valid() && received == old(received)
        invariant ok ==> messagesToSend.State() == Left(queue, turns[..i])
        invariant stream.socket.sent == first + Sent(taken, whole) + part
        invariant Flow(|stream.socket.sent| - |first|, stream.socket.plan) == SendAll(plan, AllSizes(Payloads(taken[..i])))
        invariant Fulfilled(promises, before, taken[..whole])
        decreases |turns| - i
      {
        ok, part := SendTurn(turns, i, promises, before, queue, first, plan);
        if ok {
          whole, part := i + 1, [];
        }
        i := i + 1;
      }
      SentInAll(plan, taken, i, Flow(|stream.socket.sent| - |first|, stream.socket.plan));
      Close();
    }

    /** One turn of the sender. */
    method SendTurn(turns: seq<Calls>, i: nat, ghost promises: set<MessagePromise>, ghost before: map<MessagePromise, Promise>,
                    ghost queue: Queue<MessagePromise>, ghost first: seq<Byte>, ghost plan: seq<nat>)
      returns (ok: bool, ghost part: seq<Byte>)
      requires i < |turns| && messagesToSend.Valid() && messagesToSend.State() == Left(queue, turns[..i])
      requires AllIn(Taken(queue, turns), promises) && Fulfilled(promises, before, Taken(queue, turns)[..i])
      requires stream.socket.sent == first + Sent(Taken(queue, turns), i)
      requires Flow(|stream.socket.sent| - |first|, stream.socket.plan) == SendAll(plan, AllSizes(Payloads(Taken(queue, turns)[..i])))
      modifies messagesToSend, stream.socket, promises
      ensures messagesToSend.Valid() && messagesToSend.State() == Left(queue, turns[..i + 1])
      ensures var taken := Taken(queue, turns);
        && Fulfilled(promises, before, taken[..if ok then i + 1 else i])
        && stream.socket.sent == (if ok then first + Sent(taken, i + 1) else first + Sent(taken, i) + part)
        && (!ok ==> part < Frame(Payload(taken[i])) && stream.socket.plan == [])
        && Flow(|stream.socket.sent| - |first|, stream.socket.plan) == SendAll(plan, AllSizes(Payloads(taken[..i + 1])))
    {
      hide Sent, Frame, Payload, Payloads, SendAll, AllSizes, FieldSizes, Got, Fulfilled, MessagePromises.Apply,
        BlockingCollections.Apply, Taken, Left;
      ghost var taken := Taken(queue, turns);
      TakenAt(queue, turns, i);
      var task := messagesToSend.TryGet(turns[i]);
      OneMoreFrame(taken, i, first);
      ghost var flow := Flow(|stream.socket.sent| - |first|, stream.socket.plan);
      ok, part := SendNext(task, promises, before, taken[..i]);
      OneMoreFlow(plan, taken, i, flow, Flow(|part|, stream.socket.plan));
    }

    method Close()
      requires messagesToSend.Valid()
      modifies this, messagesToSend
      ensures !isConnected && received == old(received)
      ensures messagesToSend.State().isComplete && messagesToSend.State().items == []
    {
      messagesToSend.Complete([]);
      messagesToSend.Clear();
      isConnected := false;
    }

    /** The receiver, which finds the channel connected as often as there are turns. What was received as
        whole frames is delivered in order, except for heartbeats; nothing else is delivered. As much is received as
        the turns and the connection allow; when the connection fails, what was received after the frames is only a
        part of the next one. */
    method ReceiveMessages(turns: nat) returns (end: Ending, ghost frames: seq<seq<Byte>>, ghost rest: seq<Byte>)
      modifies this, stream.socket
      ensures !isConnected && |stream.socket.incoming| <= |rest| <= |old(stream.socket.incoming)|
      ensures Flow(|old(stream.socket.incoming)| - |stream.socket.incoming|, stream.socket.plan) ==
              ReceiveTurns(old(stream.socket.plan), old(stream.socket.incoming), turns)
      ensures old(stream.socket.incoming) == Frames(frames) + rest
      ensures received == old(received) + NonEmpty(frames)
      ensures forall i | 0 <= i < |frames| :: |frames[i]| < LENGTH_LIMIT
      ensures match end
        case Disconnected => |frames| == turns && stream.socket.incoming == rest
        case Failed => ReadFrame(rest[..|rest| - |stream.socket.incoming|]) == Short
        case Mismatched => ReadFrame(rest[..|rest| - |stream.socket.incoming|]) == BadMagic
    {
      hide Frames, Frame, NonEmpty, LENGTH_LIMIT, ReadFrame, ReceiveAll, FrameAsked, ReceiveTurns, Later;
      frames, rest := [], stream.socket.incoming;
      end := Disconnected;
      ghost var all, goal := rest, ReceiveTurns(stream.socket.plan, rest, turns);
      var i := 0;
      NothingReceived(rest);
      LaterIs(0, goal);
      while i < turns
        invariant i <= turns && |frames| == i && end == Disconnected
        invariant |rest| <= |all| && all == Frames(frames) + rest && stream.socket.incoming == rest
        invariant received == old(received) + NonEmpty(frames)
        invariant forall i | 0 <= i < |frames| :: |frames[i]| < LENGTH_LIMIT
        invariant goal == Later(|all| - |rest|, ReceiveTurns(stream.socket.plan, rest, turns - i))
      {
        var message;
        OneMoreTurn(stream.socket.plan, rest, turns - i);
        ghost var before := |all| - |rest|;
        end, message := ReceiveFrame();
        if end != Disconnected {
          LaterIs(before, Flow(|rest| - |stream.socket.incoming|, stream.socket.plan));
          break;
        }
        LaterTwice(before, |rest| - |stream.socket.incoming|, ReceiveTurns(stream.socket.plan, stream.socket.incoming, turns - i - 1));
        WholeFrameTaken(rest, |rest| - |stream.socket.incoming|);
        OneMoreReceived(frames, message, rest, stream.socket.incoming, old(received));
        frames, rest := frames + [message], stream.socket.incoming;
        if |message| > 0 {
          received := received + [message];
        }
        i := i + 1;
      }
      if end == Disconnected {
        LaterIs(|all| - |rest|, Flow(0, stream.socket.plan));
        NoMoreTurns(stream.socket.plan, rest);
      }
      isConnected := false;
    }

    /** Reads one frame: what the socket brings of it is a whole frame, or has a wrong start, or is a part of one. */
    method ReceiveFrame() returns (end: Ending, message: seq<Byte>)
      modifies stream.socket
      ensures |stream.socket.incoming| <= |old(stream.socket.incoming)|
      ensures var before, done := old(stream.socket.incoming), |old(stream.socket.incoming)| - |stream.socket.incoming|;
        && stream.socket.incoming == before[done..]
        && Flow(done, stream.socket.plan) == ReceiveAll(old(stream.socket.plan), FrameAsked(before), |before|)
        && match ReadFrame(before[..done])
           case Whole(read, rest) => end == Disconnected && message == read && rest == []
           case BadMagic => end == Mismatched && done == 8
           case Short => end == Failed
    {
      hide FromBytes, MAGIC, Transfer, ReceiveAll, ReadFrame, VectorAsked, AskedAfterMagic;
      ghost var before := stream.socket.incoming;
      message := [];
      ReceiveFirst(stream.socket.plan, 8, AskedAfterMagic(before), |before|);
      var magic := stream.Read(8, false);
      AskedIs(before);
      if magic.None? {
        NothingCame(AskedAfterMagic(before), |stream.socket.incoming|);
        PartIsShort(before, |before| - |stream.socket.incoming|);
        return Failed, message;
      }
      if FromBytes(magic.value) != MAGIC {
        WrongStart(before);
        ReceiveNone(stream.socket.plan, |stream.socket.incoming|);
        return Mismatched, message;
      }
      var value := stream.ReadVector();
      ghost var done := |before| - |stream.socket.incoming|;
      AfterMagic(before, done);
      if value.None? {
        PartIsShort(before, done);
        return Failed, message;
      }
      AllIsWhole(before, done);
      end, message := Disconnected, value.value;
    }
  }

  lemma AskedIs(bytes: seq<Byte>)
    ensures |bytes| >= 8 ==>
      AskedAfterMagic(bytes) == if FromBytes(bytes[..8]) != MAGIC then [] else VectorAsked(bytes[8..])
  {
  }

  lemma OneMoreReceived(frames: seq<seq<Byte>>, message: seq<Byte>, rest: seq<Byte>, next: seq<Byte>, before: seq<seq<Byte>>)
    requires rest == Frame(message) + next
    ensures Frames(frames) + rest == Frames(frames + [message]) + next
    ensures before + NonEmpty(frames + [message]) ==
            if |message| > 0 then before + NonEmpty(frames) + [message] else before + NonEmpty(frames)
  {
    hide Frames, Frame, NonEmpty;
    FramesConcat(frames, [message]);
    FramesOfOne(message);
    NonEmptyConcat(frames, [message]);
    NonEmptyOfOne(message);
    Regroup(Frames(frames), Frame(message), next);
  }

  lemma NoMoreTurns(plan: seq<nat>, bytes: seq<Byte>)
    ensures ReceiveTurns(plan, bytes, 0) == Flow(0, plan)
  {
  }

  lemma OneMoreTurn(plan: seq<nat>, bytes: seq<Byte>, turns: nat)
    requires turns > 0
    ensures var one := ReceiveAll(plan, FrameAsked(bytes), |bytes|);
      ReceiveTurns(plan, bytes, turns) ==
      if ReadFrame(bytes[..one.done]).Whole? then Later(one.done, ReceiveTurns(one.plan, bytes[one.done..], turns - 1)) else one
  {
    hide ReceiveAll, FrameAsked, ReadFrame;
  }

  lemma WrongStart(bytes: seq<Byte>)
    requires |bytes| >= 8 && FromBytes(bytes[..8]) != MAGIC
    ensures ReadFrame(bytes[..8]) == BadMagic
  {
    hide FromBytes, MAGIC;
    assert bytes[..8][..8] == bytes[..8];
  }

  lemma AfterMagic(bytes: seq<Byte>, done: nat)
    requires 8 <= done <= |bytes|
    ensures bytes[8..][done - 8..] == bytes[done..]
    ensures |bytes| >= 12 ==> bytes[8..][..4] == bytes[8..12]
    ensures done >= 12 ==> bytes[8..][4..done - 8] == bytes[12..done]
  {
  }

  lemma WholeFrameTaken(bytes: seq<Byte>, done: nat)
    requires done <= |bytes| && ReadFrame(bytes[..done]).Whole? && ReadFrame(bytes[..done]).rest == []
    ensures var message := ReadFrame(bytes[..done]).message;
      |message| < LENGTH_LIMIT && bytes == Frame(message) + bytes[done..]
  {
    hide ReadFrame, Frame, LENGTH_LIMIT;
    WholeIsFrame(bytes[..done]);
    assert bytes == bytes[..done] + bytes[done..];
    var message := ReadFrame(bytes[..done]).message;
    assert Frame(message) + [] == Frame(message);
  }

  lemma FinishTwice(promise: Promise)
    ensures MessagePromises.Apply(MessagePromises.Apply(promise, Finish(true)), Finish(true)) ==
            MessagePromises.Apply(promise, Finish(true))
  {
  }

  lemma FinishIsConsistent()
    ensures forall p: Promise | p.Consistent() :: MessagePromises.Apply(p, Finish(true)).Consistent()
  {
  }

  lemma NothingReceived(rest: seq<Byte>)
    ensures Frames([]) + rest == rest && NonEmpty([]) == []
  {
  }

  lemma NothingTaken(queue: Queue<MessagePromise>)
    ensures Left(queue, []) == queue
  {
  }

  lemma PartOfFirst(head: seq<Byte>, tail: seq<Byte>, done: nat)
    requires done <= |head|
    ensures (head + tail)[..done] == head[..done]
  {
  }

  lemma PartOfSecond(head: seq<Byte>, tail: seq<Byte>, done: nat)
    requires done <= |tail|
    ensures (head + tail)[..|head| + done] == head + tail[..done]
  {
  }

  lemma {:induction false} TakenAt(queue: Queue<MessagePromise>, turns: seq<Calls>, i: nat)
    requires i < |turns|
    ensures Got(Left(queue, turns[..i]), turns[i]) == (Taken(queue, turns)[i], Left(queue, turns[..i + 1]))
    decreases i
  {
    hide Got;
    if i > 0 {
      TakenAt(Got(queue, turns[0]).1, turns[1..], i - 1);
      assert turns[1..][..i] == turns[..i + 1][1..];
      assert turns[1..][..i - 1] == turns[..i][1..];
    } else {
      assert turns[..1][1..] == [];
    }
  }
}
