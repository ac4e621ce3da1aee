/** Sockets that transfer as much as they like, the stream that hides it, and the frames of messages. */
module SocketStreams {
  import opened Wrappers
  import opened Sequences
  import opened Bytes

  const MAGIC: nat := 0x0123456789ABCDEF
  const LENGTH_LIMIT: nat := Pow256(4)

  /** A message on the wire; the length is narrowed to 32 bits. */
  function Frame(message: seq<Byte>): (frame: seq<Byte>)
    ensures |frame| == 12 + |message|
  {
    ToBytes(MAGIC, 8) + ToBytes(|message|, 4) + message
  }

  /** What reading one frame can find. */
  datatype Reading = Whole(message: seq<Byte>, rest: seq<Byte>) | Short | BadMagic

  function ReadFrame(bytes: seq<Byte>): Reading {
    if |bytes| < 8 then Short
    else if FromBytes(bytes[..8]) != MAGIC then BadMagic
    else if |bytes| < 12 then Short
    else
      var length := FromBytes(bytes[8..12]);
      if |bytes| - 12 < length then Short else Whole(bytes[12..12 + length], bytes[12 + length..])
  }

  lemma FrameParts(message: seq<Byte>)
    ensures Frame(message) == ToBytes(MAGIC, 8) + (ToBytes(|message|, 4) + message)
  {
    hide ToBytes, MAGIC;
  }

  lemma MagicRoundTrip()
    ensures FromBytes(ToBytes(MAGIC, 8)) == MAGIC
  {
    hide FromBytes, ToBytes, Pow256;
    NumberRoundTrip(MAGIC, 8);
    Pow256OfEight();
  }

  lemma MagicIs(bytes: seq<Byte>)
    requires |bytes| == 8
    ensures FromBytes(bytes) == MAGIC <==> bytes == ToBytes(MAGIC, 8)
  {
    MagicRoundTrip();
    BytesRoundTrip(bytes);
  }

  /** A frame is read as its message, leaving what follows, exactly when the length fits its field. */
  lemma FrameRoundTrip(message: seq<Byte>, rest: seq<Byte>)
    ensures ReadFrame(Frame(message) + rest) == Whole(message, rest) <==> |message| < LENGTH_LIMIT
  {
    hide Frame, MAGIC, LENGTH_LIMIT, ToBytes, FromBytes;
    FrameHead(message, rest);
    var n := |message|;
    NumberRoundTrip(n, 4);
    FitsWhole(n, Pow256(4));
    LimitIs();
    assert (message + rest)[..n] == message && (message + rest)[n..] == rest;
  }

  lemma FitsWhole(n: nat, p: nat)
    requires p > 0
    ensures n % p == n <==> n < p
    ensures n % p <= n
  {
  }

  lemma LimitIs()
    ensures LENGTH_LIMIT == Pow256(4)
  {
  }

  lemma FrameHead(message: seq<Byte>, rest: seq<Byte>)
    ensures var bytes := Frame(message) + rest;
      && FromBytes(bytes[..8]) == MAGIC && bytes[8..12] == ToBytes(|message|, 4)
      && forall k | 12 <= k <= |bytes| :: bytes[12..k] == (message + rest)[..k - 12] && bytes[k..] == (message + rest)[k - 12..]
  {
    hide FromBytes, ToBytes, MAGIC;
    var bytes := Frame(message) + rest;
    MagicRoundTrip();
    assert bytes[..8] == ToBytes(MAGIC, 8);
    assert bytes[12..] == message + rest;
    forall k | 12 <= k <= |bytes|
      ensures bytes[12..k] == (message + rest)[..k - 12] && bytes[k..] == (message + rest)[k - 12..]
    {
      assert bytes[12..k] == bytes[12..][..k - 12];
      assert bytes[k..] == bytes[12..][k - 12..];
    }
  }

  /** Bytes are read as a message only when they start with the frame of that message. */
  lemma WholeIsFrame(bytes: seq<Byte>)
    ensures match ReadFrame(bytes)
      case Whole(message, rest) => |message| < LENGTH_LIMIT && bytes == Frame(message) + rest
      case _ => true
  {
    hide FromBytes, ToBytes, MAGIC, LENGTH_LIMIT;
    LimitIs();
    if ReadFrame(bytes).Whole? {
      MagicIs(bytes[..8]);
      BytesRoundTrip(bytes[8..12]);
      assert bytes == bytes[..8] + bytes[8..12] + ReadFrame(bytes).message + ReadFrame(bytes).rest;
    }
  }

  /** A part of a frame is never taken for a message, nor for something else. */
  lemma PartOfFrameIsShort(message: seq<Byte>, part: nat)
    requires |message| < LENGTH_LIMIT && part < |Frame(message)|
    ensures ReadFrame(Frame(message)[..part]) == Short
  {
    hide FromBytes, ToBytes, MAGIC, LENGTH_LIMIT, Frame;
    var frame := Frame(message);
    FrameHead(message, []);
    assert frame + [] == frame;
    LimitIs();
    NumberRoundTrip(|message|, 4);
    FitsWhole(|message|, Pow256(4));
    if part >= 8 {
      SliceOfPrefix(frame, part, 0, 8);
    }
    if part >= 12 {
      SliceOfPrefix(frame, part, 8, 12);
    }
  }

  /** The bytes of a frame: a fixed number and the length in 32 bits, both with their least significant byte first. */
  lemma FrameBytes(message: seq<Byte>)
    requires |message| < 0x1_0000_0000
    ensures var n := |message|;
      Frame(message) ==
      [0xEF, 0xCD, 0xAB, 0x89, 0x67, 0x45, 0x23, 0x01] + [n % 0x100, n / 0x100 % 0x100, n / 0x1_0000 % 0x100, n / 0x100_0000] + message
  {
    MagicBytes();
    LengthBytes(|message|);
    hide ToBytes, MAGIC;
  }

  lemma OneMoreByte(n: nat, low: Byte, width: nat, bytes: seq<Byte>)
    requires ToBytes(n, width) == bytes
    ensures ToBytes(n * 0x100 + low, width + 1) == [low] + bytes
  {
    var longer := n * 0x100 + low;
    assert longer / 0x100 == n && longer % 0x100 == low;
    assert ToBytes(longer, width + 1) == [longer % 0x100] + ToBytes(longer / 0x100, width);
  }

  lemma MagicBytes()
    ensures ToBytes(MAGIC, 8) == [0xEF, 0xCD, 0xAB, 0x89, 0x67, 0x45, 0x23, 0x01]
  {
    HighBytes();
    hide ToBytes;
    OneMoreByte(0x01234567, 0x89, 4, [0x67, 0x45, 0x23, 0x01]);
    OneMoreByte(0x0123456789, 0xAB, 5, [0x89, 0x67, 0x45, 0x23, 0x01]);
    OneMoreByte(0x0123456789AB, 0xCD, 6, [0xAB, 0x89, 0x67, 0x45, 0x23, 0x01]);
    OneMoreByte(0x0123456789ABCD, 0xEF, 7, [0xCD, 0xAB, 0x89, 0x67, 0x45, 0x23, 0x01]);
  }

  lemma HighBytes()
    ensures ToBytes(0x01234567, 4) == [0x67, 0x45, 0x23, 0x01]
  {
    assert ToBytes(0, 0) == [];
    hide ToBytes;
    OneMoreByte(0, 0x01, 0, []);
    OneMoreByte(0x01, 0x23, 1, [0x01]);
    OneMoreByte(0x0123, 0x45, 2, [0x23, 0x01]);
    OneMoreByte(0x012345, 0x67, 3, [0x45, 0x23, 0x01]);
  }

  lemma SmallPowers()
    ensures Pow256(0) == 1 && Pow256(1) == 0x100 && Pow256(2) == 0x1_0000 && Pow256(3) == 0x100_0000
  {
  }

  lemma LengthBytes(n: nat)
    requires n < 0x1_0000_0000
    ensures ToBytes(n, 4) == [n % 0x100, n / 0x100 % 0x100, n / 0x1_0000 % 0x100, n / 0x100_0000]
  {
    hide ToBytes, Pow256;
    SmallPowers();
    ByteOf(n, 4, 0);
    ByteOf(n, 4, 1);
    ByteOf(n, 4, 2);
    ByteOf(n, 4, 3);
    assert n / 0x100_0000 < 0x100;
  }

  function Frames(messages: seq<seq<Byte>>): seq<Byte> {
    if messages == [] then [] else Frame(messages[0]) + Frames(messages[1..])
  }

  /** An empty message is a heartbeat, which nobody is told about. */
  function Kept(message: seq<Byte>): seq<seq<Byte>> {
    if message == [] then [] else [message]
  }

  function NonEmpty(messages: seq<seq<Byte>>): seq<seq<Byte>> {
    if messages == [] then [] else Kept(messages[0]) + NonEmpty(messages[1..])
  }

  lemma {:induction false} FramesConcat(a: seq<seq<Byte>>, b: seq<seq<Byte>>)
    ensures Frames(a + b) == Frames(a) + Frames(b)
  {
    hide Frame;
    if a == [] {
      assert a + b == b;
    } else {
      FramesConcat(a[1..], b);
      assert (a + b)[0] == a[0] && (a + b)[1..] == a[1..] + b;
      Regroup(Frame(a[0]), Frames(a[1..]), Frames(b));
    }
  }

  lemma FramesOfOne(message: seq<Byte>)
    ensures Frames([message]) == Frame(message)
  {
    hide Frame;
    assert [message][1..] == [];
  }

  lemma {:induction false} NonEmptyConcat(a: seq<seq<Byte>>, b: seq<seq<Byte>>)
    ensures NonEmpty(a + b) == NonEmpty(a) + NonEmpty(b)
  {
    hide Kept;
    if a == [] {
      assert a + b == b;
    } else {
      NonEmptyConcat(a[1..], b);
      assert (a + b)[0] == a[0] && (a + b)[1..] == a[1..] + b;
      Regroup(Kept(a[0]), NonEmpty(a[1..]), NonEmpty(b));
    }
  }

  lemma NonEmptyOfOne(message: seq<Byte>)
    ensures NonEmpty([message]) == Kept(message)
  {
    hide Kept;
    assert [message][1..] == [];
  }

  // ---------------------------------------------------------------- transfers

  /** How many bytes were transferred, and the plan that is left. */
  datatype Flow = Flow(done: nat, plan: seq<nat>)

  /** With so many bytes transferred before. */
  function Later(done: nat, flow: Flow): Flow {
    Flow(done + flow.done, flow.plan)
  }

  lemma LaterIs(done: nat, flow: Flow)
    ensures Later(done, flow) == Flow(done + flow.done, flow.plan)
  {
  }

  lemma LaterTwice(a: nat, b: nat, flow: Flow)
    ensures Later(a, Later(b, flow)) == Later(a + b, flow)
  {
  }

  function Least(a: nat, b: nat): nat {
    if a < b then a else b
  }

  /** Calls that transfer so many bytes in all, each as many as the plan says, of those available. */
  function Transfer(plan: seq<nat>, size: nat, available: nat): (flow: Flow)
    ensures flow.done <= size && flow.done <= available && (flow.done < size ==> flow.plan == [])
  {
    if size == 0 || plan == [] then Flow(0, plan)
    else
      var n := Least(plan[0], Least(size, available));
      var more := Transfer(plan[1..], size - n, available - n);
      Flow(n + more.done, more.plan)
  }

  /** Buffers of these sizes, one after the other. */
  function SendAll(plan: seq<nat>, sizes: seq<nat>): Flow
    decreases |sizes|
  {
    if sizes == [] then Flow(0, plan)
    else
      var one := Transfer(plan, sizes[0], sizes[0]);
      var more := SendAll(one.plan, sizes[1..]);
      Flow(one.done + more.done, more.plan)
  }

  function ReceiveAll(plan: seq<nat>, sizes: seq<nat>, available: nat): (flow: Flow)
    ensures flow.done <= available
    decreases |sizes|
  {
    if sizes == [] then Flow(0, plan)
    else
      var one := Transfer(plan, sizes[0], available);
      var more := ReceiveAll(one.plan, sizes[1..], available - one.done);
      Flow(one.done + more.done, more.plan)
  }

  /** The sizes of the fields of a frame. */
  function FieldSizes(message: seq<Byte>): seq<nat> {
    [8, 4, |message|]
  }

  function AllSizes(messages: seq<seq<Byte>>): seq<nat> {
    if messages == [] then [] else AllSizes(messages[..|messages| - 1]) + FieldSizes(messages[|messages| - 1])
  }

  /** The sizes of the fields that a reader asks for, going by the bytes that come. */
  function VectorAsked(bytes: seq<Byte>): seq<nat> {
    [4] + AskedAfterLength(bytes)
  }

  function AskedAfterLength(bytes: seq<Byte>): seq<nat> {
    if |bytes| < 4 then [] else [FromBytes(bytes[..4])]
  }

  function FrameAsked(bytes: seq<Byte>): seq<nat> {
    [8] + AskedAfterMagic(bytes)
  }

  function AskedAfterMagic(bytes: seq<Byte>): seq<nat> {
    if |bytes| < 8 || FromBytes(bytes[..8]) != MAGIC then [] else VectorAsked(bytes[8..])
  }

  /** All that so many turns of a receiver read: whole frames, until one does not come as a whole. */
  function ReceiveTurns(plan: seq<nat>, bytes: seq<Byte>, turns: nat): (flow: Flow)
    ensures flow.done <= |bytes|
    decreases turns
  {
    if turns == 0 then Flow(0, plan)
    else
      var one := ReceiveAll(plan, FrameAsked(bytes), |bytes|);
      if !ReadFrame(bytes[..one.done]).Whole? then one
      else
        var more := ReceiveTurns(one.plan, bytes[one.done..], turns - 1);
        Flow(one.done + more.done, more.plan)
  }

  lemma {:induction false} SendConcat(plan: seq<nat>, a: seq<nat>, b: seq<nat>)
    ensures var first := SendAll(plan, a); var second := SendAll(first.plan, b);
      SendAll(plan, a + b) == Flow(first.done + second.done, second.plan)
    decreases |a|
  {
    hide Transfer;
    if a == [] {
      assert a + b == b;
    } else {
      assert (a + b)[1..] == a[1..] + b;
      SendConcat(Transfer(plan, a[0], a[0]).plan, a[1..], b);
    }
  }

  lemma {:induction false} NothingSent(sizes: seq<nat>)
    ensures SendAll([], sizes) == Flow(0, [])
  {
    if sizes != [] {
      NothingSent(sizes[1..]);
    }
  }

  lemma {:induction false} NothingCame(sizes: seq<nat>, available: nat)
    ensures ReceiveAll([], sizes, available) == Flow(0, [])
  {
    if sizes != [] {
      NothingCame(sizes[1..], available);
    }
  }

  lemma SendTwo(plan: seq<nat>, a: nat, b: nat)
    ensures var first := Transfer(plan, a, a); var second := Transfer(first.plan, b, b);
      SendAll(plan, [a, b]) == Flow(first.done + second.done, second.plan)
  {
    SendFirst(plan, a, [b]);
    SendFirst(Transfer(plan, a, a).plan, b, []);
    assert [a] + [b] == [a, b] && [b] + [] == [b];
  }

  lemma SendFirst(plan: seq<nat>, a: nat, rest: seq<nat>)
    ensures var first := Transfer(plan, a, a); var second := SendAll(first.plan, rest);
      SendAll(plan, [a] + rest) == Flow(first.done + second.done, second.plan)
  {
    hide Transfer;
    assert ([a] + rest)[1..] == rest;
  }

  lemma ReceiveFirst(plan: seq<nat>, a: nat, rest: seq<nat>, available: nat)
    ensures var first := Transfer(plan, a, available); var second := ReceiveAll(first.plan, rest, available - first.done);
      ReceiveAll(plan, [a] + rest, available) == Flow(first.done + second.done, second.plan)
  {
    hide Transfer;
    assert ([a] + rest)[1..] == rest;
  }

  lemma ReceiveOne(plan: seq<nat>, size: nat, available: nat)
    ensures ReceiveAll(plan, [size], available) == Transfer(plan, size, available)
  {
    hide Transfer;
    var one := Transfer(plan, size, available);
    ReceiveFirst(plan, size, [], available);
    assert [size] + [] == [size];
    ReceiveNone(one.plan, available - one.done);
  }

  lemma AskedLength(bytes: seq<Byte>)
    ensures |bytes| >= 4 ==> AskedAfterLength(bytes) == [FromBytes(bytes[..4])]
  {
  }

  lemma ReceiveNone(plan: seq<nat>, available: nat)
    ensures ReceiveAll(plan, [], available) == Flow(0, plan)
  {
  }

  // ---------------------------------------------------------------- sockets

  /** A connected socket. The plan tells how many bytes each of the next calls transfers at most, and ends
      when the connection fails. */
  class Socket {
    var sent: seq<Byte>
    var incoming: seq<Byte>
    var plan: seq<nat>

    constructor (incoming: seq<Byte>, plan: seq<nat>)
      ensures sent == [] && this.incoming == incoming && this.plan == plan
    {
      sent, this.incoming, this.plan := [], incoming, plan;
    }

    method Send(buffer: seq<Byte>) returns (count: Option<nat>)
      modifies this
      ensures incoming == old(incoming)
      ensures count.None? <==> old(plan) == []
      ensures match count
        case None => sent == old(sent) && plan == []
        case Some(n) => n == Least(old(plan)[0], |buffer|) && sent == old(sent) + buffer[..n] && plan == old(plan)[1..]
    {
      if plan == [] {
        return None;
      }
      var n := if plan[0] < |buffer| then plan[0] else |buffer|;
      sent, plan := sent + buffer[..n], plan[1..];
      count := Some(n);
    }

    method Receive(size: nat) returns (bytes: Option<seq<Byte>>)
      modifies this
      ensures sent == old(sent)
      ensures bytes.None? <==> old(plan) == []
      ensures match bytes
        case None => incoming == old(incoming) && plan == []
        case Some(b) =>
          && |b| == Least(old(plan)[0], Least(size, |old(incoming)|))
          && old(incoming) == b + incoming && plan == old(plan)[1..]
    {
      if plan == [] {
        return None;
      }
      var n := if plan[0] < size then plan[0] else size;
      n := if n < |incoming| then n else |incoming|;
      bytes := Some(incoming[..n]);
      incoming, plan := incoming[n..], plan[1..];
    }
  }

  class SocketStream {
    const socket: Socket

    constructor (socket: Socket)
      ensures this.socket == socket
    {
      this.socket := socket;
    }

    /** Sends the whole buffer, however the socket splits it, unless the connection fails before that; then all that
        was transferred is a proper part of it. */
    method Write(buffer: seq<Byte>) returns (ok: bool, ghost done: nat)
      modifies socket
      ensures Flow(done, socket.plan) == Transfer(old(socket.plan), |buffer|, |buffer|)
      ensures socket.sent == old(socket.sent) + buffer[..done]
      ensures (ok <==> done == |buffer|) && (!ok ==> socket.plan == [])
      ensures socket.incoming == old(socket.incoming)
    {
      hide Transfer;
      var bytesSent: nat := 0;
      ghost var goal := Transfer(socket.plan, |buffer|, |buffer|);
      while bytesSent < |buffer|
        invariant bytesSent <= |buffer| && socket.sent == old(socket.sent) + buffer[..bytesSent]
        invariant socket.incoming == old(socket.incoming)
        invariant var more := Transfer(socket.plan, |buffer| - bytesSent, |buffer| - bytesSent);
          goal == Flow(bytesSent + more.done, more.plan)
        decreases |socket.plan|
      {
        OneTransfer(socket.plan, |buffer| - bytesSent, |buffer| - bytesSent);
        var count := socket.Send(buffer[bytesSent..]);
        if count.None? {
          return false, bytesSent;
        }
        assert buffer[..bytesSent] + buffer[bytesSent..][..count.value] == buffer[..bytesSent + count.value];
        bytesSent := bytesSent + count.value;
      }
      NoTransfer(socket.plan, 0);
      ok, done := true, |buffer|;
    }

    /** Receives as many bytes as asked for, unless the connection fails before that; then the bytes received so far
        are lost. A partial read takes what one transfer brings. */
    method Read(size: nat, partial: bool) returns (bytes: Option<seq<Byte>>)
      modifies socket
      ensures socket.sent == old(socket.sent) && |socket.incoming| <= |old(socket.incoming)|
      ensures var done := |old(socket.incoming)| - |socket.incoming|;
        && socket.incoming == old(socket.incoming)[done..]
        && (bytes.Some? ==> bytes.value == old(socket.incoming)[..done])
        && (!partial ==> Flow(done, socket.plan) == Transfer(old(socket.plan), size, |old(socket.incoming)|))
        && (!partial ==> (bytes.Some? <==> done == size))
        && (partial ==> (bytes.None? <==> size > 0 && old(socket.plan) == []) && done <= size)
    {
      hide Transfer, Later, Least;
      var received := [];
      ghost var before := socket.incoming;
      ghost var goal := Transfer(socket.plan, size, |before|);
      assert before[0..] == before && before[..0] == [];
      LaterIs(0, goal);
      while |received| < size
        invariant |received| <= size && |received| <= |before| && socket.sent == old(socket.sent)
        invariant received == before[..|received|] && socket.incoming == before[|received|..]
        invariant goal == Later(|received|, Transfer(socket.plan, size - |received|, |socket.incoming|))
        invariant partial ==> received == [] && socket.plan == old(socket.plan)
        decreases |socket.plan|
      {
        ghost var plan, ahead := socket.plan, socket.incoming;
        var more := socket.Receive(size - |received|);
        if more.None? {
          NothingMore(size - |received|, |ahead|);
          LaterIs(|received|, Flow(0, []));
          return None;
        }
        ReceiveMore(before, |received|, size, plan, more.value, socket.incoming);
        received := received + more.value;
        if partial {
          break;
        }
      }
      NoTransfer(socket.plan, |socket.incoming|);
      LaterIs(|received|, Transfer(socket.plan, size - |received|, |socket.incoming|));
      bytes := Some(received);
    }

    /** Writes a number that selects the bytes of its width. */
    method WriteNumber(n: nat, width: nat) returns (ok: bool, ghost done: nat)
      modifies socket
      ensures Flow(done, socket.plan) == Transfer(old(socket.plan), width, width)
      ensures socket.sent == old(socket.sent) + ToBytes(n, width)[..done]
      ensures (ok <==> done == width) && (!ok ==> socket.plan == [])
      ensures socket.incoming == old(socket.incoming)
    {
      ok, done := Write(ToBytes(n, width));
    }

    /** Writes the length and then the bytes, unless the connection fails. */
    method WriteVector(value: seq<Byte>) returns (ok: bool, ghost done: nat)
      modifies socket
      ensures Flow(done, socket.plan) == SendAll(old(socket.plan), [4, |value|])
      ensures done <= 4 + |value| && socket.sent == old(socket.sent) + (ToBytes(|value|, 4) + value)[..done]
      ensures (ok <==> done == 4 + |value|) && (!ok ==> socket.plan == [])
      ensures socket.incoming == old(socket.incoming)
    {
      hide ToBytes, SendAll;
      SendTwo(socket.plan, 4, |value|);
      ok, done := WriteNumber(|value|, 4);
      ghost var head := ToBytes(|value|, 4);
      assert (head + value)[..done] == head[..done];
      if !ok || value == [] {
        return;
      }
      ghost var more;
      ok, more := Write(value);
      assert head[..4] == head;
      assert head + value[..more] == (head + value)[..4 + more];
      done := 4 + more;
    }

    /** Reads a length and then as many bytes, unless the connection fails. */
    method ReadVector() returns (value: Option<seq<Byte>>)
      modifies socket
      ensures socket.sent == old(socket.sent) && |socket.incoming| <= |old(socket.incoming)|
      ensures var before, done := old(socket.incoming), |old(socket.incoming)| - |socket.incoming|;
        && socket.incoming == before[done..]
        && Flow(done, socket.plan) == ReceiveAll(old(socket.plan), VectorAsked(before), |before|)
        && (value.Some? ==> done >= 4 && |value.value| == FromBytes(before[..4]) && value.value == before[4..done])
        && (value.None? ==> socket.plan == [] && (done < 4 || done - 4 < FromBytes(before[..4])))
    {
      hide FromBytes, Transfer, ReceiveAll, AskedAfterLength;
      ghost var before := socket.incoming;
      ReceiveFirst(socket.plan, 4, AskedAfterLength(before), |before|);
      var head := Read(4, false);
      if head.None? {
        NothingCame(AskedAfterLength(before), |socket.incoming|);
        return None;
      }
      var length := FromBytes(head.value);
      AskedLength(before);
      ghost var middle := socket.incoming;
      ReceiveOne(socket.plan, length, |middle|);
      if length == 0 {
        NoTransfer(socket.plan, |middle|);
        return Some([]);
      }
      value := Read(length, false);
      SliceOfSuffix(before, 4, 0, |middle| - |socket.incoming|);
    }
  }

  lemma OneTransfer(plan: seq<nat>, size: nat, available: nat)
    requires size > 0
    ensures plan == [] ==> Transfer(plan, size, available) == Flow(0, [])
    ensures plan != [] ==>
      var n := Least(plan[0], Least(size, available));
      Transfer(plan, size, available) == Later(n, Transfer(plan[1..], size - n, available - n))
  {
  }

  lemma NothingMore(size: nat, available: nat)
    ensures Transfer([], size, available) == Flow(0, [])
  {
  }

  /** One more call receives what the plan gives it; what is left to receive follows. */
  lemma ReceiveMore(bytes: seq<Byte>, taken: nat, size: nat, plan: seq<nat>, more: seq<Byte>, rest: seq<Byte>)
    requires taken <= |bytes| && taken < size && plan != [] && bytes[taken..] == more + rest
    requires |more| == Least(plan[0], Least(size - taken, |bytes| - taken))
    ensures taken + |more| <= size && taken + |more| <= |bytes|
    ensures bytes[..taken] + more == bytes[..taken + |more|] && rest == bytes[taken + |more|..]
    ensures Later(taken, Transfer(plan, size - taken, |bytes| - taken)) ==
            Later(taken + |more|, Transfer(plan[1..], size - taken - |more|, |rest|))
  {
    hide Transfer, Later;
    TakeMore(bytes, taken, more, rest);
    OneTransfer(plan, size - taken, |bytes| - taken);
    LaterTwice(taken, |more|, Transfer(plan[1..], size - taken - |more|, |rest|));
  }

  lemma TakeMore(bytes: seq<Byte>, taken: nat, more: seq<Byte>, rest: seq<Byte>)
    requires taken <= |bytes| && bytes[taken..] == more + rest
    ensures taken + |more| <= |bytes|
    ensures bytes[..taken] + more == bytes[..taken + |more|] && rest == bytes[taken + |more|..]
  {
    assert bytes == bytes[..taken] + (more + rest);
  }

  lemma NoTransfer(plan: seq<nat>, available: nat)
    ensures Transfer(plan, 0, available) == Flow(0, plan)
  {
  }
}
