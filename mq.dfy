/** The 48-byte message type of the relay connection and the bookkeeping of
    the broker that sends and fans out those messages. Sockets, threads,
    locks and sleeps are not part of this model: the socket is an opaque
    handle, and what the transport does is an input. */
module Broker {
  import opened Wrappers
  import opened Bytes

  /** A message always holds exactly one frame. */
  datatype Message = Message(data: Frame)

  /** The `ValueError` the constructor raises, with the length it was given. */
  datatype MessageError = WrongLength(length: nat)

  /** `Message(data)`: no data gives 48 zero bytes; data of any length
      other than 48 is rejected; otherwise the data is kept as it is. */
  function NewMessage(data: Option<seq<byte>>): (r: Result<Message, MessageError>)
    ensures data.None? ==> r == Ok(Message(Zeros()))
    ensures data.Some? ==> (r.Ok? <==> |data.value| == FrameSize)
    ensures data.Some? && r.Ok? ==> r.value.data == data.value
    ensures data.Some? && r.Err? ==> r.error == WrongLength(|data.value|)
  {
    match data
    case None => Ok(Message(Zeros()))
    case Some(d) => if |d| != FrameSize then Err(WrongLength(|d|)) else Ok(Message(d))
  }

  /** `Message.from_bytes`: the constructor applied to the bytes. */
  function FromBytes(data: seq<byte>): (r: Result<Message, MessageError>)
    ensures r.Ok? <==> |data| == FrameSize
    ensures r.Ok? ==> r.value.data == data
    ensures r.Err? ==> r.error == WrongLength(|data|)
  {
    NewMessage(Some(data))
  }

  /** `bytes(message)` is an inverse of `from_bytes`, and `from_bytes` accepts nothing else. */
  lemma MessageRoundTrip(m: Message, data: seq<byte>)
    ensures FromBytes(m.data) == Ok(m)
    ensures FromBytes(data).Ok? ==> FromBytes(data).value.data == data && |data| == FrameSize
  {
  }

  /** `is_status`: the frame starts with 187, 91. */
  predicate IsStatus(m: Message): (status: bool)
    ensures status <==> m.data[..2] == [187, 91]
  {
    m.data[0] == 187 && m.data[1] == 91
  }

  /** The empty message is not a status message. */
  lemma EmptyIsNotStatus()
    ensures NewMessage(None).Ok? && !IsStatus(NewMessage(None).value)
  {
  }

  /** The handlers among `handlers` whose call raises, in call order. */
  function Failing(handlers: seq<nat>, raising: set<nat>): (failed: seq<nat>)
    ensures |failed| <= |handlers|
    ensures forall h :: h in failed ==> h in handlers && h in raising
  {
    if handlers == [] then []
    else Failing(handlers[..|handlers| - 1], raising)
         + (if handlers[|handlers| - 1] in raising then [handlers[|handlers| - 1]] else [])
  }

  /** Every raising handler is reported. */
  lemma {:induction false} FailingComplete(handlers: seq<nat>, raising: set<nat>, k: nat)
    requires k < |handlers| && handlers[k] in raising
    ensures handlers[k] in Failing(handlers, raising)
  {
    if k < |handlers| - 1 {
      FailingComplete(handlers[..|handlers| - 1], raising, k);
    }
  }

  predicate NoDuplicates(s: seq<nat>)
  {
    forall i, j :: 0 <= i < j < |s| ==> s[i] != s[j]
  }

  /** `MessageBroker`: the connection flags, the socket handle, the handler
      table keyed by `id(handler)` in insertion order, whether `stop` has
      been called, and the frames written to the socket so far. */
  class MessageBroker {
    const host: string
    const port: int
    var socket: Option<nat>
    var connected: bool
    var running: bool
    var handlers: seq<nat>
    var stopped: bool
    var wire: seq<Frame>

    /** No handler is registered twice, and a connected broker is running
        and has a socket. */
    ghost predicate Valid()
      reads this
    {
      NoDuplicates(handlers) && (connected ==> running && socket.Some?)
    }

    constructor (host: string, port: int)
      ensures Valid() && this.host == host && this.port == port
      ensures socket == None && !connected && !running && handlers == [] && !stopped && wire == []
    {
      this.host := host;
      this.port := port;
      socket := None;
      connected := false;
      running := false;
      handlers := [];
      stopped := false;
      wire := [];
    }

    /** `add_message_handler`: a dictionary assignment keyed by identity, so
        a handler that is already registered keeps its single entry and place. */
    method AddMessageHandler(handler: nat)
      requires Valid()
      modifies this
      ensures Valid()
      ensures handlers == if handler in old(handlers) then old(handlers) else old(handlers) + [handler]
      ensures socket == old(socket) && connected == old(connected) && running == old(running)
      ensures stopped == old(stopped) && wire == old(wire)
    {
      if handler !in handlers {
        handlers := handlers + [handler];
      }
    }

    /** `connect` when its attempt succeeds: a broker that has been stopped
        does not try and answers false; one that is already connected is
        left alone; otherwise the fresh socket is kept and both flags are
        raised. The result says whether the broker is connected. */
    method OpenConnection(handle: nat) returns (ok: bool)
      requires Valid()
      modifies this
      ensures Valid()
      ensures ok <==> !old(stopped)
      ensures old(stopped) ==> socket == old(socket) && connected == old(connected) && running == old(running)
      ensures !old(stopped) ==> connected && running
      ensures !old(stopped) && old(connected) ==> socket == old(socket) && running == old(running)
      ensures !old(stopped) && !old(connected) ==> socket == Some(handle)
      ensures handlers == old(handlers) && stopped == old(stopped) && wire == old(wire)
    {
      if stopped {
        return false;
      }
      if connected {
        return true;
      }
      socket := Some(handle);
      connected := true;
      running := true;
      return true;
    }

    /** `disconnect`: both flags lowered and the socket dropped. */
    method Disconnect()
      requires Valid()
      modifies this
      ensures Valid() && !connected && !running && socket == None
      ensures handlers == old(handlers) && stopped == old(stopped) && wire == old(wire)
    {
      connected := false;
      running := false;
      if socket.Some? {
        socket := None;
      }
    }

    /** `send_message` and `_send_message_internal`: nothing is written
        unless the broker is connected and has a socket; `transportOk` says
        whether `sendall` succeeds. The result says whether the frame went out. */
    method SendMessage(message: Message, transportOk: bool) returns (sent: bool)
      requires Valid()
      modifies this
      ensures Valid()
      ensures sent <==> old(connected) && old(socket).Some? && transportOk
      ensures sent <==> old(connected) && transportOk
      ensures wire == if sent then old(wire) + [message.data] else old(wire)
      ensures socket == old(socket) && connected == old(connected) && running == old(running)
      ensures handlers == old(handlers) && stopped == old(stopped)
    {
      if !connected {
        return false;
      }
      sent := SendMessageInternal(message, transportOk);
    }

    method SendMessageInternal(message: Message, transportOk: bool) returns (sent: bool)
      requires Valid()
      modifies this
      ensures Valid()
      ensures sent <==> old(connected) && old(socket).Some? && transportOk
      ensures wire == if sent then old(wire) + [message.data] else old(wire)
      ensures socket == old(socket) && connected == old(connected) && running == old(running)
      ensures handlers == old(handlers) && stopped == old(stopped)
    {
      if socket.None? || !connected {
        return false;
      }
      if !transportOk {
        return false;
      }
      wire := wire + [message.data];
      return true;
    }

    /** `on_receive`: every registered handler is called, in registration
        order, whatever the earlier ones raised; `raising` are the handlers
        whose call raises, and `failed` the errors that were logged. */
    method OnReceive(message: Message, raising: set<nat>) returns (invoked: seq<nat>, failed: seq<nat>)
      ensures invoked == handlers
      ensures failed == Failing(handlers, raising)
    {
      invoked := [];
      failed := [];
      if handlers == [] {
        return;
      }
      var i := 0;
      while i < |handlers|
        invariant 0 <= i <= |handlers|
        invariant invoked == handlers[..i]
        invariant failed == Failing(handlers[..i], raising)
      {
        var handler := handlers[i];
        invoked := invoked + [handler];
        if handler in raising {
          failed := failed + [handler];
        }
        assert handlers[..i + 1][..i] == handlers[..i];
        i := i + 1;
      }
      assert handlers[..i] == handlers;
    }

    /** `stop`: the handler table emptied, the connection closed, and the
        stop event set. */
    method Stop()
      requires Valid()
      modifies this
      ensures Valid() && handlers == [] && stopped
      ensures !connected && !running && socket == None && wire == old(wire)
    {
      handlers := [];
      Disconnect();
      stopped := true;
    }
  }
}
