/** The manager: the device map keyed by routing identifier, the routing of
    incoming status frames to their device, the notifications of the
    entity listener, and the hand-over of commands to the broker. */
module Routing {
  import opened Wrappers
  import opened Bytes
  import opened Text
  import Mapper
  import opened Commands
  import opened Devices
  import opened Broker

  // ---------------------------------------------------------------------
  // Scrubbing a received frame
  // ---------------------------------------------------------------------

  /** The bytes of a status frame that differ between otherwise equal
      reports: 2, 3 and 4, and the two trailer bytes. */
  predicate Volatile(i: int)
  {
    i == 2 || i == 3 || i == 4 || i == 46 || i == 47
  }

  /** The received frame with bytes 2, 3, 4, 47 (`data[-1]`) and 46 (`data[-2]`) set to 0. */
  function Scrub(frame: Frame): (scrubbed: Frame)
  {
    frame[2 := 0][3 := 0][4 := 0][47 := 0][46 := 0]
  }

  /** The scrubbed frame is zero at the volatile bytes and the received
      frame everywhere else. */
  lemma ScrubAt(frame: Frame, i: nat)
    requires i < FrameSize
    ensures Scrub(frame)[i] == if Volatile(i) then 0 else frame[i]
  {
  }

  /** Two frames scrub to the same frame exactly when they agree outside
      the volatile bytes. */
  lemma ScrubEqualIff(f1: Frame, f2: Frame)
    ensures Scrub(f1) == Scrub(f2) <==> forall i :: 0 <= i < FrameSize && !Volatile(i) ==> f1[i] == f2[i]
  {
    if forall i :: 0 <= i < FrameSize && !Volatile(i) ==> f1[i] == f2[i] {
      forall i | 0 <= i < FrameSize ensures Scrub(f1)[i] == Scrub(f2)[i] {
        ScrubAt(f1, i);
        ScrubAt(f2, i);
      }
    }
    if Scrub(f1) == Scrub(f2) {
      forall i | 0 <= i < FrameSize && !Volatile(i) ensures f1[i] == f2[i] {
        ScrubAt(f1, i);
        ScrubAt(f2, i);
      }
    }
  }

  /** Scrubbing twice is scrubbing once, and it keeps the status marker and
      the routing bytes. */
  lemma ScrubKeepsRouting(frame: Frame)
    ensures Scrub(Scrub(frame)) == Scrub(frame)
    ensures Scrub(frame)[..2] == frame[..2] && Scrub(frame)[9..13] == frame[9..13]
  {
    ScrubEqualIff(Scrub(frame), frame);
    assert Scrub(frame)[..2] == frame[..2];
    assert Scrub(frame)[9..13] == frame[9..13];
  }

  /** Scrubbing keeps a status frame a status frame, and the frames the
      client writes itself (the auth frame and the commands, which start
      with 170, 90) are never taken for one. */
  lemma StatusMarker(frame: Frame, tok: seq<byte>, deviceId: string, deviceType: int, readOnly: bool, entity: nat, entityType: int, action: int)
    requires |tok| == 16
    requires Plain(deviceId) && IdFits(deviceId, deviceType) && Addressable(deviceId, deviceType)
    requires !readOnly ==> ActionFits(entity, entityType, action)
    ensures IsStatus(Message(Scrub(frame))) == IsStatus(Message(frame))
    ensures FromBytes(AuthFrame(tok)).Ok? && !IsStatus(FromBytes(AuthFrame(tok)).value)
    ensures var f := CommandFrame(deviceId, deviceType, readOnly, entity, entityType, action);
      FromBytes(f).Ok? && !IsStatus(FromBytes(f).value)
  {
    ScrubKeepsRouting(frame);
    AuthFrameLayout(tok);
    assert AuthFrame(tok)[0] == AuthHeader[0];
    CommandLayout(deviceId, deviceType, readOnly, entity, entityType, action);
    assert CommandTemplate(Mapper.ParseCustomEncodedString(deviceId), deviceType, readOnly)[0] == 0xAA;
  }

  // ---------------------------------------------------------------------
  // The device map
  // ---------------------------------------------------------------------

  /** Every device has a routing key: `identifier` would raise otherwise. */
  predicate AllKeyed(devices: seq<Device>)
  {
    forall i :: 0 <= i < |devices| ==> devices[i].routingKey.Some?
  }

  /** `{device.identifier: device for device in devices}`: a later device
      with the same key replaces an earlier one. */
  function KeyedBy(devices: seq<Device>): (m: map<seq<byte>, Device>)
    requires AllKeyed(devices)
    ensures forall key :: key in m ==> m[key].routingKey == Some(key)
  {
    if devices == [] then map[]
    else
      var last := devices[|devices| - 1];
      KeyedBy(devices[..|devices| - 1])[last.routingKey.value := last]
  }

  /** Every device's key is in the map. */
  lemma {:induction false} KeyedByHasEveryKey(devices: seq<Device>, i: nat)
    requires AllKeyed(devices) && i < |devices|
    ensures devices[i].routingKey.value in KeyedBy(devices)
  {
    if i < |devices| - 1 {
      KeyedByHasEveryKey(devices[..|devices| - 1], i);
    }
  }

  /** The device stored under a key is the last device with that key:
      `i` is its position. */
  lemma {:induction false} KeyedByLastWins(devices: seq<Device>, key: seq<byte>) returns (i: nat)
    requires AllKeyed(devices) && key in KeyedBy(devices)
    ensures i < |devices| && KeyedBy(devices)[key] == devices[i]
    ensures forall j :: i < j < |devices| ==> devices[j].routingKey != Some(key)
  {
    var prefix := devices[..|devices| - 1];
    var last := devices[|devices| - 1];
    assert KeyedBy(devices) == KeyedBy(prefix)[last.routingKey.value := last];
    if last.routingKey == Some(key) {
      i := |devices| - 1;
    } else {
      assert key in KeyedBy(prefix);
      i := KeyedByLastWins(prefix, key);
      forall j | i < j < |devices| ensures devices[j].routingKey != Some(key) {
        if j < |devices| - 1 {
          assert devices[j] == prefix[j];
        }
      }
    }
  }

  // ---------------------------------------------------------------------
  // Manager
  // ---------------------------------------------------------------------

  /** How `send_command` ends: `AttributeError` without a broker,
      `ValueError` from `Message` for data that is not one frame, or the
      broker's own answer (which `send_command` does not pass on). */
  datatype SendOutcome = NoBroker | Rejected(error: MessageError) | Handed(sent: bool)

  /** `Manager`: the device map, the broker (None before `refresh`) and the
      entities the listener has been told about, in call order. */
  class Manager {
    var deviceMap: map<seq<byte>, Device>
    var mq: MessageBroker?
    var notified: seq<Entity>

    /** Every entity of every mapped device. */
    ghost function Entities(): set<Entity>
      reads this, deviceMap.Values
    {
      set d, e | d in deviceMap.Values && e in d.entities :: e
    }

    /** Each device sits under its own routing key, holds a consistent set
        of entities, and every entity's watched bytes lie inside the frame. */
    ghost predicate Valid()
      reads this, deviceMap.Values, Entities()
    {
      (forall key :: key in deviceMap ==> deviceMap[key].routingKey == Some(key))
      && forall d :: d in deviceMap.Values ==>
        (forall k :: 0 <= k < |d.entities| ==> 37 + d.entities[k].id < FrameSize)
        && (assert forall e :: e in d.entities ==> e in Entities(); d.Valid())
    }

    constructor ()
      ensures Valid() && deviceMap == map[] && mq == null && notified == []
    {
      deviceMap := map[];
      mq := null;
      notified := [];
    }

    /** `get_devices`, once the devices have been fetched: the map keyed by
        each device's `identifier`. */
    method GetDevices(devices: seq<Device>)
      requires AllKeyed(devices)
      requires forall i :: 0 <= i < |devices| ==> devices[i].Valid()
      requires forall i, k :: 0 <= i < |devices| && 0 <= k < |devices[i].entities| ==> 37 + devices[i].entities[k].id < FrameSize
      modifies this
      ensures Valid() && deviceMap == KeyedBy(devices)
      ensures mq == old(mq) && notified == old(notified)
    {
      var m := map[];
      for i := 0 to |devices|
        invariant m == KeyedBy(devices[..i])
      {
        var key := devices[i].routingKey.value;
        assert devices[..i + 1][..i] == devices[..i];
        m := m[key := devices[i]];
      }
      assert devices[..|devices|] == devices;
      deviceMap := m;
      forall d | d in deviceMap.Values
        ensures d.Valid() && forall k :: 0 <= k < |d.entities| ==> 37 + d.entities[k].id < FrameSize
      {
        var key :| key in deviceMap && deviceMap[key] == d;
        var i := KeyedByLastWins(devices, key);
      }
    }

    /** `on_receive`: a frame that is not a status frame, or whose bytes
        9..12 are no key of the map, changes nothing. Otherwise the scrubbed
        frame is applied to that device, and the listener is told of the
        entities it reports, in order. */
    method OnReceive(message: Message)
      requires Valid()
      modifies this, deviceMap.Values, Entities()
      ensures Valid() && deviceMap == old(deviceMap) && mq == old(mq)
      ensures forall d :: d in deviceMap.Values ==> d.entities == old(d.entities)
      ensures !IsStatus(message) || message.data[9..13] !in deviceMap ==>
        notified == old(notified) && forall d :: d in deviceMap.Values ==> d.status == old(d.status)
      ensures IsStatus(message) && message.data[9..13] in deviceMap ==>
        var device := deviceMap[message.data[9..13]];
        var frame := Scrub(message.data);
        device.status == Some(frame)
        && (forall d :: d in deviceMap.Values && d != device ==> d.status == old(d.status))
        && notified == old(notified)
           + if old(device.status) == Some(frame) then [] else ChangedAmong(device.entities, old(device.Snapshot()), frame)
    {
      if !IsStatus(message) {
        return;
      }
      var data := message.data;
      var deviceByteId := [data[9], data[10], data[11], data[12]];
      assert deviceByteId == data[9..13];
      if deviceByteId !in deviceMap {
        return;
      }
      var device := deviceMap[deviceByteId];
      var scrubbed := ScrubInPlace(data);
      assert device in deviceMap.Values;
      assert forall e :: e in device.entities ==> e in old(Entities());
      Deliver(device, scrubbed);
    }

    /** Delivering a frame and then one that differs from it only in the
        volatile bytes (the same frame, say) tells the listener nothing the
        second time. */
    method OnReceiveTwice(first: Message, second: Message) returns (secondNotified: seq<Entity>)
      requires Valid()
      requires forall i :: 0 <= i < FrameSize && !Volatile(i) ==> first.data[i] == second.data[i]
      modifies this, deviceMap.Values, Entities()
      ensures Valid() && deviceMap == old(deviceMap)
      ensures secondNotified == []
    {
      ScrubEqualIff(first.data, second.data);
      ScrubKeepsRouting(first.data);
      ScrubKeepsRouting(second.data);
      assert IsStatus(first) == IsStatus(second);
      assert first.data[9..13] == second.data[9..13];
      OnReceive(first);
      var before := notified;
      assert Entities() == old(Entities());
      OnReceive(second);
      if IsStatus(second) && second.data[9..13] in deviceMap {
        assert notified == before;
      }
      secondNotified := notified[|before|..];
    }

    /** The rest of `on_receive` once the device is found: the frame is
        applied to it and the listener is told of what it reports. */
    method Deliver(device: Device, frame: Frame)
      requires Valid() && device in deviceMap.Values
      modifies this, device, device.entities
      ensures Valid() && deviceMap == old(deviceMap) && mq == old(mq)
      ensures forall d :: d in deviceMap.Values ==> d.entities == old(d.entities)
      ensures device.status == Some(frame)
      ensures forall d :: d in deviceMap.Values && d != device ==> d.status == old(d.status)
      ensures notified == old(notified)
        + if old(device.status) == Some(frame) then [] else ChangedAmong(device.entities, old(device.Snapshot()), frame)
    {
      assert forall d, e :: d in deviceMap.Values && d != device && e in d.entities ==> e !in device.entities by {
        forall d, e | d in deviceMap.Values && d != device && e in d.entities ensures e !in device.entities {
          assert e.device == d;
        }
      }
      var changed := device.SetCurrentStatusResponse(frame);
      assert forall d :: d in deviceMap.Values && d != device ==> d.Valid();
      assert Valid();
      Notify(changed);
    }

    /** The listener loop of `on_receive`: one call per changed entity, in order. */
    method Notify(changed: seq<Entity>)
      modifies this
      ensures notified == old(notified) + changed
      ensures deviceMap == old(deviceMap) && mq == old(mq)
    {
      var i := 0;
      while i < |changed|
        invariant 0 <= i <= |changed|
        invariant notified == old(notified) + changed[..i]
        invariant deviceMap == old(deviceMap) && mq == old(mq)
      {
        notified := notified + [changed[i]];
        assert changed[..i + 1] == changed[..i] + [changed[i]];
        i := i + 1;
      }
      assert changed[..i] == changed;
    }

    /** `send_command`: `self.mq.send_message(Message(data))`. The broker is
        looked up before the message is built, so a missing broker is
        reported first. */
    method SendCommand(data: seq<byte>, transportOk: bool) returns (outcome: SendOutcome)
      requires mq != null ==> mq.Valid()
      modifies mq
      ensures mq == old(mq) && (mq != null ==> mq.Valid())
      ensures mq == null ==> outcome == NoBroker
      ensures mq != null && |data| != FrameSize ==> outcome == Rejected(WrongLength(|data|)) && unchanged(mq)
      ensures mq != null && |data| == FrameSize ==>
        outcome.Handed? && (outcome.sent <==> old(mq.connected) && transportOk)
        && mq.wire == (if outcome.sent then old(mq.wire) + [data] else old(mq.wire))
        && mq.connected == old(mq.connected) && mq.handlers == old(mq.handlers)
    {
      if mq == null {
        return NoBroker;
      }
      var broker := mq;
      var message := NewMessage(Some(data));
      if message.Err? {
        return Rejected(message.error);
      }
      var sent := broker.SendMessage(message.value, transportOk);
      return Handed(sent);
    }
  }

  /** `data = list(data)`, the five writes, and `bytes(data)`. */
  method ScrubInPlace(frame: Frame) returns (scrubbed: Frame)
    ensures scrubbed == Scrub(frame)
  {
    var data := new byte[FrameSize](i requires 0 <= i < FrameSize => frame[i]);
    data[2] := 0;
    data[3] := 0;
    data[4] := 0;
    data[FrameSize - 1] := 0;
    data[FrameSize - 2] := 0;
    assert data[..] == Scrub(frame);
    scrubbed := data[..];
  }
}
