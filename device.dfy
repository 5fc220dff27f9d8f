/** Buttons ("entities") and the switches ("devices") that hold them, and
    the state a 48-byte status frame gives them. */
module Devices {
  import opened Wrappers
  import opened Bytes
  import opened Text
  import opened Checksum
  import opened Mapper
  import opened Commands

  const OffValue := 240
  const OnValue := 255
  const SetPercentageValue := 241
  const OfflineValue := 0

  const TypeSwitch := 1
  const TypeDimmer := 2
  const TypeShutter := 3

  // ---------------------------------------------------------------------
  // What a status frame says about one button
  // ---------------------------------------------------------------------

  /** The bytes `set_response` watches: the state byte `18+id` and the
      level byte `37+id`. */
  predicate StateChanged(before: Frame, after: Frame, id: nat)
    requires 37 + id < FrameSize
  {
    before[18 + id] != after[18 + id] || before[37 + id] != after[37 + id]
  }

  predicate TurnedOn(frame: Frame, id: nat)
    requires 18 + id < FrameSize
  {
    frame[18 + id] == OnValue
  }

  predicate Online(frame: Frame, id: nat)
    requires 18 + id < FrameSize
  {
    frame[18 + id] != OfflineValue
  }

  /** `max(min(v, 100), 0)`. */
  function Clamp(v: int): (c: nat)
    ensures c <= 100
    ensures 0 <= v <= 100 ==> c == v
    ensures v < 0 ==> c == 0
    ensures v > 100 ==> c == 100
  {
    if v < 0 then 0 else if v > 100 then 100 else v
  }

  /** The bytes `percentage` reads exist: the flag byte `26+id` and the
      level byte it selects. */
  predicate LevelReadable(frame: Frame, id: nat)
  {
    26 + id < FrameSize && (if frame[26 + id] != 0 then 37 + id < FrameSize else 34 + id < FrameSize)
  }

  /** The level byte: `37+id` when the flag byte `26+id` is set, `34+id` otherwise. */
  function LevelOffset(frame: Frame, id: nat): (offset: nat)
    requires LevelReadable(frame, id)
    ensures offset < FrameSize
  {
    if frame[26 + id] != 0 then 37 + id else 34 + id
  }

  /** The level of a button in percent (the source divides it by 100). */
  function Level(frame: Frame, id: nat): (level: nat)
    requires LevelReadable(frame, id)
    ensures level <= 100
  {
    Clamp(frame[LevelOffset(frame, id)])
  }

  /** The action byte that switches a button on: 255, but 240 for an unnamed shutter. */
  function OnAction(kind: int, name: string): (action: byte)
    ensures action == OnValue || action == OffValue
    ensures kind != TypeShutter ==> action == OnValue
  {
    if kind == TypeShutter && name == "" then OffValue else OnValue
  }

  /** The action byte that switches a button off: 0 for a shutter, 240 otherwise. */
  function OffAction(kind: int): (action: byte)
    ensures action == OffValue || action == 0
    ensures action == 0 <==> kind == TypeShutter
  {
    if kind == TypeShutter then 0 else OffValue
  }

  /** A button that is on is online. */
  lemma TurnedOnImpliesOnline(frame: Frame, id: nat)
    requires 18 + id < FrameSize
    ensures TurnedOn(frame, id) ==> Online(frame, id)
  {
  }

  /** Without a cached frame every query reads 48 zero bytes: off, offline
      and at level 0. */
  lemma ZeroFrameReads(id: nat)
    requires 34 + id < FrameSize
    ensures !TurnedOn(Zeros(), id) && !Online(Zeros(), id)
    ensures LevelReadable(Zeros(), id) && LevelOffset(Zeros(), id) == 34 + id && Level(Zeros(), id) == 0
  {
  }

  /** The level is the byte it reads whenever that byte is a percentage. */
  lemma LevelIsByte(frame: Frame, id: nat)
    requires LevelReadable(frame, id)
    ensures frame[LevelOffset(frame, id)] <= 100 ==> Level(frame, id) == frame[LevelOffset(frame, id)]
    ensures frame[LevelOffset(frame, id)] > 100 ==> Level(frame, id) == 100
  {
  }

  /** On and off differ for every button except a shutter: switching a
      shutter off sends its on action again. */
  lemma OnOffActions(kind: int, name: string)
    ensures kind != TypeShutter ==> OnAction(kind, name) == OnValue && OffAction(kind) == OffValue
    ensures kind == TypeShutter ==> OffAction(kind) == 0
    ensures kind == TypeShutter ==> (OnAction(kind, name) == OffValue <==> name == "")
  {
  }

  /** When neither watched byte moves, the on and online answers are the same. */
  lemma UnchangedStateKeepsOnOff(before: Frame, after: Frame, id: nat)
    requires 37 + id < FrameSize && !StateChanged(before, after, id)
    ensures TurnedOn(before, id) == TurnedOn(after, id) && Online(before, id) == Online(after, id)
  {
  }

  /** Change detection does not watch the byte `34+id` that a shutter's
      level is read from when its flag byte is clear: such a level can move
      without the button reporting a change. */
  lemma ShutterLevelMayMoveUnreported()
    ensures var after := Zeros()[34 := 50];
      !StateChanged(Zeros(), after, 0) && LevelReadable(after, 0)
      && Level(Zeros(), 0) == 0 && Level(after, 0) == 50
  {
    var after := Zeros()[34 := 50];
    assert after[18] == 0 && after[37] == 0 && after[26] == 0 && after[34] == 50;
  }

  // ---------------------------------------------------------------------
  // Building the buttons of a device
  // ---------------------------------------------------------------------

  /** One button slot of a device record: its position, name and type. */
  datatype Slot = Slot(index: nat, name: string, kind: int)

  /** The host record from the server, as far as the model uses it. */
  datatype DeviceRecord = DeviceRecord(
    id: string, kind: int, name: string, roomId: string, homeId: string,
    ssid: string, mac: string, version: string,
    buttonName: string, buttonType: string)

  function Min(a: nat, b: nat): nat { if a < b then a else b }

  /** `int(button_type)` does not raise on any pair `zip` produces: each
      type within the shorter list is a non-empty run of decimal digits. */
  predicate TypesParse(names: seq<string>, types: seq<string>)
  {
    forall i :: 0 <= i < Min(|names|, |types|) ==> |types[i]| > 0 && AllDigits(types[i])
  }

  /** The slots among the first `n` pairs of `zip(names, types)` whose type is not 0. */
  function SlotsUpTo(names: seq<string>, types: seq<string>, n: nat): (slots: seq<Slot>)
    requires TypesParse(names, types) && n <= Min(|names|, |types|)
    ensures |slots| <= n
    ensures forall k :: 0 <= k < |slots| ==>
      slots[k].index < n && slots[k].name == names[slots[k].index]
      && slots[k].kind == DecimalValue(types[slots[k].index]) && slots[k].kind != 0
  {
    if n == 0 then []
    else
      var kind := DecimalValue(types[n - 1]);
      SlotsUpTo(names, types, n - 1) + (if kind == 0 then [] else [Slot(n - 1, names[n - 1], kind)])
  }

  /** The slots carry strictly increasing positions. */
  predicate IndicesIncrease(slots: seq<Slot>)
  {
    forall j, k :: 0 <= j < k < |slots| ==> slots[j].index < slots[k].index
  }

  /** Slots come in the order of the pairs. */
  lemma {:induction false} SlotsUpToOrdered(names: seq<string>, types: seq<string>, n: nat)
    requires TypesParse(names, types) && n <= Min(|names|, |types|)
    ensures IndicesIncrease(SlotsUpTo(names, types, n))
  {
    if n > 0 {
      SlotsUpToOrdered(names, types, n - 1);
      var shorter := SlotsUpTo(names, types, n - 1);
      var kind := DecimalValue(types[n - 1]);
      if kind != 0 {
        var slots := shorter + [Slot(n - 1, names[n - 1], kind)];
        assert slots == SlotsUpTo(names, types, n);
        forall j, k | 0 <= j < k < |slots|
          ensures slots[j].index < slots[k].index
        {
          assert slots[j] == shorter[j];
          if k < |shorter| {
            assert slots[k] == shorter[k];
          }
        }
      }
    }
  }

  /** No slot of non-zero type is skipped: position `i` has the slot `k`. */
  lemma {:induction false} SlotsComplete(names: seq<string>, types: seq<string>, n: nat, i: nat) returns (k: nat)
    requires TypesParse(names, types) && n <= Min(|names|, |types|)
    requires i < n && DecimalValue(types[i]) != 0
    ensures k < |SlotsUpTo(names, types, n)| && SlotsUpTo(names, types, n)[k].index == i
  {
    var shorter := SlotsUpTo(names, types, n - 1);
    var kind := DecimalValue(types[n - 1]);
    if i == n - 1 {
      assert SlotsUpTo(names, types, n) == shorter + [Slot(n - 1, names[n - 1], kind)];
      k := |shorter|;
    } else {
      k := SlotsComplete(names, types, n - 1, i);
      if kind != 0 {
        var slots := shorter + [Slot(n - 1, names[n - 1], kind)];
        assert slots == SlotsUpTo(names, types, n);
        assert slots[k] == shorter[k];
      }
    }
  }

  /** The slot each entity was built from. */
  function Describe(entities: seq<Entity>): (slots: seq<Slot>)
    ensures |slots| == |entities|
  {
    seq(|entities|, k requires 0 <= k < |entities| => Slot(entities[k].id, entities[k].name, entities[k].kind))
  }

  lemma DescribeAppend(entities: seq<Entity>, e: Entity)
    ensures Describe(entities + [e]) == Describe(entities) + [Slot(e.id, e.name, e.kind)]
  {
    assert forall k :: 0 <= k < |entities| ==> (entities + [e])[k] == entities[k];
  }

  /** Entities built from slots carry strictly increasing ids. */
  lemma DescribedIdsIncrease(entities: seq<Entity>, names: seq<string>, types: seq<string>, n: nat)
    requires TypesParse(names, types) && n <= Min(|names|, |types|)
    requires Describe(entities) == SlotsUpTo(names, types, n)
    ensures IdsIncrease(entities)
  {
    SlotsUpToOrdered(names, types, n);
    var slots := Describe(entities);
    forall j, k | 0 <= j < k < |entities| ensures entities[j].id < entities[k].id {
      assert slots[j].index == entities[j].id && slots[k].index == entities[k].id;
    }
  }

  /** The entities, in order, whose watched bytes differ between `before` and `after`. */
  function ChangedAmong(entities: seq<Entity>, before: Frame, after: Frame): (changed: seq<Entity>)
    requires forall k :: 0 <= k < |entities| ==> 37 + entities[k].id < FrameSize
    ensures |changed| <= |entities|
    ensures forall e :: e in changed ==> e in entities && StateChanged(before, after, e.id)
  {
    if entities == [] then []
    else
      var last := entities[|entities| - 1];
      ChangedAmong(entities[..|entities| - 1], before, after) + (if StateChanged(before, after, last.id) then [last] else [])
  }

  /** The entities carry strictly increasing ids. */
  predicate IdsIncrease(entities: seq<Entity>)
  {
    forall j, k :: 0 <= j < k < |entities| ==> entities[j].id < entities[k].id
  }

  /** The changed entities keep the order of the entities. */
  lemma {:induction false} ChangedAmongOrdered(entities: seq<Entity>, before: Frame, after: Frame)
    requires forall k :: 0 <= k < |entities| ==> 37 + entities[k].id < FrameSize
    requires IdsIncrease(entities)
    ensures IdsIncrease(ChangedAmong(entities, before, after))
  {
    if entities != [] {
      var init := entities[..|entities| - 1];
      var last := entities[|entities| - 1];
      ChangedAmongOrdered(init, before, after);
      var c := ChangedAmong(init, before, after);
      forall e | e in c
        ensures e.id < last.id
      {
        var m :| 0 <= m < |init| && init[m] == e;
      }
      if StateChanged(before, after, last.id) {
        var changed := c + [last];
        assert changed == ChangedAmong(entities, before, after);
        forall j, k | 0 <= j < k < |changed|
          ensures changed[j].id < changed[k].id
        {
          assert changed[j] == c[j];
          if k == |c| {
            assert c[j] in c;
          } else {
            assert changed[k] == c[k];
          }
        }
      }
    }
  }

  lemma ChangedAmongStep(entities: seq<Entity>, i: nat, before: Frame, after: Frame)
    requires forall k :: 0 <= k < |entities| ==> 37 + entities[k].id < FrameSize
    requires i < |entities|
    ensures ChangedAmong(entities[..i + 1], before, after)
      == ChangedAmong(entities[..i], before, after) + (if StateChanged(before, after, entities[i].id) then [entities[i]] else [])
  {
    assert entities[..i + 1][..i] == entities[..i];
  }

  /** The changed entities among the first `n`, counted by position. */
  function ChangedUpTo(entities: seq<Entity>, n: nat, before: Frame, after: Frame): seq<Entity>
    requires n <= |entities|
    requires forall k :: 0 <= k < |entities| ==> 37 + entities[k].id < FrameSize
  {
    if n == 0 then []
    else ChangedUpTo(entities, n - 1, before, after)
         + (if StateChanged(before, after, entities[n - 1].id) then [entities[n - 1]] else [])
  }

  /** Counting by position agrees with the definition on prefixes. */
  lemma {:induction false} ChangedUpToPrefix(entities: seq<Entity>, n: nat, before: Frame, after: Frame)
    requires n <= |entities|
    requires forall k :: 0 <= k < |entities| ==> 37 + entities[k].id < FrameSize
    ensures ChangedUpTo(entities, n, before, after) == ChangedAmong(entities[..n], before, after)
  {
    if n > 0 {
      ChangedUpToPrefix(entities, n - 1, before, after);
      ChangedAmongStep(entities, n - 1, before, after);
    }
  }

  /** Counting by position over all entities gives the changed entities. */
  lemma ChangedUpToAll(entities: seq<Entity>, before: Frame, after: Frame)
    requires forall k :: 0 <= k < |entities| ==> 37 + entities[k].id < FrameSize
    ensures ChangedUpTo(entities, |entities|, before, after) == ChangedAmong(entities, before, after)
  {
    ChangedUpToPrefix(entities, |entities|, before, after);
    assert entities[..|entities|] == entities;
  }

  /** Every entity whose watched bytes differ is reported. */
  lemma {:induction false} ChangedAmongComplete(entities: seq<Entity>, before: Frame, after: Frame, k: nat)
    requires forall k :: 0 <= k < |entities| ==> 37 + entities[k].id < FrameSize
    requires k < |entities| && StateChanged(before, after, entities[k].id)
    ensures entities[k] in ChangedAmong(entities, before, after)
  {
    if k < |entities| - 1 {
      ChangedAmongComplete(entities[..|entities| - 1], before, after, k);
    }
  }

  /** The same frame twice changes no entity. */
  lemma {:induction false} SameFrameChangesNothing(entities: seq<Entity>, frame: Frame)
    requires forall k :: 0 <= k < |entities| ==> 37 + entities[k].id < FrameSize
    ensures ChangedAmong(entities, frame, frame) == []
  {
    if entities != [] {
      SameFrameChangesNothing(entities[..|entities| - 1], frame);
    }
  }

  /** Frames that agree at the watched bytes of every entity change none. */
  lemma {:induction false} AgreeingFramesChangeNothing(entities: seq<Entity>, before: Frame, after: Frame)
    requires forall k :: 0 <= k < |entities| ==> 37 + entities[k].id < FrameSize
    requires forall k :: 0 <= k < |entities| ==> !StateChanged(before, after, entities[k].id)
    ensures ChangedAmong(entities, before, after) == []
  {
    if entities != [] {
      AgreeingFramesChangeNothing(entities[..|entities| - 1], before, after);
    }
  }

  // ---------------------------------------------------------------------
  // Entity
  // ---------------------------------------------------------------------

  /** What `set_percentage` ends in: nothing for a button that is not a
      dimmer, the command it sends, or the `IndexError` of the level write. */
  datatype LevelCommand = NotDimmer | LevelFrame(frame: seq<byte>) | LevelOutOfRange

  /** One button of a device, with the last status frame it was given. */
  class Entity {
    const id: nat
    const name: string
    const kind: int
    const device: Device
    var response: Option<Frame>

    constructor (id: nat, name: string, kind: int, device: Device)
      ensures this.id == id && this.name == name && this.kind == kind && this.device == device
      ensures response == None
    {
      this.id := id;
      this.name := name;
      this.kind := kind;
      this.device := device;
      response := None;
    }

    /** `self._response or bytes([0] * 48)`. */
    function Current(): Frame
      reads this
    {
      if response.Some? then response.value else Zeros()
    }

    /** `set_response`: stores the frame and reports whether either watched
        byte differs from the frame stored before (zeros when there was none).
        For an id of 11 or more the level byte `37+id` lies past the frame:
        reading it raises `IndexError` (None) before anything is stored. */
    method SetResponse(frame: Frame) returns (changed: Option<bool>)
      modifies this
      ensures 37 + id < FrameSize ==> response == Some(frame) && changed == Some(StateChanged(old(Current()), frame, id))
      ensures 37 + id >= FrameSize ==> response == old(response) && changed == None
    {
      var oldValue := Current();
      if 18 + id + 19 >= |oldValue| {
        return None;
      }
      var oldStatus := oldValue[18 + id];
      var oldPercentage := oldValue[18 + id + 19];
      var newStatus := frame[18 + id];
      var newPercentage := frame[18 + id + 19];
      response := Some(frame);
      changed := Some(oldStatus != newStatus || oldPercentage != newPercentage);
    }

    /** `_current_response`: the cached frame; without one, 48 zero bytes
        and the device's status command, which is handed to the manager. */
    method CurrentResponse() returns (frame: Frame, request: Option<seq<byte>>)
      requires device.Encodable()
      ensures frame == Current()
      ensures response.Some? ==> request == None
      ensures response.None? ==> frame == Zeros() && request == Some(device.StatusFrame())
    {
      if response.Some? {
        return response.value, None;
      }
      var command := device.StatusCommand();
      return Zeros(), Some(command);
    }

    /** `is_turned_on`: the state byte is 255. */
    method IsTurnedOn() returns (on: bool, request: Option<seq<byte>>)
      requires device.Encodable() && 18 + id < FrameSize
      ensures on == TurnedOn(Current(), id)
      ensures request == if response.None? then Some(device.StatusFrame()) else None
    {
      var frame;
      frame, request := CurrentResponse();
      on := frame[18 + id] == OnValue;
    }

    /** `is_online`: the state byte is not 0. */
    method IsOnline() returns (online: bool, request: Option<seq<byte>>)
      requires device.Encodable() && 18 + id < FrameSize
      ensures online == Online(Current(), id)
      ensures request == if response.None? then Some(device.StatusFrame()) else None
    {
      var frame;
      frame, request := CurrentResponse();
      online := frame[18 + id] != OfflineValue;
    }

    /** `percentage`: nothing (and no request) for a button that is neither
        a shutter nor a dimmer; otherwise the clamped level byte. */
    method Percentage() returns (level: Option<nat>, request: Option<seq<byte>>)
      requires device.Encodable()
      requires (kind == TypeShutter || kind == TypeDimmer) ==> LevelReadable(Current(), id)
      ensures kind != TypeShutter && kind != TypeDimmer ==> level == None && request == None
      ensures kind == TypeShutter || kind == TypeDimmer ==>
        level == Some(Level(Current(), id))
        && request == if response.None? then Some(device.StatusFrame()) else None
    {
      if kind != TypeShutter && kind != TypeDimmer {
        return None, None;
      }
      var status;
      status, request := CurrentResponse();
      var valueOffset := 18 + id + 16;
      if status[18 + id + 8] != 0 {
        valueOffset := 18 + id + 19;
      }
      var value := status[valueOffset];
      if value > 100 { value := 100; }
      level := Some(value);
    }

    /** `turn_on`: the action command with the on action. */
    method TurnOn() returns (command: seq<byte>)
      requires device.Encodable()
      requires device.HasAddress() ==> ActionFits(id, kind, OnAction(kind, name))
      ensures command == CommandFrame(device.id, device.kind, false, id, kind, OnAction(kind, name))
    {
      var action := OnValue;
      if kind == TypeShutter && name == "" {
        action := OffValue;
      }
      command := GenerateCommand(device.id, device.kind, false, id, kind, action);
    }

    /** `turn_off`: the off action, except that a shutter sends its on command. */
    method TurnOff() returns (command: seq<byte>)
      requires device.Encodable()
      requires device.HasAddress() ==> ActionFits(id, kind, OnAction(kind, name)) && ActionFits(id, kind, OffAction(kind))
      ensures kind == TypeShutter ==> command == CommandFrame(device.id, device.kind, false, id, kind, OnAction(kind, name))
      ensures kind != TypeShutter ==> command == CommandFrame(device.id, device.kind, false, id, kind, OffAction(kind))
    {
      if kind == TypeShutter {
        command := TurnOn();
        return;
      }
      var action := OffAction(kind);
      command := GenerateCommand(device.id, device.kind, false, id, kind, action);
    }

    /** `set_percentage`, given the already scaled `int(percentage * 100)`:
        nothing for a button that is not a dimmer; otherwise the action
        command with action 241 and the clamped level written at `37+id`.
        That write raises `IndexError` when the command is empty (a device
        without an address) or too short for `37+id` (an id of 11 or more). */
    method SetPercentage(scaled: int) returns (command: LevelCommand)
      requires device.Encodable()
      requires kind == TypeDimmer && device.HasAddress() ==> ActionFits(id, kind, SetPercentageValue)
      ensures kind != TypeDimmer ==> command == NotDimmer
      ensures kind == TypeDimmer ==> (command == LevelOutOfRange <==> !device.HasAddress() || 37 + id >= FrameSize)
      ensures kind == TypeDimmer && device.HasAddress() && 37 + id < FrameSize ==>
        command == LevelFrame(CommandFrame(device.id, device.kind, false, id, kind, SetPercentageValue)[37 + id := Clamp(scaled)])
    {
      if kind != TypeDimmer {
        return NotDimmer;
      }
      var value := if scaled > 100 then 100 else if scaled < 0 then 0 else scaled;
      var action := SetPercentageValue;
      var cmd := GenerateCommand(device.id, device.kind, false, id, kind, action);
      CommandEmptyIff(device.id, device.kind, false, id, kind, action);
      if 18 + id + 19 >= |cmd| {
        return LevelOutOfRange;
      }
      var written := WriteByte(cmd, 18 + id + 19, value);
      command := LevelFrame(written);
    }

    /** `get_related_entity`: for a named shutter, the next entity of the
        device when it is a shutter too. The search loop stops at this
        entity; `==` on entities is identity here, because the ids of a
        device's entities are distinct. */
    method RelatedEntity() returns (related: Option<Entity>)
      requires device.Valid() && this in device.entities
      ensures related.Some? <==>
        (kind == TypeShutter && name != ""
         && exists k :: 0 <= k < |device.entities| - 1 && device.entities[k] == this && device.entities[k + 1].kind == TypeShutter)
      ensures related.Some? ==>
        exists k :: 0 <= k < |device.entities| - 1 && device.entities[k] == this && related.value == device.entities[k + 1]
    {
      if kind != TypeShutter {
        return None;
      }
      if name == "" {
        return None;
      }
      var entities := device.entities;
      var index := 0;
      var i := 0;
      while i < |entities| && entities[index] != this
        invariant 0 <= index < |entities| && i <= |entities|
        invariant i == 0 || index == i - 1
        invariant forall j :: 0 <= j < i && j != index ==> entities[j] != this
        invariant i == 0 ==> index == 0
      {
        index := i;
        i := i + 1;
      }
      assert entities[index] == this;
      if index + 1 >= |entities| {
        return None;
      }
      var button := entities[index + 1];
      if button.kind != TypeShutter {
        return None;
      }
      return Some(button);
    }
  }

  // ---------------------------------------------------------------------
  // Device
  // ---------------------------------------------------------------------

  /** The routing key `identifier` yields: bytes 9..12 of the status
      command, that is the decoded id in little-endian order. None where
      the status command is empty (indexing it raises) or the id is outside
      what is modelled. */
  function RoutingKeyOf(deviceId: string, deviceType: int): (key: Option<seq<byte>>)
    ensures key.Some? ==> |key.value| == 4
  {
    if Plain(deviceId) && IdFits(deviceId, deviceType) && Addressable(deviceId, deviceType)
    then Some(LittleEndian(ParseCustomEncodedString(deviceId)))
    else None
  }

  /** One switch (host) and its buttons, with the last status frame applied. */
  class Device {
    const id: string
    const kind: int
    const name: string
    const roomId: string
    const homeId: string
    const ssid: string
    const mac: string
    const version: string
    /** `identifier`, fixed at construction since the id and type never change. */
    const routingKey: Option<seq<byte>>
    var entities: seq<Entity>
    var status: Option<Frame>

    /** The routing key is the one the id and type determine. */
    ghost predicate Keyed()
    {
      routingKey == RoutingKeyOf(id, kind)
    }

    /** The entities belong to this device, carry strictly increasing ids
        (so no entity appears twice) and all hold the device's status frame. */
    ghost predicate Valid()
      reads this, entities
    {
      (forall k :: 0 <= k < |entities| ==> entities[k].device == this && entities[k].response == status)
      && (forall j, k :: 0 <= j < k < |entities| ==> entities[j].id < entities[k].id)
    }

    /** The id can be decoded without `int()` leniency and `to_bytes(4)` does not overflow. */
    predicate Encodable()
    {
      Plain(id) && IdFits(id, kind)
    }

    /** `generate_command` builds a frame for this device rather than empty bytes. */
    predicate HasAddress()
      requires Encodable()
    {
      Addressable(id, kind)
    }

    /** The status command of this device. */
    function StatusFrame(): seq<byte>
      requires Encodable()
    {
      CommandFrame(id, kind, true, 0, 0, 0)
    }

    /** The routing key is the status frame's id bytes, and it reads back
        as the decoded id; a device has a key exactly when its id decodes
        to an address. */
    lemma KeyIsStatusBytes()
      requires Keyed()
      ensures routingKey.Some? <==> Encodable() && HasAddress()
      ensures routingKey.Some? ==> |routingKey.value| == 4 && routingKey.value == StatusFrame()[9..13]
      ensures routingKey.Some? ==> FromLittleEndian(routingKey.value) == ParseCustomEncodedString(id)
    {
      if routingKey.Some? {
        StatusCommandLayout(id, kind);
      }
    }

    /** `self._status or []` as a frame: the cached status, or zeros. */
    function Snapshot(): Frame
      reads this
    {
      if status.Some? then status.value else Zeros()
    }

    /** `init_from`: the device fields copied from the record, then one
        entity for each pair of `zip(buttonName.split(";"), buttonType.split(","))`
        whose type is not 0, with the pair's position as its id. */
    constructor InitFrom(record: DeviceRecord)
      requires TypesParse(Split(record.buttonName, ';'), Split(record.buttonType, ','))
      ensures id == record.id && kind == record.kind && name == record.name
      ensures roomId == record.roomId && homeId == record.homeId && ssid == record.ssid
      ensures mac == record.mac && version == record.version
      ensures Valid() && Keyed() && status == None
      ensures Describe(entities) ==
        SlotsUpTo(Split(record.buttonName, ';'), Split(record.buttonType, ','),
                  Min(|Split(record.buttonName, ';')|, |Split(record.buttonType, ',')|))
    {
      id := record.id;
      kind := record.kind;
      name := record.name;
      roomId := record.roomId;
      homeId := record.homeId;
      ssid := record.ssid;
      mac := record.mac;
      version := record.version;
      routingKey := RoutingKeyOf(record.id, record.kind);
      entities := [];
      status := None;
      new;
      var buttonNames := Split(record.buttonName, ';');
      var buttonTypes := Split(record.buttonType, ',');
      entities := BuildEntities(this, buttonNames, buttonTypes);
      DescribedIdsIncrease(entities, buttonNames, buttonTypes, Min(|buttonNames|, |buttonTypes|));
    }

    /** `identifier`: bytes 9..12 of the status command. */
    method Identifier() returns (identifier: seq<byte>)
      requires Keyed() && routingKey.Some?
      ensures identifier == routingKey.value
    {
      KeyIsStatusBytes();
      var statusCommand := StatusCommand();
      identifier := [statusCommand[9], statusCommand[10], statusCommand[11], statusCommand[12]];
    }

    /** `status_command`: the read-only command for this device. */
    method StatusCommand() returns (command: seq<byte>)
      requires Encodable()
      ensures command == StatusFrame()
    {
      command := GenerateCommand(id, kind, true, 0, 0, 0);
    }

    /** `button`: the first entity with the given name, if any. */
    method Button(buttonName: string) returns (button: Option<Entity>)
      ensures button.None? <==> forall k :: 0 <= k < |entities| ==> entities[k].name != buttonName
      ensures button.Some? ==>
        exists k :: (0 <= k < |entities| && entities[k] == button.value
                     && button.value.name == buttonName && forall j :: 0 <= j < k ==> entities[j].name != buttonName)
    {
      var i := 0;
      while i < |entities|
        invariant 0 <= i <= |entities|
        invariant forall j :: 0 <= j < i ==> entities[j].name != buttonName
      {
        if entities[i].name == buttonName {
          return Some(entities[i]);
        }
        i := i + 1;
      }
      return None;
    }

    /** `set_current_status_response`: a frame equal to the cached one
        changes nothing and reports nothing; any other frame is cached,
        given to every entity, and the entities that report a change are
        returned in entity order. */
    method SetCurrentStatusResponse(frame: Frame) returns (changed: seq<Entity>)
      requires Valid()
      requires status != Some(frame) ==> forall k :: 0 <= k < |entities| ==> 37 + entities[k].id < FrameSize
      modifies this, entities
      ensures Valid() && entities == old(entities) && status == Some(frame)
      ensures old(status) == Some(frame) ==> changed == [] && forall e :: e in entities ==> unchanged(e)
      ensures old(status) != Some(frame) ==> changed == ChangedAmong(entities, old(Snapshot()), frame)
    {
      if status == Some(frame) {
        return [];
      }
      ghost var before := Snapshot();
      status := Some(frame);
      changed := GiveToAll(entities, frame, before);
    }
  }

  /** The loop of `init_from`: one new entity of `device`, without a
      response, for each pair of names and types whose type is not 0. */
  method BuildEntities(device: Device, names: seq<string>, types: seq<string>) returns (entities: seq<Entity>)
    requires TypesParse(names, types)
    ensures forall k :: 0 <= k < |entities| ==> entities[k].device == device && entities[k].response == None
    ensures Describe(entities) == SlotsUpTo(names, types, Min(|names|, |types|))
  {
    entities := [];
    for i := 0 to Min(|names|, |types|)
      invariant forall k :: 0 <= k < |entities| ==> entities[k].device == device && entities[k].response == None
      invariant Describe(entities) == SlotsUpTo(names, types, i)
    {
      var buttonType := PyInt(types[i]).value;
      assert SlotsUpTo(names, types, i + 1) == SlotsUpTo(names, types, i)
        + (if buttonType == 0 then [] else [Slot(i, names[i], buttonType)]);
      if buttonType != 0 {
        var entity := new Entity(i, names[i], buttonType, device);
        DescribeAppend(entities, entity);
        entities := entities + [entity];
      }
    }
  }

  /** One step of that loop, for an entity whose watched bytes lie inside the frame. */
  method GiveOne(entity: Entity, frame: Frame, ghost before: Frame) returns (didChange: bool)
    requires 37 + entity.id < FrameSize && entity.Current() == before
    modifies entity
    ensures entity.response == Some(frame)
    ensures didChange == StateChanged(before, frame, entity.id)
  {
    var result := entity.SetResponse(frame);
    didChange := result.value;
  }

  /** The loop of `set_current_status_response`: every entity is given the
      frame, and those that report a change are collected in order. */
  method GiveToAll(entities: seq<Entity>, frame: Frame, ghost before: Frame) returns (changed: seq<Entity>)
    requires forall k :: 0 <= k < |entities| ==> 37 + entities[k].id < FrameSize
    requires forall j, k :: 0 <= j < k < |entities| ==> entities[j].id < entities[k].id
    requires forall k :: 0 <= k < |entities| ==> entities[k].Current() == before
    modifies entities
    ensures forall k :: 0 <= k < |entities| ==> entities[k].response == Some(frame)
    ensures changed == ChangedAmong(entities, before, frame)
  {
    changed := [];
    var i := 0;
    while i < |entities|
      invariant 0 <= i <= |entities|
      invariant forall k :: 0 <= k < i ==> entities[k].response == Some(frame)
      invariant forall k :: i <= k < |entities| ==> entities[k].Current() == before
      invariant changed == ChangedUpTo(entities, i, before, frame)
    {
      var entity := entities[i];
      assert entity.Current() == before;
      assert forall k :: i < k < |entities| ==> entities[k] != entity;
      var didChange := GiveOne(entity, frame, before);
      if didChange {
        changed := changed + [entity];
      }
      assert changed == ChangedUpTo(entities, i + 1, before, frame);
      i := i + 1;
    }
    ChangedUpToAll(entities, before, frame);
  }

  /** `cmd = list(cmd); cmd[pos] = value; bytes(cmd)`. */
  method WriteByte(cmd: seq<byte>, pos: nat, value: byte) returns (written: seq<byte>)
    requires pos < |cmd|
    ensures written == cmd[pos := value]
  {
    var buffer := new byte[|cmd|](i requires 0 <= i < |cmd| => cmd[i]);
    buffer[pos] := value;
    written := buffer[..];
  }

  /** Sending the level of a dimmer changes only byte `37+id` of the action
      command. For ids up to 8 that byte lies between the checksummed range
      and the trailer, so the trailer still matches; for ids 9 and 10 the
      level overwrites a trailer byte. */
  lemma SetPercentageFrame(deviceId: string, deviceType: int, id: nat, scaled: int)
    requires Plain(deviceId) && IdFits(deviceId, deviceType) && Addressable(deviceId, deviceType)
    requires 37 + id < 46
    ensures var f := CommandFrame(deviceId, deviceType, false, id, TypeDimmer, SetPercentageValue)[37 + id := Clamp(scaled)];
      |f| == FrameSize && f[18 + id] == SetPercentageValue && f[37 + id] == Clamp(scaled)
      && f[46..] == Trailer(f, 2, 20)
  {
    var g := CommandFrame(deviceId, deviceType, false, id, TypeDimmer, SetPercentageValue);
    CommandLayout(deviceId, deviceType, false, id, TypeDimmer, SetPercentageValue);
    var f := g[37 + id := Clamp(scaled)];
    ChecksumReadsOnlyRange(g, f, 2, 20);
  }
}
