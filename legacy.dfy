/** The older client of `higoal_client.py`: its buttons keep whatever reply
    the last command brought back, unchecked, and its command sending makes
    a bounded number of write attempts. It builds frames with the same codec
    as the current client, so the frames are those of module Commands. */
module Legacy {
  import opened Wrappers
  import opened Bytes
  import opened Text
  import opened Commands
  import opened Devices

  /** The default of `max_attempts`. */
  const DefaultAttempts := 3

  // ---------------------------------------------------------------------
  // Sending with a bounded number of attempts
  // ---------------------------------------------------------------------

  /** A write attempt that gives no usable reply: the write raised (None),
      or the reply is shorter than a frame. */
  predicate Failed(outcome: Option<seq<byte>>)
  {
    outcome.None? || |outcome.value| < FrameSize
  }

  /** What `send_command` returns (None after the last failed attempt) and
      how many writes it made. */
  datatype Sent = Sent(reply: Option<seq<byte>>, writes: nat)

  /** `send_command(command, max_attempts)`, counting down by recursion:
      `outcomes[k]` is what the `k`-th write brings back, None where it
      raises. The first usable reply is returned as it is; after
      `maxAttempts` failures the result is None. */
  function SendCommand(maxAttempts: nat, outcomes: seq<Option<seq<byte>>>): (r: Sent)
    requires |outcomes| >= maxAttempts
    ensures r.writes <= maxAttempts
    ensures forall k :: 0 <= k < r.writes - 1 ==> Failed(outcomes[k])
    ensures r.reply.Some? ==> 0 < r.writes && r.reply == outcomes[r.writes - 1] && !Failed(r.reply)
    ensures r.reply.None? ==> r.writes == maxAttempts && forall k :: 0 <= k < maxAttempts ==> Failed(outcomes[k])
    decreases maxAttempts
  {
    if maxAttempts == 0 then Sent(None, 0)
    else if Failed(outcomes[0]) then
      var rest := SendCommand(maxAttempts - 1, outcomes[1..]);
      Sent(rest.reply, rest.writes + 1)
    else Sent(outcomes[0], 1)
  }

  /** A reply comes back exactly when one of the first `maxAttempts` writes
      gives a usable one, and then it is the first such reply. */
  lemma {:induction false} SendCommandFirstGood(maxAttempts: nat, outcomes: seq<Option<seq<byte>>>, k: nat)
    requires |outcomes| >= maxAttempts && k < maxAttempts && !Failed(outcomes[k])
    requires forall j :: 0 <= j < k ==> Failed(outcomes[j])
    ensures SendCommand(maxAttempts, outcomes) == Sent(outcomes[k], k + 1)
  {
    if k > 0 {
      SendCommandFirstGood(maxAttempts - 1, outcomes[1..], k - 1);
    }
  }

  // ---------------------------------------------------------------------
  // Reading a reply
  // ---------------------------------------------------------------------

  /** `max(min(status[-10], 100), 0)`: the level of a shutter, read at the
      tenth byte from the end whatever the button. */
  function LegacyLevel(status: seq<byte>): (level: nat)
    requires |status| >= 10
    ensures level <= 100
    ensures |status| == FrameSize ==> level == Clamp(status[38])
  {
    Clamp(status[|status| - 10])
  }

  /** Unlike the current client, the old one reads the same byte for every
      button of a frame: two shutters of one device report one level. */
  lemma LegacyLevelIgnoresButton(frame: Frame, id: nat)
    requires LevelReadable(frame, id)
    ensures LegacyLevel(frame) == Clamp(frame[38])
    ensures id != 4 && frame[26 + id] == 0 && frame[34 + id] != frame[38] && frame[34 + id] <= 100 && frame[38] <= 100
      ==> Level(frame, id) != LegacyLevel(frame)
  {
  }

  // ---------------------------------------------------------------------
  // Entity
  // ---------------------------------------------------------------------

  /** Why a query of the old client raises: `TypeError` when the reply it
      reads is None (the relay gave no usable answer), `IndexError` when
      the reply is too short for the byte it reads. */
  datatype QueryError = NoReply | ShortReply

  /** The dataclass `==` between two buttons of one device: the device is
      the same object, so the buttons are equal when id, name, type and
      reply are. */
  predicate SameButton(a: LegacyEntity, b: LegacyEntity)
    reads a, b
  {
    a.id == b.id && a.name == b.name && a.kind == b.kind && a.response == b.response
  }

  /** The old `Entity` dataclass: a button and the last reply it received. */
  class LegacyEntity {
    const id: nat
    const name: string
    const kind: int
    const device: LegacyDevice
    var response: Option<seq<byte>>

    constructor (id: nat, name: string, kind: int, device: LegacyDevice)
      ensures this.id == id && this.name == name && this.kind == kind && this.device == device
      ensures response == None
    {
      this.id := id;
      this.name := name;
      this.kind := kind;
      this.device := device;
      response := None;
    }

    /** `self.response and len(self.response) >= 48`. */
    predicate Cached()
      reads this
    {
      response.Some? && |response.value| >= FrameSize
    }

    /** The reply a query reads: the cached one when the cache is used and
        holds a whole frame, otherwise the reply to a fresh status command. */
    function Served(useCache: bool, reply: Option<seq<byte>>): Option<seq<byte>>
      reads this
    {
      if useCache && Cached() then response else reply
    }

    /** `_current_response`: the cache when allowed and usable; otherwise
        the status command is sent and its reply, `reply`, is stored and
        returned, whatever it is. */
    method CurrentResponse(useCache: bool, reply: Option<seq<byte>>) returns (current: Option<seq<byte>>, request: Option<seq<byte>>)
      requires device.Encodable()
      modifies this
      ensures current == old(Served(useCache, reply))
      ensures useCache && old(Cached()) ==> response == old(response) && request == None
      ensures !(useCache && old(Cached())) ==> response == reply && request == Some(device.StatusFrame())
    {
      if useCache && response.Some? && |response.value| >= FrameSize {
        return response, None;
      }
      var command := device.StatusCommand();
      response := reply;
      return response, Some(command);
    }

    /** `is_turned_on`: byte `18+id` of the reply read is 255. Indexing
        raises `TypeError` on a missing reply and `IndexError` on one too
        short for `18+id`. */
    method IsTurnedOn(useCache: bool, reply: Option<seq<byte>>) returns (on: Result<bool, QueryError>, request: Option<seq<byte>>)
      requires device.Encodable()
      modifies this
      ensures old(Served(useCache, reply)).None? ==> on == Err(NoReply)
      ensures old(Served(useCache, reply)).Some? ==>
        var served := old(Served(useCache, reply)).value;
        (on == Err(ShortReply) <==> 18 + id >= |served|)
        && (on.Ok? ==> (on.value <==> served[18 + id] == OnValue))
      ensures request == if useCache && old(Cached()) then None else Some(device.StatusFrame())
      ensures useCache && old(Cached()) ==> response == old(response)
      ensures !(useCache && old(Cached())) ==> response == reply
    {
      var current;
      current, request := CurrentResponse(useCache, reply);
      if current.None? {
        return Err(NoReply), request;
      }
      if 18 + id >= |current.value| {
        return Err(ShortReply), request;
      }
      on := Ok(current.value[18 + id] == OnValue);
    }

    /** `is_online`: byte `18+id` of the reply read is not 0; `list(None)`
        raises `TypeError`, and a short reply `IndexError`. */
    method IsOnline(useCache: bool, reply: Option<seq<byte>>) returns (online: Result<bool, QueryError>, request: Option<seq<byte>>)
      requires device.Encodable()
      modifies this
      ensures old(Served(useCache, reply)).None? ==> online == Err(NoReply)
      ensures old(Served(useCache, reply)).Some? ==>
        var served := old(Served(useCache, reply)).value;
        (online == Err(ShortReply) <==> 18 + id >= |served|)
        && (online.Ok? ==> (online.value <==> served[18 + id] != OfflineValue))
      ensures request == if useCache && old(Cached()) then None else Some(device.StatusFrame())
      ensures useCache && old(Cached()) ==> response == old(response)
      ensures !(useCache && old(Cached())) ==> response == reply
    {
      var current;
      current, request := CurrentResponse(useCache, reply);
      if current.None? {
        return Err(NoReply), request;
      }
      if 18 + id >= |current.value| {
        return Err(ShortReply), request;
      }
      online := Ok(current.value[18 + id] != OfflineValue);
    }

    /** `percentage`: nothing, and nothing read, for a button that is not a
        shutter; otherwise the level at the tenth byte from the end.
        `list(None)` raises `TypeError`, and `status[-10]` raises
        `IndexError` on a reply shorter than ten bytes. */
    method Percentage(useCache: bool, reply: Option<seq<byte>>) returns (level: Result<Option<nat>, QueryError>, request: Option<seq<byte>>)
      requires device.Encodable()
      modifies this
      ensures kind != TypeShutter ==> level == Ok(None) && request == None && response == old(response)
      ensures kind == TypeShutter && old(Served(useCache, reply)).None? ==> level == Err(NoReply)
      ensures kind == TypeShutter && old(Served(useCache, reply)).Some? ==>
        var served := old(Served(useCache, reply)).value;
        (level == Err(ShortReply) <==> |served| < 10)
        && (|served| >= 10 ==> level == Ok(Some(LegacyLevel(served))))
      ensures kind == TypeShutter ==> request == if useCache && old(Cached()) then None else Some(device.StatusFrame())
      ensures kind == TypeShutter && useCache && old(Cached()) ==> response == old(response)
      ensures kind == TypeShutter && !(useCache && old(Cached())) ==> response == reply
    {
      if kind != TypeShutter {
        return Ok(None), None;
      }
      var status;
      status, request := CurrentResponse(useCache, reply);
      if status.None? {
        return Err(NoReply), request;
      }
      if |status.value| < 10 {
        return Err(ShortReply), request;
      }
      var value := status.value[|status.value| - 10];
      level := Ok(Some(if value > 100 then 100 else if value < 0 then 0 else value));
    }

    /** `turn_on`: the action command is sent and the reply stored. */
    method TurnOn(reply: Option<seq<byte>>) returns (command: seq<byte>)
      requires device.Encodable()
      requires device.HasAddress() ==> ActionFits(id, kind, OnAction(kind, name))
      modifies this
      ensures command == CommandFrame(device.id, device.kind, false, id, kind, OnAction(kind, name))
      ensures response == reply
    {
      var action := OnValue;
      if kind == TypeShutter && name == "" {
        action := OffValue;
      }
      command := GenerateCommand(device.id, device.kind, false, id, kind, action);
      response := reply;
    }

    /** `turn_off`: a shutter sends its on-command; any other button sends
        the off-action. */
    method TurnOff(reply: Option<seq<byte>>) returns (command: seq<byte>)
      requires device.Encodable()
      requires device.HasAddress() ==> ActionFits(id, kind, OnAction(kind, name)) && ActionFits(id, kind, OffAction(kind))
      modifies this
      ensures kind == TypeShutter ==> command == CommandFrame(device.id, device.kind, false, id, kind, OnAction(kind, name))
      ensures kind != TypeShutter ==> command == CommandFrame(device.id, device.kind, false, id, kind, OffAction(kind))
      ensures response == reply
    {
      if kind == TypeShutter {
        command := TurnOn(reply);
        return;
      }
      command := GenerateCommand(device.id, device.kind, false, id, kind, OffAction(kind));
      response := reply;
    }

    /** The search of `get_related_entity` stops at button `k`: the first
        button of the device equal to this one. */
    ghost predicate FirstEqualAt(k: int)
      reads this, device, device.buttons
    {
      0 <= k < |device.buttons| && SameButton(device.buttons[k], this)
      && forall j :: 0 <= j < k ==> !SameButton(device.buttons[j], this)
    }

    /** `get_related_entity`: for a named shutter, the button after the
        first button equal to this one, when there is one and it is a
        shutter too. When no button is equal, the loop leaves `index` at
        the last button and there is no next one. */
    method RelatedEntity() returns (related: Option<LegacyEntity>)
      requires forall k :: 0 <= k < |device.buttons| ==> device.buttons[k].device == device
      ensures related.Some? <==>
        kind == TypeShutter && name != ""
        && exists k :: FirstEqualAt(k) && k + 1 < |device.buttons| && device.buttons[k + 1].kind == TypeShutter
      ensures related.Some? ==> exists k :: FirstEqualAt(k) && k + 1 < |device.buttons| && related.value == device.buttons[k + 1]
    {
      if kind != TypeShutter {
        return None;
      }
      if name == "" {
        return None;
      }
      var buttons := device.buttons;
      var index := 0;
      var found := false;
      var i := 0;
      while i < |buttons| && !found
        invariant 0 <= i <= |buttons|
        invariant found ==> 0 < i && index == i - 1 && FirstEqualAt(index)
        invariant !found ==> index == (if i == 0 then 0 else i - 1)
        invariant !found ==> forall j :: 0 <= j < i ==> !SameButton(buttons[j], this)
      {
        index := i;
        found := SameButton(buttons[i], this);
        i := i + 1;
      }
      if !found {
        assert forall k :: !FirstEqualAt(k);
      }
      if index + 1 >= |buttons| {
        return None;
      }
      assert found;
      var button := buttons[index + 1];
      if button.kind != TypeShutter {
        return None;
      }
      return Some(button);
    }
  }

  /** The slots the buttons were built from, in order. */
  function Slots(buttons: seq<LegacyEntity>): (slots: seq<Slot>)
    ensures |slots| == |buttons|
  {
    seq(|buttons|, k requires 0 <= k < |buttons| => Slot(buttons[k].id, buttons[k].name, buttons[k].kind))
  }

  lemma SlotsAppend(buttons: seq<LegacyEntity>, button: LegacyEntity)
    ensures Slots(buttons + [button]) == Slots(buttons) + [Slot(button.id, button.name, button.kind)]
  {
    assert forall k :: 0 <= k < |buttons| ==> (buttons + [button])[k] == buttons[k];
  }

  /** The loop of `init_from`: a button for each pair of non-zero type, in
      order, each new and without a reply. */
  method BuildButtons(device: LegacyDevice, names: seq<string>, types: seq<string>) returns (buttons: seq<LegacyEntity>)
    requires TypesParse(names, types)
    ensures forall k :: 0 <= k < |buttons| ==> buttons[k].device == device && buttons[k].response == None
    ensures Slots(buttons) == SlotsUpTo(names, types, Min(|names|, |types|))
  {
    buttons := [];
    for i := 0 to Min(|names|, |types|)
      invariant forall k :: 0 <= k < |buttons| ==> buttons[k].device == device && buttons[k].response == None
      invariant Slots(buttons) == SlotsUpTo(names, types, i)
    {
      var buttonType := PyInt(types[i]).value;
      assert SlotsUpTo(names, types, i + 1) == SlotsUpTo(names, types, i)
        + (if buttonType == 0 then [] else [Slot(i, names[i], buttonType)]);
      if buttonType != 0 {
        var button := new LegacyEntity(i, names[i], buttonType, device);
        SlotsAppend(buttons, button);
        buttons := buttons + [button];
      }
    }
  }

  // ---------------------------------------------------------------------
  // Device
  // ---------------------------------------------------------------------

  /** The old `Device` dataclass. */
  class LegacyDevice {
    const id: string
    const kind: int
    const name: string
    const roomId: string
    const homeId: string
    const ssid: string
    const mac: string
    const version: string
    var buttons: seq<LegacyEntity>

    /** The id can be decoded without `int()` leniency and `to_bytes(4)` does not overflow. */
    predicate Encodable()
    {
      Plain(id) && IdFits(id, kind)
    }

    /** `generate_command` builds a frame for this device rather than empty bytes. */
    predicate HasAddress()
      requires Encodable()
    {
      Addressable(id, kind)
    }

    /** The status command of this device. */
    function StatusFrame(): seq<byte>
      requires Encodable()
    {
      CommandFrame(id, kind, true, 0, 0, 0)
    }

    /** `init_from`: one button for each pair of `zip(buttonName.split(";"),
        buttonType.split(","))` whose type is not 0, keeping the pair's
        position as its id. */
    constructor InitFrom(record: DeviceRecord)
      requires TypesParse(Split(record.buttonName, ';'), Split(record.buttonType, ','))
      ensures id == record.id && kind == record.kind && name == record.name
      ensures roomId == record.roomId && homeId == record.homeId && ssid == record.ssid
      ensures mac == record.mac && version == record.version
      ensures forall k :: 0 <= k < |buttons| ==> buttons[k].device == this && buttons[k].response == None
      ensures
        var names := Split(record.buttonName, ';');
        var types := Split(record.buttonType, ',');
        Slots(buttons) == SlotsUpTo(names, types, Min(|names|, |types|))
    {
      id := record.id;
      kind := record.kind;
      name := record.name;
      roomId := record.roomId;
      homeId := record.homeId;
      ssid := record.ssid;
      mac := record.mac;
      version := record.version;
      buttons := [];
      new;
      var buttonNames := Split(record.buttonName, ';');
      var buttonTypes := Split(record.buttonType, ',');
      buttons := BuildButtons(this, buttonNames, buttonTypes);
    }

    /** `status_command`: the read-only command for this device. */
    method StatusCommand() returns (command: seq<byte>)
      requires Encodable()
      ensures command == StatusFrame()
    {
      command := GenerateCommand(id, kind, true, 0, 0, 0);
    }

    /** `button`: the first button with the given name, if any. */
    method Button(buttonName: string) returns (button: Option<LegacyEntity>)
      ensures button.None? <==> forall k :: 0 <= k < |buttons| ==> buttons[k].name != buttonName
      ensures button.Some? ==>
        exists k :: (0 <= k < |buttons| && buttons[k] == button.value
                     && button.value.name == buttonName && forall j :: 0 <= j < k ==> buttons[j].name != buttonName)
    {
      for i := 0 to |buttons|
        invariant forall j :: 0 <= j < i ==> buttons[j].name != buttonName
      {
        if buttons[i].name == buttonName {
          return Some(buttons[i]);
        }
      }
      return None;
    }

    /** `set_current_status_response`: every button is given the same
        reply, unchecked, and the list of buttons stays as it is. */
    method SetCurrentStatusResponse(response: Option<seq<byte>>)
      modifies buttons
      ensures forall k :: 0 <= k < |buttons| ==> buttons[k].response == response
    {
      for i := 0 to |buttons|
        invariant forall k :: 0 <= k < i ==> buttons[k].response == response
      {
        buttons[i].response := response;
      }
    }
  }
}
