# HIGOAL relay core in Dafny

HIGOAL wall switches, dimmers and blind controllers are driven through a
relay. The relay speaks fixed 48-byte binary frames:

- an **auth frame** carries a 16-byte session token, its bytes scattered over
  fixed positions;
- a **status command** asks one switch (a *device*) for its state;
- an **action command** sets one button (an *entity*) of that device;
- every frame ends with a two-byte **trailer**. The trailer comes from a
  bit-serial, CRC-8-like register that runs over bytes 2..20, once with the
  secret 28 and once with the secret 122.

A device is addressed by its vendor id string. Letters in the id stand for
digits, the result is read as a decimal number, and the number goes into
bytes 9..12 little-endian.

Incoming status frames are routed by those same four bytes. The manager
looks the device up by them and zeroes the volatile bytes 2, 3, 4, 46 and 47.
It hands the frame to the device, which gives it to each entity. Every entity
whose state byte (`18+id`) or level byte (`37+id`) changed is reported to the
listener.

The message broker wraps frames in a 48-byte `Message`. It sends them only
while connected and fans every received message out to all registered
handlers, whatever an earlier handler raised.

The project has these modules:

| module | file | models |
|---|---|---|
| `Wrappers` | `wrappers.dfy` | `Option` and `Result` |
| `Bytes` | `bytes.dfy` | bytes and frames |
| `Text` | `text.dfy` | the parts of `int()` and `str.split` that the source relies on |
| `Register` | `register.dfy` | the eight-round shift/XOR step of the checksum register |
| `Checksum` | `checksum.dfy` | `ChecksumHandler` |
| `Mapper` | `mapper.dfy` | `CharacterMapper` |
| `Commands` | `commands.dfy` | token decoding, the auth frame, `generate_command`, `verify_response` and the model names |
| `Devices` | `device.dfy` | `client/device.py` |
| `Broker` | `mq.dfy` | `client/mq.py` |
| `Routing` | `manager.dfy` | `client/manager.py` |
| `Legacy` | `legacy.dfy` | the older entity, device and `send_command` of `higoal_client.py` |

`higoal_client.py` carries its own copy of the codec, identical to
`client/utils.py`: same guard, loop, secrets, substitution table, templates
and layout. Modules `Checksum`, `Mapper` and `Commands` model both copies,
and module `Legacy` builds its frames with them.

Where the source loops or updates state in place, the model does too.
`ComputeChecksum`, `EncodeToken`, `GenerateAuthCommand` and `GenerateCommand`
are methods with loops or in-place writes. Each is proved equal to a
specification function. The properties are then proved about those
functions.

Entities, devices, the broker and the manager are classes whose methods
update their fields. Each method says what its new state is, in terms of the
same functions.

## Model

| member | source | states |
|---|---|---|
| Bytes.Zeros | custom_components/higoal/client/mq.py:27-29 | the default frame has 48 bytes, all zero |
| Text.DigitValue | custom_components/higoal/client/utils.py:88 | a decimal digit has a value below 10 |
| Text.PyInt | custom_components/higoal/client/utils.py:88-117 | on strings over letters and digits, `int()` succeeds exactly on non-empty all-digit strings |
| Text.Decimal | custom_components/higoal/client/utils.py:88 | every natural number has a non-empty all-digit decimal spelling |
| Text.DecimalRoundTrip | custom_components/higoal/client/utils.py:88 | reading the decimal spelling of `n` back gives `n` |
| Text.HexValue | custom_components/higoal/client/utils.py:132 | a hex digit (either case) has a value below 16 |
| Text.HexChar | custom_components/higoal/client/utils.py:132 | every value below 16 has a hex digit that reads back as that value |
| Text.PyHexInt | custom_components/higoal/client/utils.py:132 | `int(s, 16)` on a slice of at most two characters gives a value from -15 to 255, and only when the slice holds a hexadecimal digit |
| Text.PyHexIntStrips | custom_components/higoal/client/utils.py:132 | the accepted shapes are exactly those that `int()` reads after stripping white space from both ends: one or two digits, or a sign and one digit |
| Text.Split | custom_components/higoal/client/device.py:193-194 | `str.split(sep)` gives one more piece than there are separators, and no piece contains the separator |
| Text.SplitJoin | custom_components/higoal/client/device.py:193-194 | joining the pieces with the separator gives back the original string (nothing is lost) |
| Checksum.ComputeChecksum | custom_components/higoal/client/utils.py:16-35 | the two nested loops compute the register over `data[start..end]`, both ends included; when the range guard fires the result is 0 and no byte is read |
| Checksum.CrcStep | custom_components/higoal/client/utils.py:27-34 | one more byte of the range updates the register by XORing the byte in and running the eight rounds |
| Checksum.MixIn | custom_components/higoal/client/utils.py:26-32 | the eight shift/conditional-XOR rounds applied to the byte XORed into the register |
| Checksum.GetChecksum | custom_components/higoal/client/utils.py:38-42 | the trailer is exactly two bytes: the checksum with secret 28, then the checksum with secret 122, over the same range |
| Checksum.CrcCongruent | custom_components/higoal/client/utils.py:12-13 | the register sees data only through `& 0xFF`, so inputs that agree modulo 256 give the same register |
| Checksum.ChecksumReadsOnlyRange | custom_components/higoal/client/utils.py:25-42 | the trailer depends only on `data[start..end]`: data agreeing on that range (modulo 256) gives the same pair |
| Mapper.Replace | custom_components/higoal/client/utils.py:89 | one `str.replace` of a single character by another, position by position |
| Mapper.Replacement | custom_components/higoal/client/utils.py:89-114 | each of the 26 replacement steps turns an upper-case letter into a digit |
| Mapper.Chain | custom_components/higoal/client/utils.py:89-114 | the first `k` replacement steps keep the length of the string |
| Mapper.ChainAt | custom_components/higoal/client/utils.py:89-114 | the replacement steps act on each character independently |
| Mapper.DigitForTable | custom_components/higoal/client/utils.py:89-114 | the grouped table sends every upper-case letter to a digit and leaves everything else unchanged |
| Mapper.Position | custom_components/higoal/client/utils.py:89-114 | a character is replaced in at most one of the 26 steps |
| Mapper.PositionInverts | custom_components/higoal/client/utils.py:89-114 | the letter of step `m` is replaced in step `m` and in no other (no letter appears twice) |
| Mapper.PositionOfLetter | custom_components/higoal/client/utils.py:89-114 | exactly the upper-case letters have a replacement step, and that step agrees with the grouped table D/X/O→0 … Q/R/P→9 |
| Mapper.CharChainFirst | custom_components/higoal/client/utils.py:89-114 | after `k` steps a character is either its own replacement digit (if its step comes before `k`) or unchanged; a digit produced earlier is never replaced again |
| Mapper.CharChainTable | custom_components/higoal/client/utils.py:89-114 | the whole chain of 26 replacements equals the grouped letter-to-digit table |
| Mapper.SubstituteIsPerCharacter | custom_components/higoal/client/utils.py:89-114 | the substituted string has the same length, and each character is the table image of the original one |
| Mapper.Digits | custom_components/higoal/client/utils.py:89-114 | an accepted id substitutes to an all-digit string of the same length |
| Mapper.ParseCustomEncodedString | custom_components/higoal/client/utils.py:86-117 | the result is -1 or more; it is non-negative exactly when the id is non-empty and all upper-case letters and digits, and then it is the decimal value of the substituted digits |
| Mapper.ParseDecimal | custom_components/higoal/client/utils.py:86-117 | a plain decimal id decodes to its own value (digits are left unchanged) |
| Mapper.RejectsLowerCaseAndEmpty | custom_components/higoal/client/utils.py:116-117 | an id with a lower-case letter, or the empty id, decodes to -1 |
| Mapper.ExampleLetters | custom_components/higoal/client/utils.py:89-114 | `"AB12"` decodes to 4812 (A→4, B→8) |
| Commands.Seal | custom_components/higoal/client/utils.py:166-168 | replacing the last two bytes with the trailer keeps the length and bytes 0..45 |
| Commands.SealedTrailerMatches | custom_components/higoal/client/utils.py:166-168 | the trailer of a sealed frame is the checksum pair recomputed over the sealed frame's bytes 2..20 |
| Commands.TokenBytes | custom_components/higoal/client/utils.py:125-134 | a token decodes to exactly 16 bytes |
| Commands.Pair | custom_components/higoal/client/utils.py:130-132 | `token[2k:2k+2]` has at most two characters, and is exactly characters `2k, 2k+1` when the token reaches that far |
| Commands.DecodeToken | custom_components/higoal/client/utils.py:125-134 | a decoded token has 16 bytes |
| Commands.EncodeToken | custom_components/higoal/client/utils.py:125-134 | the loop returns the 16 values of the pairs, or the failure (`ValueError`) as soon as one pair is rejected by `int()` or is negative |
| Commands.WellFormedDecodes | custom_components/higoal/client/utils.py:125-134 | a token of 32 or more hexadecimal digits decodes to its digit pairs |
| Commands.ShortTokenRejected | custom_components/higoal/client/utils.py:125-134 | a token shorter than 31 characters raises: its last pair is empty |
| Commands.OddTokenAccepted | custom_components/higoal/client/utils.py:125-134 | a 31-digit token is accepted, and its last byte is the value of its single last digit |
| Commands.LenientPairs | custom_components/higoal/client/utils.py:132 | the pairs `" f"`, `"+f"` and `"f "` read as 15 and `"-0"` as 0; `"-f"` raises |
| Commands.HexString | custom_components/higoal/client/utils.py:125-134 | the hex spelling of `n` bytes has `2n` characters |
| Commands.HexStringAt | custom_components/higoal/client/utils.py:125-134 | characters `2k` and `2k+1` of the spelling are hex digits whose value is byte `k` |
| Commands.TokenRoundTrip | custom_components/higoal/client/utils.py:125-134 | the hex spelling of any 16 bytes is a well-formed token, and decoding it gives those bytes back |
| Commands.TokenReadsPrefix | custom_components/higoal/client/utils.py:125-134 | only the first 32 characters of a token matter, for both the bytes and the failure |
| Commands.AuthTemplate | custom_components/higoal/client/utils.py:142-143 | the auth template is a full frame |
| Commands.TokenIndexAt | custom_components/higoal/client/utils.py:146-165 | each frame position receives at most one token byte |
| Commands.SlotTablesAgree | custom_components/higoal/client/utils.py:146-165 | the scatter table is a bijection between the 16 token bytes and their 16 frame positions, and the four zeroed home bytes 11, 14, 17 and 21 receive none |
| Commands.AuthBody | custom_components/higoal/client/utils.py:142-165 | the scattered auth command has 48 bytes |
| Commands.ScatterToken | custom_components/higoal/client/utils.py:146-165 | the twenty writes put token byte `k` at its table position and home bytes 1, 0, 3 and 2 at 11, 14, 17 and 21, changing nothing else |
| Commands.AuthBodyFromSlots | custom_components/higoal/client/utils.py:146-165 | the frame the source writes slot by slot is the scattered auth command |
| Commands.AuthFrame | custom_components/higoal/client/utils.py:137-168 | the auth frame has 48 bytes |
| Commands.GenerateAuthCommand | custom_components/higoal/client/utils.py:137-168 | the in-place writes produce the specified auth frame for the decoded token, and a token that `encode_token` rejects gives no frame |
| Commands.AuthFrameLayout | custom_components/higoal/client/utils.py:142-168 | header `170,90,1,1,1,2,240,1,0`; token byte `k` at its table position (e.g. 9←2, 25←0, 28←1); bytes 11, 14, 17, 21 and 29..45 zero; trailer over 2..20; the token can be read back from the frame |
| Commands.LittleEndian | custom_components/higoal/client/utils.py:190 | `to_bytes(4, "little")` gives four bytes |
| Commands.FromLittleEndian | custom_components/higoal/client/utils.py:190 | four bytes read back as a number below 2^32 |
| Commands.LittleEndianRoundTrip | custom_components/higoal/client/utils.py:190 | reading back the four bytes of `n` gives `n` |
| Commands.FromLittleEndianRoundTrip | custom_components/higoal/client/utils.py:190 | writing out the number four bytes read as gives those bytes back |
| Commands.PyIndex | custom_components/higoal/client/utils.py:216-219 | a Python index in -48..47 names a position of the frame |
| Commands.CommandTemplate | custom_components/higoal/client/utils.py:193-215 | the command template is a full frame |
| Commands.CommandBody | custom_components/higoal/client/utils.py:193-219 | the command with its action bytes written is a full frame |
| Commands.CommandFrame | custom_components/higoal/client/utils.py:171-222 | a command is either empty or a full frame |
| Commands.GenerateCommand | custom_components/higoal/client/utils.py:171-222 | the in-place writes produce the specified command |
| Commands.CommandEmptyIff | custom_components/higoal/client/utils.py:183-187 | the command is empty exactly when the decoded id is at most 0 or the type is at most 0 |
| Commands.CommandLayout | custom_components/higoal/client/utils.py:190-222 | a built command is 48 bytes: 255 at `34+entity` for a shutter action, `action` at `18+entity` for an action, the template elsewhere before the trailer, which is the checksum pair over 2..20 |
| Commands.StatusCommandLayout | custom_components/higoal/client/utils.py:190-222 | a status command has header `170,90,1,1,1,2,1,1,0`, the little-endian id in 9..12 (which reads back as the decoded id), 0 at 13, `type & 0xFF` at 14, and zeros up to the trailer |
| Commands.ActionAddressesSameDevice | custom_components/higoal/client/utils.py:190-222 | an action command has the same id bytes and type byte as the status command; byte 7 is 2 instead of 1; `action` is at `18+entity`; 255 is at `34+entity` for a shutter |
| Commands.VerifyResponse | custom_components/higoal/client/utils.py:225-230 | an offline reply always matches; any other reply raises `IndexError` exactly when the command or the reply has 14 bytes or fewer |
| Commands.ReplyMatchesDevice | custom_components/higoal/client/utils.py:225-230 | a reply matches a device's status command exactly when it reports the device offline, or names the same decoded id and type |
| Commands.ModelName | custom_components/higoal/client/device.py:184-186 | the model name is a name from the table or "UNKNOWN", which the table never gives |
| Commands.ModelNameKnown | custom_components/higoal/client/utils.py:234-267 | the model name is "UNKNOWN" exactly for the types outside 1..31 and 160; otherwise it is the table's entry |
| Devices.Clamp | custom_components/higoal/client/device.py:136 | `max(min(v, 100), 0)`: at most 100, `v` itself inside 0..100, and 0 or 100 outside that range |
| Devices.LevelOffset | custom_components/higoal/client/device.py:131-134 | the level is read inside the frame |
| Devices.Level | custom_components/higoal/client/device.py:125-138 | a level is at most 100 |
| Devices.TurnedOnImpliesOnline | custom_components/higoal/client/device.py:111-123 | a button that is on is online |
| Devices.ZeroFrameReads | custom_components/higoal/client/device.py:140-146 | the zero frame used when there is no reply reads as off, offline, and level 0 taken from `34+id` |
| Devices.LevelIsByte | custom_components/higoal/client/device.py:125-138 | the level is the selected byte when it is at most 100, and 100 otherwise |
| Devices.OnAction | custom_components/higoal/client/device.py:43-47 | the on action is 255 or 240, and 255 for every type but the shutter |
| Devices.OffAction | custom_components/higoal/client/device.py:49-52 | the off action is 240 or 0, and 0 exactly for a shutter |
| Devices.OnOffActions | custom_components/higoal/client/device.py:43-52 | the on action is 255 and the off action 240, except for shutters: off is 0, and on is 240 exactly when the shutter is unnamed |
| Devices.UnchangedStateKeepsOnOff | custom_components/higoal/client/device.py:30-41 | when no change is reported, on and online read the same before and after |
| Devices.ShutterLevelMayMoveUnreported | custom_components/higoal/client/device.py:30-41 | a shutter level read from `34+id` can move without `set_response` reporting a change |
| Devices.SlotsUpTo | custom_components/higoal/client/device.py:207-214 | the first `n` button pairs give at most `n` slots, each holding its pair's position, name and non-zero type |
| Devices.SlotsUpToOrdered | custom_components/higoal/client/device.py:207-214 | the slots come in strictly increasing position order |
| Devices.SlotsComplete | custom_components/higoal/client/device.py:207-214 | every pair with a non-zero type among the first `n` gets a slot |
| Devices.Describe | custom_components/higoal/client/device.py:207-214 | one slot per entity |
| Devices.DescribeAppend | custom_components/higoal/client/device.py:212-214 | appending an entity appends its slot |
| Devices.DescribedIdsIncrease | custom_components/higoal/client/device.py:207-214 | entities built from the slots carry strictly increasing ids |
| Devices.ChangedAmong | custom_components/higoal/client/device.py:243-250 | the changed entities are at most as many as the entities, and each is an entity that reports a change |
| Devices.ChangedAmongOrdered | custom_components/higoal/client/device.py:243-250 | when the entities' ids increase, so do those of the changed entities: entity order is kept |
| Devices.ChangedAmongStep | custom_components/higoal/client/device.py:245-248 | one more entity adds itself exactly when it reports a change |
| Devices.ChangedAmongComplete | custom_components/higoal/client/device.py:243-250 | every entity that reports a change is among the changed ones |
| Devices.SameFrameChangesNothing | custom_components/higoal/client/device.py:30-41 | replaying a frame reports no change |
| Devices.AgreeingFramesChangeNothing | custom_components/higoal/client/device.py:30-41 | frames that agree on every entity's state and level bytes report no change |
| Devices.Entity.constructor | custom_components/higoal/client/device.py:17-24 | a new entity has its fields and no response |
| Devices.Entity.SetResponse | custom_components/higoal/client/device.py:30-41 | for an id up to 10 the frame is stored and the result is true exactly when byte `18+id` or `37+id` differs from the previous frame (zeros if there was none); for a larger id the read of `37+id` raises `IndexError` (no result) before anything is stored |
| Devices.Entity.CurrentResponse | custom_components/higoal/client/device.py:140-146 | the cached frame is returned without a request; with none, zeros are returned together with the device's status command as the request for the manager |
| Devices.Entity.IsTurnedOn | custom_components/higoal/client/device.py:111-116 | on exactly when byte `18+id` is 255; a status command is requested exactly when nothing is cached |
| Devices.Entity.IsOnline | custom_components/higoal/client/device.py:118-123 | online exactly when byte `18+id` is not 0; a status command is requested exactly when nothing is cached |
| Devices.Entity.Percentage | custom_components/higoal/client/device.py:125-138 | None without a request unless shutter or dimmer; otherwise the clamped level from `34+id`, or from `37+id` when `26+id` is non-zero, and a status command is requested exactly when nothing is cached |
| Devices.Entity.TurnOn | custom_components/higoal/client/device.py:54-67 | the action command for this button with its on action |
| Devices.Entity.TurnOff | custom_components/higoal/client/device.py:69-86 | the action command with the off action; a shutter sends its on command |
| Devices.Entity.SetPercentage | custom_components/higoal/client/device.py:88-103 | nothing unless a dimmer; for a dimmer without an address or with an id of 11 or more, the `IndexError` of the level write; otherwise the action command with action 241 and the clamped level written at `37+id` |
| Devices.Entity.RelatedEntity | custom_components/higoal/client/device.py:148-162 | something exactly for a named shutter whose next entity is a shutter, and then that next entity |
| Devices.RoutingKeyOf | custom_components/higoal/client/device.py:218-221 | a routing key has four bytes |
| Devices.Device.KeyIsStatusBytes | custom_components/higoal/client/device.py:218-229 | a device has a key exactly when its status command is non-empty; the key is bytes 9..12 of that command, and it reads back as the decoded id |
| Devices.Device.InitFrom | custom_components/higoal/client/device.py:188-216 | the record's fields are copied; entities stand one-to-one for the non-zero-type slots of the zipped name/type lists, in order, with their positions as ids; no status yet |
| Devices.BuildEntities | custom_components/higoal/client/device.py:207-214 | the loop builds one entity of this device, with no response, per non-zero-type slot of the zipped lists, in order |
| Devices.Device.Identifier | custom_components/higoal/client/device.py:218-221 | `identifier` is the device's routing key |
| Devices.Device.StatusCommand | custom_components/higoal/client/device.py:223-229 | the read-only command for this device |
| Devices.Device.Button | custom_components/higoal/client/device.py:231-237 | None exactly when no entity has the name; otherwise the first entity with it |
| Devices.Device.SetCurrentStatusResponse | custom_components/higoal/client/device.py:239-250 | a frame equal to the cached one returns nothing and changes no entity; any other is cached, stored in every entity, and returns exactly the entities that report a change, in order |
| Devices.ChangedUpToPrefix | custom_components/higoal/client/device.py:245-250 | collecting over the first `n` entities by index gives the changed entities of that prefix |
| Devices.ChangedUpToAll | custom_components/higoal/client/device.py:245-250 | collecting over all entities by index gives the changed entities |
| Devices.GiveOne | custom_components/higoal/client/device.py:245-248 | one entity stores the frame, and the result says whether it reports a change |
| Devices.GiveToAll | custom_components/higoal/client/device.py:245-250 | every entity stores the frame, and the collected list is the changed entities |
| Devices.WriteByte | custom_components/higoal/client/device.py:101-102 | writing one byte of the command changes that byte only |
| Devices.SetPercentageFrame | custom_components/higoal/client/device.py:88-103 | for ids up to 8 the level command keeps action 241 at `18+id`, the level at `37+id`, and a trailer that still matches |
| Broker.NewMessage | custom_components/higoal/client/mq.py:27-33 | no data gives 48 zeros; data is accepted exactly when it has 48 bytes, and is kept unchanged; otherwise the error carries its length |
| Broker.FromBytes | custom_components/higoal/client/mq.py:39-42 | `from_bytes` accepts exactly 48 bytes and keeps them unchanged; otherwise the error carries the length |
| Broker.IsStatus | custom_components/higoal/client/mq.py:48-50 | a message is a status message exactly when its first two bytes are 187, 91 |
| Broker.MessageRoundTrip | custom_components/higoal/client/mq.py:35-42 | `from_bytes(bytes(m)) == m`, and `from_bytes` accepts only 48-byte data, unchanged |
| Broker.EmptyIsNotStatus | custom_components/higoal/client/mq.py:27-29 | the default message is not a status message |
| Broker.Failing | custom_components/higoal/client/mq.py:181-190 | the logged failures are raising handlers, in call order |
| Broker.FailingComplete | custom_components/higoal/client/mq.py:181-190 | every raising handler is logged |
| Broker.MessageBroker.constructor | custom_components/higoal/client/mq.py:65-81 | disconnected, no socket, no handlers |
| Broker.MessageBroker.AddMessageHandler | custom_components/higoal/client/mq.py:83-86 | a new handler is appended; re-adding one leaves the table unchanged |
| Broker.MessageBroker.OpenConnection | custom_components/higoal/client/mq.py:91-110 | after `stop()` nothing changes and the result is false; otherwise an existing connection is kept, or the socket is stored, and both flags are raised |
| Broker.MessageBroker.Disconnect | custom_components/higoal/client/mq.py:139-154 | not connected, not running, no socket |
| Broker.MessageBroker.SendMessage | custom_components/higoal/client/mq.py:156-162 | the frame goes out exactly when connected and the transport succeeds; otherwise nothing is written |
| Broker.MessageBroker.SendMessageInternal | custom_components/higoal/client/mq.py:164-179 | nothing is written without a socket or connection, or when `sendall` fails |
| Broker.MessageBroker.OnReceive | custom_components/higoal/client/mq.py:181-190 | every handler is called in registration order, and exactly the raising ones are logged |
| Broker.MessageBroker.Stop | custom_components/higoal/client/mq.py:214-225 | no handlers, disconnected, stopped |
| Routing.ScrubAt | custom_components/higoal/client/manager.py:68-74 | bytes 2, 3, 4, 46 and 47 become 0; every other byte is unchanged |
| Routing.ScrubEqualIff | custom_components/higoal/client/manager.py:68-74 | two frames scrub alike exactly when they agree outside the volatile bytes |
| Routing.ScrubKeepsRouting | custom_components/higoal/client/manager.py:56-74 | scrubbing is idempotent and keeps the status marker and the id bytes |
| Routing.ScrubInPlace | custom_components/higoal/client/manager.py:68-74 | the in-place zeroing computes the scrubbed frame |
| Routing.KeyedBy | custom_components/higoal/client/manager.py:35-38 | every device in the map is filed under its own identifier |
| Routing.KeyedByHasEveryKey | custom_components/higoal/client/manager.py:35-38 | every device's identifier is a key |
| Routing.KeyedByLastWins | custom_components/higoal/client/manager.py:35-38 | the device under a key is the last one with that identifier |
| Routing.StatusMarker | custom_components/higoal/client/manager.py:56-58 | scrubbing keeps whether a frame is a status frame; the auth frame and every built command are full frames that are not status frames |
| Routing.Manager.constructor | custom_components/higoal/client/manager.py:20-33 | no devices, no broker, nothing notified |
| Routing.Manager.GetDevices | custom_components/higoal/client/manager.py:35-38 | the device map is the identifier map of the devices |
| Routing.Manager.OnReceive | custom_components/higoal/client/manager.py:55-78 | non-status frames and unknown ids change nothing and notify nobody; otherwise only the addressed device gets the scrubbed frame, and the listener gets exactly its changed entities, in order |
| Routing.Manager.OnReceiveTwice | custom_components/higoal/client/manager.py:68-78 | a second frame that agrees with the first outside the volatile bytes notifies nobody |
| Routing.Manager.Deliver | custom_components/higoal/client/manager.py:74-76 | the device holds the frame and no other device changes |
| Routing.Manager.Notify | custom_components/higoal/client/manager.py:76-78 | one notification per changed entity, in order |
| Routing.Manager.SendCommand | custom_components/higoal/client/manager.py:80-81 | a command that is not 48 bytes is rejected unsent; a full frame goes to the broker's send |
| Legacy.SendCommand | custom_components/higoal/higoal_client.py:584-603 | at most `max_attempts` writes; the reply is the first usable one (48 bytes or more), unchanged; None only after `max_attempts` failures |
| Legacy.SendCommandFirstGood | custom_components/higoal/higoal_client.py:584-603 | if attempt `k` is the first usable one, it is returned after `k+1` writes |
| Legacy.LegacyLevel | custom_components/higoal/higoal_client.py:346 | `clamp(status[-10])`: at most 100, and byte 38 of a frame |
| Legacy.LegacyLevelIgnoresButton | custom_components/higoal/higoal_client.py:339-347 | the legacy level is byte 38 for every button, and it can differ from the current client's level |
| Legacy.LegacyEntity.constructor | custom_components/higoal/higoal_client.py:269-275 | a new entity has its fields and no response |
| Legacy.LegacyEntity.CurrentResponse | custom_components/higoal/higoal_client.py:349-355 | a cached reply of 48 bytes or more is served without a request; otherwise the status command is requested and its reply stored and returned |
| Legacy.LegacyEntity.IsTurnedOn | custom_components/higoal/higoal_client.py:325-330 | on exactly when byte `18+id` of the served reply is 255; `TypeError` when the reply is None, `IndexError` exactly when it is too short; a status command is requested exactly when nothing usable is cached; the served reply is stored as the new cache |
| Legacy.LegacyEntity.IsOnline | custom_components/higoal/higoal_client.py:332-337 | online exactly when byte `18+id` of the served reply is not 0; `TypeError` when the reply is None, `IndexError` exactly when it is too short; a status command is requested exactly when nothing usable is cached; the served reply is stored as the new cache |
| Legacy.LegacyEntity.Percentage | custom_components/higoal/higoal_client.py:339-347 | nothing, and no request, unless a shutter; otherwise the legacy level of the served reply, `TypeError` when the reply is None, and `IndexError` exactly when it has fewer than ten bytes; for a shutter the served reply is stored as the new cache |
| Legacy.LegacyEntity.TurnOn | custom_components/higoal/higoal_client.py:288-301 | the current client's on command; the reply is stored |
| Legacy.LegacyEntity.TurnOff | custom_components/higoal/higoal_client.py:303-320 | the current client's off command (the on command for a shutter); the reply is stored |
| Legacy.LegacyEntity.RelatedEntity | custom_components/higoal/higoal_client.py:357-371 | something exactly for a named shutter whose first field-equal button of the device is followed by a shutter, and then that next button |
| Legacy.Slots | custom_components/higoal/higoal_client.py:417-425 | one slot per button |
| Legacy.SlotsAppend | custom_components/higoal/higoal_client.py:421-425 | appending a button appends its slot |
| Legacy.BuildButtons | custom_components/higoal/higoal_client.py:417-425 | the buttons stand one-to-one for the non-zero-type slots, in order, without responses |
| Legacy.LegacyDevice.InitFrom | custom_components/higoal/higoal_client.py:395-427 | the record's fields are copied, and the buttons are those of the non-zero-type slots |
| Legacy.LegacyDevice.StatusCommand | custom_components/higoal/higoal_client.py:429-437 | the read-only command for this device |
| Legacy.LegacyDevice.Button | custom_components/higoal/higoal_client.py:439-445 | None exactly when no button has the name; otherwise the first button with it |
| Legacy.LegacyDevice.SetCurrentStatusResponse | custom_components/higoal/higoal_client.py:447-449 | every button holds the same response |

## Left out

- Home Assistant glue, HTTP sign-in and device listing, the asyncio socket client, and `refresh_connection_if_needed` are left out. They are I/O and wall-clock code around the core.
- Broker threads, `connect`'s retry loop, `run`, `on_connect` and `on_disconnect` are left out. `OpenConnection` models the `stopped` check and the state change of a successful connect; a connect attempt that fails and retries is not modelled. Sockets are opaque handles; whether `sendall` succeeds is the `transportOk` input.
- Locks and concurrency are not modelled. Every method runs alone.
- Handlers are identity numbers. Which handler calls raise is the `raising` input; what a handler does is not modelled.
- The entity listener is a recorded sequence of notified entities. A manager without a listener is not modelled.
- `Devices.Entity.TurnOn`, `TurnOff`, `SetPercentage`, `CurrentResponse`, `IsTurnedOn`, `IsOnline` and `Percentage` return the command frame (for the queries, the status command as `request`) instead of sending it through the manager. The `ValueError` that `Message(b"")` raises on the empty command of a device without an address, and the `AttributeError` of a manager without a broker, are not modelled. `Entity.status_command` and `can_set_percentage` are plain delegations and have no members of their own. `Device.model_name` is `Commands.ModelName`.
- `Manager.refresh` (an HTTP fetch) and the unknown-device TODO are left out.
- `generate_random_number_in_range` is left out, because it is randomness.
- `Message.__repr__` is logging only and is not modelled.
- `Devices.Entity.Percentage`, `Devices.Entity.SetPercentage`, `Legacy.LegacyEntity.Percentage`: floats are not modelled. The level is the clamped integer byte, not `value / 100`. `SetPercentage` takes the already scaled `int(percentage * 100)`.
- `Mapper.ParseCustomEncodedString`: the lenience of `int()` toward whitespace, signs, underscores and other Unicode digits is not modelled. Ids are restricted to printable ASCII with no white space, sign or underscore (`Text.Plain`); among those, an id with a character other than A–Z and 0–9 decodes to -1.
- `Commands.CommandFrame`: the `OverflowError` of `to_bytes(4)` for ids of 2^32 or more is excluded by a precondition (`IdFits`). So are the `IndexError` when `18+entity` or, for a shutter, `34+entity` falls outside the frame, and the `ValueError` of `bytes()` for an action outside 0..255 (`ActionFits`). `Commands.GenerateCommand`, `Devices.Entity.TurnOn`, `Devices.Entity.TurnOff`, `Devices.Entity.SetPercentage`, `Legacy.LegacyEntity.TurnOn` and `Legacy.LegacyEntity.TurnOff` inherit these preconditions.
- `Text.PyHexInt`, `Commands.EncodeToken`: `int()` also accepts non-ASCII Unicode digits; the model reads only the hexadecimal digits 0–9, a–f and A–F, and rejects every other character.
- `Devices.Device.InitFrom`, `Legacy.LegacyDevice.InitFrom`: a `buttonType` piece that `int()` rejects raises in the source. The model requires every piece used to be a plain decimal (`TypesParse`).
- `Devices.SetPercentageFrame`: only ids up to 8 are covered. For ids 9 and 10 the level byte `37+id` overwrites a trailer byte, and the trailer then no longer matches the frame.
- `Devices.Device.routingKey`: `identifier` is recomputed on every access in the source. The model stores it at construction, which is equivalent because a device's id and type never change. `Devices.Device.Identifier` proves the two agree.
- `Routing.Manager.GetDevices`: it takes the device list as an input, since the list comes from the HTTP repository. Every device must have a non-empty status command; in the source, `identifier` raises `IndexError` on an empty one. Every entity id must be at most 10 (see the next line).
- `Routing.Manager.OnReceive`, `Routing.Manager.Valid`, `Routing.Manager.GetDevices`, `Routing.Manager.Deliver`, `Devices.Device.SetCurrentStatusResponse`, `Devices.GiveToAll`: devices with an entity id of 11 or more are excluded by a precondition. For such a device the source sets `_status` first, lets the earlier entities store the frame, then raises `IndexError` in `set_response` at `37+id`. The broker catches and logs the error, so the listener is not told of the changes already made, and a repeat of the same frame returns early with nothing. `Devices.Entity.SetResponse` alone models that raise.
- `Devices.Entity.IsTurnedOn`, `Devices.Entity.IsOnline`, `Devices.Entity.Percentage`: the `IndexError` of reading the state byte `18+id`, or the level byte, past the frame is excluded by a precondition (ids of 30 or more, `LevelReadable`).
- `Legacy.LegacyEntity.RelatedEntity`: the dataclass `==` is modelled as the agreement of id, name, type and reply for buttons of the same device object, which is what it compares there; buttons are required to belong to their device, as `init_from` builds them.
- `Legacy.SendCommand`: the replies of the successive write attempts are an input sequence, with None for a write that raised. The reconnect between attempts is left out.
- `Legacy.LegacyEntity.TurnOn`, `Legacy.LegacyEntity.TurnOff`, `Legacy.LegacyEntity.CurrentResponse`, `Legacy.LegacyEntity.IsTurnedOn`, `Legacy.LegacyEntity.IsOnline`, `Legacy.LegacyEntity.Percentage`: the reply sent back is an input, not the result of a send. The queries return the status command as `request` instead of sending it.
- The 26 chained `str.replace` calls are modelled as a table of 26 steps applied in order (`Mapper.Chain`). The model proves that this chain equals the grouped letter table.
