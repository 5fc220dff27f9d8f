/** The 48-byte frames the client writes: the auth frame that carries the
    user's token, and the status and action commands addressed to one
    device. Also the response matcher and the table of model names. */
module Commands {
  import opened Wrappers
  import opened Bytes
  import opened Text
  import opened Checksum
  import opened Mapper

  // ---------------------------------------------------------------------
  // Frames common to both kinds: the checksum trailer.
  // ---------------------------------------------------------------------

  /** `bytes(command)[:-2] + get_checksum(command, 2, 20)`: the last two
      bytes of a 48-byte command replaced by its trailer. */
  function Seal(command: seq<byte>): (frame: seq<byte>)
    requires |command| == FrameSize
    ensures |frame| == FrameSize
    ensures frame[..46] == command[..46]
  {
    command[..46] + Trailer(command, 2, 20)
  }

  /** A sealed frame carries the trailer of its own bytes 2..20, so a
      receiver that recomputes it over the frame it got finds it equal. */
  lemma SealedTrailerMatches(command: seq<byte>)
    requires |command| == FrameSize
    ensures Seal(command)[46..] == Trailer(Seal(command), 2, 20)
  {
    ChecksumReadsOnlyRange(command, Seal(command), 2, 20);
  }

  // ---------------------------------------------------------------------
  // encode_token
  // ---------------------------------------------------------------------

  /** The everyday token: at least 32 characters, of which the first 32
      are hexadecimal digits (in either case). */
  predicate WellFormedToken(token: string)
  {
    |token| >= 32 && forall i :: 0 <= i < 32 ==> IsHexDigit(token[i])
  }

  /** `int(pair, 16)` for a pair of hexadecimal digits. */
  function HexByte(pair: string): byte
    requires |pair| == 2 && IsHexDigit(pair[0]) && IsHexDigit(pair[1])
  {
    HexValue(pair[0]) * 16 + HexValue(pair[1])
  }

  /** The 16 bytes of a well-formed token: byte `k` is the value of characters `2k, 2k+1`. */
  function TokenBytes(token: string): (tok: seq<byte>)
    requires WellFormedToken(token)
    ensures |tok| == 16
  {
    seq(16, k requires 0 <= k < 16 => HexByte(token[2 * k..2 * k + 2]))
  }

  /** `token[2k : 2k + 2]`: Python's slice, cut short at the end of the token. */
  function Pair(token: string, k: nat): (pair: string)
    requires k < 16
    ensures |pair| <= 2
    ensures 2 * k + 2 <= |token| ==> pair == token[2 * k..2 * k + 2]
  {
    var lo := if 2 * k < |token| then 2 * k else |token|;
    var hi := if 2 * k + 2 < |token| then 2 * k + 2 else |token|;
    token[lo..hi]
  }

  /** `byte_arr[k] = int(pair, 16)`: None when `int` raises `ValueError`,
      or when the value is negative and the `bytearray` store raises it. */
  function PairByte(pair: string): Option<byte>
    requires |pair| <= 2
  {
    var v := PyHexInt(pair);
    if v.Some? && 0 <= v.value then Some(v.value) else None
  }

  /** What `encode_token` returns: the 16 pair values, or None for the
      `ValueError` that the first unusable pair raises. */
  function DecodeToken(token: string): (tok: Option<seq<byte>>)
    ensures tok.Some? ==> |tok.value| == 16
  {
    if forall k :: 0 <= k < 16 ==> PairByte(Pair(token, k)).Some?
    then Some(seq(16, k requires 0 <= k < 16 => PairByte(Pair(token, k)).value))
    else None
  }

  /** `encode_token`: a 16-byte array filled two characters at a time; the
      first pair that `int(pair, 16)` or the store rejects raises. */
  method EncodeToken(token: string) returns (tok: Option<seq<byte>>)
    ensures tok == DecodeToken(token)
  {
    var byteArr := new byte[16];
    var i := 0;
    while i < 32
      invariant 0 <= i <= 32 && i % 2 == 0
      invariant forall k :: 0 <= k < i / 2 ==> PairByte(Pair(token, k)).Some? && byteArr[k] == PairByte(Pair(token, k)).value
    {
      var lo := if i < |token| then i else |token|;
      var hi := if i + 2 < |token| then i + 2 else |token|;
      var pair := token[lo..hi];
      assert pair == Pair(token, i / 2);
      var value := PyHexInt(pair);
      if value.None? || value.value < 0 {
        assert PairByte(Pair(token, i / 2)).None?;
        return None;
      }
      byteArr[i / 2] := value.value;
      i := i + 2;
    }
    assert byteArr[..] == seq(16, k requires 0 <= k < 16 => PairByte(Pair(token, k)).value);
    tok := Some(byteArr[..]);
  }

  /** A well-formed token decodes to its pair values. */
  lemma WellFormedDecodes(token: string)
    requires WellFormedToken(token)
    ensures DecodeToken(token) == Some(TokenBytes(token))
  {
    forall k | 0 <= k < 16 ensures PairByte(Pair(token, k)) == Some(HexByte(token[2 * k..2 * k + 2])) {
      var pair := token[2 * k..2 * k + 2];
      assert pair[0] == token[2 * k] && pair[1] == token[2 * k + 1];
    }
    assert seq(16, k requires 0 <= k < 16 => PairByte(Pair(token, k)).value) == TokenBytes(token);
  }

  /** A token shorter than 31 characters raises: its last pair is empty. */
  lemma ShortTokenRejected(token: string)
    requires |token| < 31
    ensures DecodeToken(token) == None
  {
    assert Pair(token, 15) == [];
  }

  /** A 31-character token of hexadecimal digits is accepted, and its last
      byte is the value of its last (single) digit. */
  lemma OddTokenAccepted(token: string)
    requires |token| == 31 && forall i :: 0 <= i < 31 ==> IsHexDigit(token[i])
    ensures DecodeToken(token).Some?
    ensures DecodeToken(token).value[15] == HexValue(token[30])
  {
    forall k | 0 <= k < 16 ensures PairByte(Pair(token, k)).Some? {
      var pair := Pair(token, k);
      if k < 15 {
        assert pair[0] == token[2 * k] && pair[1] == token[2 * k + 1];
      } else {
        assert pair == [token[30]];
      }
    }
    assert Pair(token, 15) == [token[30]];
  }

  /** `int()` strips white space and reads a sign: the pairs `" f"`, `"+f"`
      and `"f "` are all 15, and `"-0"` is 0; `"-f"` raises. */
  lemma LenientPairs()
    ensures PairByte(" f") == Some(15) && PairByte("+f") == Some(15) && PairByte("f ") == Some(15)
    ensures PairByte("-0") == Some(0) && PairByte("-f") == None
  {
    assert IsSpace(' ') && IsHexDigit('f') && HexValue('f') == 15;
  }

  /** The lower-case hexadecimal spelling of a byte string, two digits a byte. */
  function HexString(b: seq<byte>): (s: string)
    ensures |s| == 2 * |b|
  {
    if b == [] then [] else [HexChar(b[0] / 16), HexChar(b[0] % 16)] + HexString(b[1..])
  }

  lemma {:induction false} HexStringAt(b: seq<byte>, k: nat)
    requires k < |b|
    ensures IsHexDigit(HexString(b)[2 * k]) && IsHexDigit(HexString(b)[2 * k + 1])
    ensures HexValue(HexString(b)[2 * k]) * 16 + HexValue(HexString(b)[2 * k + 1]) == b[k]
  {
    if k > 0 {
      HexStringAt(b[1..], k - 1);
      assert HexString(b)[2 * k] == HexString(b[1..])[2 * (k - 1)];
      assert HexString(b)[2 * k + 1] == HexString(b[1..])[2 * (k - 1) + 1];
    }
  }

  /** Decoding the hexadecimal spelling of 16 bytes gives the bytes back. */
  lemma TokenRoundTrip(b: seq<byte>)
    requires |b| == 16
    ensures WellFormedToken(HexString(b)) && DecodeToken(HexString(b)) == Some(b)
  {
    var s := HexString(b);
    forall i | 0 <= i < 32 ensures IsHexDigit(s[i]) {
      HexStringAt(b, i / 2);
      assert i == 2 * (i / 2) || i == 2 * (i / 2) + 1;
    }
    forall k | 0 <= k < 16 ensures TokenBytes(s)[k] == b[k] {
      HexStringAt(b, k);
      assert s[2 * k..2 * k + 2][0] == s[2 * k] && s[2 * k..2 * k + 2][1] == s[2 * k + 1];
    }
    assert TokenBytes(s) == b;
    WellFormedDecodes(s);
  }

  /** Only the first 32 characters of a token matter. */
  lemma TokenReadsPrefix(t1: string, t2: string)
    requires |t1| >= 32 && |t2| >= 32 && t1[..32] == t2[..32]
    ensures DecodeToken(t1) == DecodeToken(t2)
  {
    forall k | 0 <= k < 16 ensures Pair(t1, k) == Pair(t2, k) {
      assert t1[2 * k..2 * k + 2] == t1[..32][2 * k..2 * k + 2];
      assert t2[2 * k..2 * k + 2] == t2[..32][2 * k..2 * k + 2];
    }
    assert (forall k :: 0 <= k < 16 ==> PairByte(Pair(t1, k)).Some?) == (forall k :: 0 <= k < 16 ==> PairByte(Pair(t2, k)).Some?);
    if DecodeToken(t1).Some? {
      assert DecodeToken(t1).value == DecodeToken(t2).value;
    }
  }

  // ---------------------------------------------------------------------
  // generate_auth_command
  // ---------------------------------------------------------------------

  const AuthHeader: seq<byte> := [170, 90, 1, 1, 1, 2, 240, 1, 0]

  /** `base_byte_array`: the header, 38 zero bytes and a final 1. */
  function AuthTemplate(): (t: seq<byte>)
    ensures |t| == FrameSize
  {
    AuthHeader + seq(38, _ => 0) + [1]
  }

  /** Where each of the 16 token bytes is placed in the auth frame. */
  const TokenSlot: seq<nat> := [25, 28, 9, 16, 26, 23, 15, 10, 13, 19, 27, 22, 12, 24, 18, 20]

  /** Where the four (always zero) home-id bytes are placed. */
  const HomeSlot: seq<nat> := [14, 11, 21, 17]

  /** The token byte that lands at `pos`, or -1 for a position that is not a token slot. */
  function TokenIndexAt(pos: int): (k: int)
    ensures -1 <= k < 16
  {
    match pos
    case 25 => 0
    case 28 => 1
    case 9 => 2
    case 16 => 3
    case 26 => 4
    case 23 => 5
    case 15 => 6
    case 10 => 7
    case 13 => 8
    case 19 => 9
    case 27 => 10
    case 22 => 11
    case 12 => 12
    case 24 => 13
    case 18 => 14
    case 20 => 15
    case _ => -1
  }

  /** The slot table and the position table are inverse to each other,
      and the home-id slots hold no token byte. */
  lemma SlotTablesAgree()
    ensures forall k :: 0 <= k < 16 ==> TokenIndexAt(TokenSlot[k]) == k
    ensures forall j :: 0 <= j < 4 ==> TokenIndexAt(HomeSlot[j]) == -1
    ensures forall pos :: TokenIndexAt(pos) >= 0 ==> TokenSlot[TokenIndexAt(pos)] == pos
  {
  }

  /** The auth command before sealing: the template with the token bytes
      scattered to their slots. */
  function AuthBody(tok: seq<byte>): (b: seq<byte>)
    requires |tok| == 16
    ensures |b| == FrameSize
  {
    seq(FrameSize, i requires 0 <= i < FrameSize =>
      var k := TokenIndexAt(i);
      if 0 <= k then tok[k] else AuthTemplate()[i])
  }

  /** The template with the token bytes and the (zero) home-id bytes
      written slot by slot, in the source's order, is the auth body. */
  lemma AuthBodyFromSlots(tok: seq<byte>)
    requires |tok| == 16
    ensures AuthTemplate()[9 := tok[2]][10 := tok[7]][11 := 0][12 := tok[12]]
      [13 := tok[8]][14 := 0][15 := tok[6]][16 := tok[3]]
      [17 := 0][18 := tok[14]][19 := tok[9]][20 := tok[15]]
      [21 := 0][22 := tok[11]][23 := tok[5]][24 := tok[13]]
      [25 := tok[0]][26 := tok[4]][27 := tok[10]][28 := tok[1]]
      == AuthBody(tok)
  {
    var command := AuthTemplate()[9 := tok[2]][10 := tok[7]][11 := 0][12 := tok[12]]
      [13 := tok[8]][14 := 0][15 := tok[6]][16 := tok[3]]
      [17 := 0][18 := tok[14]][19 := tok[9]][20 := tok[15]]
      [21 := 0][22 := tok[11]][23 := tok[5]][24 := tok[13]]
      [25 := tok[0]][26 := tok[4]][27 := tok[10]][28 := tok[1]];
    forall i | 0 <= i < FrameSize ensures command[i] == AuthBody(tok)[i] {
      if 9 <= i < 29 {
        assert AuthTemplate()[i] == 0;
      }
    }
  }

  function AuthFrame(tok: seq<byte>): (frame: seq<byte>)
    requires |tok| == 16
    ensures |frame| == FrameSize
  {
    Seal(AuthBody(tok))
  }

  /** `generate_auth_command`: the template copied into a list, the token
      bytes and home-id bytes written slot by slot, and the trailer. */
  method GenerateAuthCommand(token: string) returns (frame: Option<seq<byte>>)
    ensures DecodeToken(token).None? ==> frame == None
    ensures DecodeToken(token).Some? ==> frame == Some(AuthFrame(DecodeToken(token).value))
  {
    var template := AuthTemplate();
    var base := new byte[FrameSize](i requires 0 <= i < FrameSize => template[i]);
    assert base[..] == template;
    var decoded := EncodeToken(token);
    if decoded.None? {
      return None;
    }
    var tok := decoded.value;
    var home: seq<byte> := [0, 0, 0, 0];
    ScatterToken(base, tok, home);
    var command := base[..];
    assert command == template[9 := tok[2]][10 := tok[7]][11 := 0][12 := tok[12]]
      [13 := tok[8]][14 := 0][15 := tok[6]][16 := tok[3]]
      [17 := 0][18 := tok[14]][19 := tok[9]][20 := tok[15]]
      [21 := 0][22 := tok[11]][23 := tok[5]][24 := tok[13]]
      [25 := tok[0]][26 := tok[4]][27 := tok[10]][28 := tok[1]];
    AuthBodyFromSlots(tok);
    var checksum := GetChecksum(command, 2, 20);
    frame := Some(command[..46] + checksum);
  }

  /** The slot writes of `generate_auth_command`, in the source's order. */
  method ScatterToken(base: array<byte>, tok: seq<byte>, home: seq<byte>)
    requires base.Length == FrameSize && |tok| == 16 && |home| == 4
    modifies base
    ensures base[..] == old(base[..])[9 := tok[2]][10 := tok[7]][11 := home[1]][12 := tok[12]]
      [13 := tok[8]][14 := home[0]][15 := tok[6]][16 := tok[3]]
      [17 := home[3]][18 := tok[14]][19 := tok[9]][20 := tok[15]]
      [21 := home[2]][22 := tok[11]][23 := tok[5]][24 := tok[13]]
      [25 := tok[0]][26 := tok[4]][27 := tok[10]][28 := tok[1]]
  {
    base[9] := tok[2];
    base[10] := tok[7];
    base[11] := home[1];
    base[12] := tok[12];
    base[13] := tok[8];
    base[14] := home[0];
    base[15] := tok[6];
    base[16] := tok[3];
    base[17] := home[3];
    base[18] := tok[14];
    base[19] := tok[9];
    base[20] := tok[15];
    base[21] := home[2];
    base[22] := tok[11];
    base[23] := tok[5];
    base[24] := tok[13];
    base[25] := tok[0];
    base[26] := tok[4];
    base[27] := tok[10];
    base[28] := tok[1];
  }

  /** What the auth frame holds: the fixed header, each token byte at its
      slot, zero home-id bytes, zero padding and a matching trailer; and
      the token can be read back from the slots. */
  lemma AuthFrameLayout(tok: seq<byte>)
    requires |tok| == 16
    ensures AuthFrame(tok)[..9] == AuthHeader
    ensures forall k :: 0 <= k < 16 ==> AuthFrame(tok)[TokenSlot[k]] == tok[k]
    ensures forall j :: 0 <= j < 4 ==> AuthFrame(tok)[HomeSlot[j]] == 0
    ensures forall i :: 29 <= i < 46 ==> AuthFrame(tok)[i] == 0
    ensures AuthFrame(tok)[46..] == Trailer(AuthFrame(tok), 2, 20)
    ensures seq(16, k requires 0 <= k < 16 => AuthFrame(tok)[TokenSlot[k]]) == tok
  {
    SlotTablesAgree();
    SealedTrailerMatches(AuthBody(tok));
    var f := AuthFrame(tok);
    assert forall i :: 0 <= i < 46 ==> f[i] == AuthBody(tok)[i];
  }

  // ---------------------------------------------------------------------
  // generate_command
  // ---------------------------------------------------------------------

  /** `n.to_bytes(4, byteorder="little")`: the low byte first. */
  function LittleEndian(n: nat): (b: seq<byte>)
    requires n < 0x1_0000_0000
    ensures |b| == 4
  {
    [n % 256, n / 256 % 256, n / 256 / 256 % 256, n / 256 / 256 / 256 % 256]
  }

  /** The number four little-endian bytes stand for. */
  function FromLittleEndian(b: seq<byte>): (n: nat)
    requires |b| == 4
    ensures n < 0x1_0000_0000
  {
    b[0] as int + 256 * (b[1] as int + 256 * (b[2] as int + 256 * b[3] as int))
  }

  lemma LittleEndianRoundTrip(n: nat)
    requires n < 0x1_0000_0000
    ensures FromLittleEndian(LittleEndian(n)) == n
  {
    var q1 := n / 256;
    var q2 := q1 / 256;
    var q3 := q2 / 256;
    assert n == n % 256 + 256 * q1;
    assert q1 == q1 % 256 + 256 * q2;
    assert q2 == q2 % 256 + 256 * q3;
    assert q3 < 256;
  }

  /** Splitting a number into its low byte and the rest. */
  lemma ByteSplit(lo: int, hi: int)
    requires 0 <= lo < 256
    ensures (lo + 256 * hi) % 256 == lo && (lo + 256 * hi) / 256 == hi
  {
  }

  lemma FromLittleEndianRoundTrip(b: seq<byte>)
    requires |b| == 4
    ensures LittleEndian(FromLittleEndian(b)) == b
  {
    var n := FromLittleEndian(b);
    var q2 := b[2] as int + 256 * b[3] as int;
    var q1 := b[1] as int + 256 * q2;
    assert n == b[0] as int + 256 * q1;
    ByteSplit(b[0] as int, q1);
    ByteSplit(b[1] as int, q2);
    ByteSplit(b[2] as int, b[3] as int);
  }

  /** Python's index into a 48-byte bytearray: a negative index counts from the end. */
  function PyIndex(k: int): (i: nat)
    requires -FrameSize <= k < FrameSize
    ensures i < FrameSize
  {
    if k < 0 then k + FrameSize else k
  }

  /** What the action writes demand: both indices inside the frame (else
      `IndexError`) and an action that is a byte (else `ValueError`). */
  predicate ActionFits(entity: int, entityType: int, action: int)
  {
    -FrameSize <= 18 + entity < FrameSize
    && (entityType == 3 ==> -FrameSize <= 34 + entity < FrameSize)
    && 0 <= action < 256
  }

  /** The device id decodes to a positive id that `to_bytes(4)` can hold, or
      it is rejected before `to_bytes` is reached. */
  predicate IdFits(deviceId: string, deviceType: int)
    requires Plain(deviceId)
  {
    var n := ParseCustomEncodedString(deviceId);
    n > 0 && deviceType > 0 ==> n < 0x1_0000_0000
  }

  /** Whether `generate_command` builds a frame at all. */
  predicate Addressable(deviceId: string, deviceType: int)
    requires Plain(deviceId)
  {
    ParseCustomEncodedString(deviceId) > 0 && deviceType > 0
  }

  /** The literal list of `generate_command`, before the action writes. */
  function CommandTemplate(id: nat, deviceType: int, readOnly: bool): (b: seq<byte>)
    requires id < 0x1_0000_0000
    ensures |b| == FrameSize
  {
    [0xAA, 0x5A, 0x01, 0x01, 0x01, 0x02, 0x01, if readOnly then 0x01 else 0x02, 0x00]
    + LittleEndian(id) + [0x00, Unsigned(deviceType)] + seq(33, _ => 0)
  }

  /** The template with the action byte and, for a shutter, the flag written in. */
  function CommandBody(id: nat, deviceType: int, readOnly: bool, entity: int, entityType: int, action: int): (b: seq<byte>)
    requires id < 0x1_0000_0000
    requires !readOnly ==> ActionFits(entity, entityType, action)
    ensures |b| == FrameSize
  {
    var t := CommandTemplate(id, deviceType, readOnly);
    if readOnly then t
    else
      var withAction := t[PyIndex(18 + entity) := action];
      if entityType == 3 then withAction[PyIndex(34 + entity) := 255] else withAction
  }

  /** `generate_command` as a value: empty bytes for an unusable id or
      type, otherwise the sealed 48-byte frame. */
  function CommandFrame(deviceId: string, deviceType: int, readOnly: bool, entity: int, entityType: int, action: int): (frame: seq<byte>)
    requires Plain(deviceId) && IdFits(deviceId, deviceType)
    requires Addressable(deviceId, deviceType) && !readOnly ==> ActionFits(entity, entityType, action)
    ensures |frame| == 0 || |frame| == FrameSize
  {
    var n := ParseCustomEncodedString(deviceId);
    if n <= 0 || deviceType <= 0 then []
    else Seal(CommandBody(n, deviceType, readOnly, entity, entityType, action))
  }

  /** `generate_command`: the list literal copied into a bytearray, the
      action and shutter flag written in place, then the trailer. */
  method GenerateCommand(deviceId: string, deviceType: int, readOnly: bool, entity: int, entityType: int, action: int)
    returns (frame: seq<byte>)
    requires Plain(deviceId) && IdFits(deviceId, deviceType)
    requires Addressable(deviceId, deviceType) && !readOnly ==> ActionFits(entity, entityType, action)
    ensures frame == CommandFrame(deviceId, deviceType, readOnly, entity, entityType, action)
  {
    var numericDeviceId := ParseCustomEncodedString(deviceId);
    if numericDeviceId <= 0 || deviceType <= 0 {
      return [];
    }
    var literal := CommandTemplate(numericDeviceId, deviceType, readOnly);
    var command := new byte[FrameSize](i requires 0 <= i < FrameSize => literal[i]);
    if !readOnly {
      command[PyIndex(18 + entity)] := action;
      if entityType == 3 {
        command[PyIndex(34 + entity)] := 255;
      }
    }
    var body := command[..];
    assert body == CommandBody(numericDeviceId, deviceType, readOnly, entity, entityType, action);
    var checksum := GetChecksum(body, 2, 20);
    frame := body[..46] + checksum;
  }

  /** The frame is empty exactly when the decoded id or the type is not positive. */
  lemma CommandEmptyIff(deviceId: string, deviceType: int, readOnly: bool, entity: int, entityType: int, action: int)
    requires Plain(deviceId) && IdFits(deviceId, deviceType)
    requires Addressable(deviceId, deviceType) && !readOnly ==> ActionFits(entity, entityType, action)
    ensures CommandFrame(deviceId, deviceType, readOnly, entity, entityType, action) == []
        <==> ParseCustomEncodedString(deviceId) <= 0 || deviceType <= 0
  {
  }

  /** The layout of a built frame: header, mode byte, little-endian id, type
      byte, zero padding outside the action positions, and the trailer. */
  lemma CommandLayout(deviceId: string, deviceType: int, readOnly: bool, entity: int, entityType: int, action: int)
    requires Plain(deviceId) && IdFits(deviceId, deviceType) && Addressable(deviceId, deviceType)
    requires !readOnly ==> ActionFits(entity, entityType, action)
    ensures var f := CommandFrame(deviceId, deviceType, readOnly, entity, entityType, action);
      var n := ParseCustomEncodedString(deviceId);
      |f| == FrameSize
      && f[46..] == Trailer(f, 2, 20)
      && (forall i :: 0 <= i < 46 ==>
            f[i] == if !readOnly && entityType == 3 && i == PyIndex(34 + entity) then 255
                    else if !readOnly && i == PyIndex(18 + entity) then action
                    else CommandTemplate(n, deviceType, readOnly)[i])
  {
    var n := ParseCustomEncodedString(deviceId);
    var body := CommandBody(n, deviceType, readOnly, entity, entityType, action);
    SealedTrailerMatches(body);
  }

  /** A status command, byte by byte: nothing is written outside the fixed
      fields, and bytes 9..12 read back as the decoded id. */
  lemma StatusCommandLayout(deviceId: string, deviceType: int)
    requires Plain(deviceId) && IdFits(deviceId, deviceType) && Addressable(deviceId, deviceType)
    ensures var f := CommandFrame(deviceId, deviceType, true, 0, 0, 0);
      var n := ParseCustomEncodedString(deviceId);
      |f| == FrameSize
      && f[..9] == [0xAA, 0x5A, 1, 1, 1, 2, 1, 1, 0]
      && f[9..13] == LittleEndian(n) && FromLittleEndian(f[9..13]) == n
      && f[13] == 0 && f[14] == Unsigned(deviceType)
      && (forall i :: 15 <= i < 46 ==> f[i] == 0)
  {
    var n := ParseCustomEncodedString(deviceId);
    CommandLayout(deviceId, deviceType, true, 0, 0, 0);
    LittleEndianRoundTrip(n);
    var f := CommandFrame(deviceId, deviceType, true, 0, 0, 0);
    assert f[..9] == CommandTemplate(n, deviceType, true)[..9];
    assert f[9..13] == CommandTemplate(n, deviceType, true)[9..13];
  }

  /** An action command carries the device's address in the same bytes as
      its status command: only the mode byte, the action positions and the
      trailer tell them apart. */
  lemma ActionAddressesSameDevice(deviceId: string, deviceType: int, entity: int, entityType: int, action: int)
    requires Plain(deviceId) && IdFits(deviceId, deviceType) && Addressable(deviceId, deviceType)
    requires ActionFits(entity, entityType, action)
    requires 0 <= entity
    ensures var act := CommandFrame(deviceId, deviceType, false, entity, entityType, action);
      var status := CommandFrame(deviceId, deviceType, true, 0, 0, 0);
      act[9..13] == status[9..13] && act[14] == status[14] && act[7] == 2 && status[7] == 1
      && (18 + entity < 46 ==> act[18 + entity] == action)
      && (entityType == 3 && 34 + entity < 46 ==> act[34 + entity] == 255)
  {
    CommandLayout(deviceId, deviceType, false, entity, entityType, action);
    CommandLayout(deviceId, deviceType, true, 0, 0, 0);
    var n := ParseCustomEncodedString(deviceId);
    var act := CommandFrame(deviceId, deviceType, false, entity, entityType, action);
    var status := CommandFrame(deviceId, deviceType, true, 0, 0, 0);
    assert act[9..13] == CommandTemplate(n, deviceType, false)[9..13];
    assert status[9..13] == CommandTemplate(n, deviceType, true)[9..13];
  }

  // ---------------------------------------------------------------------
  // verify_response
  // ---------------------------------------------------------------------

  /** `response[4:9] == bytes([1, 1, 1, 1, 13])`: the device reports itself offline. */
  predicate OfflineReply(response: seq<byte>)
  {
    |response| >= 9 && response[4..9] == [1, 1, 1, 1, 13]
  }

  /** `verify_response`: an offline reply always matches; otherwise the id
      bytes and the type byte must agree. Both list items are evaluated
      before `all()`, so indexing byte 14 raises `IndexError` (None) when
      the reply is not an offline one and either frame is too short. */
  function VerifyResponse(command: seq<byte>, response: seq<byte>): (ok: Option<bool>)
    ensures ok.None? <==> !OfflineReply(response) && (|command| <= 14 || |response| <= 14)
    ensures OfflineReply(response) ==> ok == Some(true)
  {
    if |response| >= 9 && response[4..9] == [1, 1, 1, 1, 13] then Some(true)
    else if |command| <= 14 || |response| <= 14 then None
    else Some(command[9..13] == response[9..13] && command[14] == response[14])
  }

  /** A reply to a status command matches it exactly when the reply names
      the same decoded id and device type, or reports the device offline. */
  lemma ReplyMatchesDevice(deviceId: string, deviceType: int, response: seq<byte>)
    requires Plain(deviceId) && IdFits(deviceId, deviceType) && Addressable(deviceId, deviceType)
    requires |response| == FrameSize
    ensures VerifyResponse(CommandFrame(deviceId, deviceType, true, 0, 0, 0), response).Some?
    ensures VerifyResponse(CommandFrame(deviceId, deviceType, true, 0, 0, 0), response).value
        <==> (OfflineReply(response)
              || (FromLittleEndian(response[9..13]) == ParseCustomEncodedString(deviceId)
                  && response[14] == Unsigned(deviceType)))
  {
    StatusCommandLayout(deviceId, deviceType);
    FromLittleEndianRoundTrip(response[9..13]);
  }

  // ---------------------------------------------------------------------
  // models
  // ---------------------------------------------------------------------

  const Models: map<int, string> := map[
    1 := "8B", 8 := "8B", 16 := "8B", 24 := "8B",
    2 := "6B", 9 := "6B", 17 := "6B", 25 := "6B",
    3 := "PT", 13 := "PT", 18 := "PT", 26 := "PT",
    4 := "2B", 11 := "2B", 19 := "2B", 27 := "2B",
    5 := "4B", 10 := "4B", 20 := "4B", 28 := "4B",
    6 := "2R", 15 := "2R", 21 := "2R", 29 := "2R",
    7 := "SOCKET", 14 := "SOCKET", 23 := "SOCKET", 30 := "SOCKET",
    12 := "IR", 22 := "IR",
    31 := "PIMA",
    160 := "C4"]

  /** `models.get(type) or "UNKNOWN"`: a name from the table, or the
      placeholder, which the table never gives. */
  function ModelName(deviceType: int): (name: string)
    ensures name == "UNKNOWN" || name in Models.Values
    ensures "UNKNOWN" !in Models.Values
  {
    if deviceType in Models && Models[deviceType] != "" then Models[deviceType] else "UNKNOWN"
  }

  /** Every type from 1 to 31 and type 160 has a model, and the placeholder
      is given exactly to the other types. */
  lemma ModelNameKnown(deviceType: int)
    ensures ModelName(deviceType) == "UNKNOWN" <==> !(1 <= deviceType <= 31 || deviceType == 160)
    ensures deviceType in Models ==> ModelName(deviceType) == Models[deviceType]
  {
  }
}
