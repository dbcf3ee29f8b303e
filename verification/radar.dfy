/**
 * The query and configuration commands of class `Radar`: each builds a
 * command frame, hands it to the serial port, reads one response and decodes
 * its payload. Writing is left to the port; the bytes the port would deliver
 * afterwards are the `inbound` parameter.
 */
module Radar {
  import opened Wrappers
  import opened Bytes
  import opened Protocol
  import opened Frame
  import opened Reader
  import opened Payloads

  /**
   * One command exchange: the exception raised while building the command,
   * or the frame sent, the decoded answer (`None` when no valid response
   * arrived) and the number of inbound bytes consumed.
   */
  datatype Exchange<+T> = Raised(error: Error) | Exchanged(request: seq<byte>, answer: Option<T>, consumed: nat)
  {
    function Map<U>(f: T -> U): (r: Exchange<U>)
      ensures r.Raised? <==> Raised?
      ensures r.Exchanged? ==> r.request == request && r.consumed == consumed && (r.answer.Some? <==> answer.Some?)
      ensures r.Exchanged? && r.answer.Some? ==> r.answer.value == f(answer.value)
    {
      match this
      case Raised(e) => Raised(e)
      case Exchanged(q, a, n) => Exchanged(q, if a.Some? then Some(f(a.value)) else None, n)
    }
  }

  /** Build the command, then read the response and keep its `data`. */
  function Transact(c: Constants, code: byte, data: Data, inbound: seq<byte>): (r: Exchange<seq<byte>>)
    ensures r.Raised? <==> BuildCommand(c, code, data).Failure?
    ensures r.Raised? ==> r.error == BuildCommand(c, code, data).error
    ensures r.Exchanged? ==> WellFormed(r.request, c.head, c.receiveAddress, code, AsBytes(Payload(data)))
    ensures r.Exchanged? ==> r.consumed <= |inbound|
    ensures r.Exchanged? ==> (r.answer.Some? <==> ReadResponse(c, inbound).outcome.Accepted?)
    ensures r.Exchanged? && r.answer.Some? ==> r.answer.value == ReadResponse(c, inbound).outcome.reply.data
  {
    match BuildCommand(c, code, data)
    case Failure(e) => Raised(e)
    case Success(request) =>
      var received := ReadResponse(c, inbound);
      var answer := if received.outcome.Accepted? then Some(received.outcome.reply.data) else None;
      Exchanged(request, answer, received.cursor)
  }

  /** A command without data never raises: its frame is seven bytes with length field 2. */
  lemma QueryNeverRaises(c: Constants, code: byte, inbound: seq<byte>)
    ensures Transact(c, code, NoData, inbound).Exchanged?
    ensures |Transact(c, code, NoData, inbound).request| == 7
  {
    NoDataLength(c, code);
  }

  /**
   * The exchange delivers the payload of the response frame: noise without
   * `HEAD` and then a well-formed response within the budget.
   */
  lemma TransactDelivers(c: Constants, code: byte, data: Data, noise: seq<byte>,
                         replyCode: byte, reply: seq<byte>, rest: seq<byte>)
    requires BuildCommand(c, code, data).Success?
    requires |noise| < BytesMax && NoHead(c, noise, 0, |noise|)
    requires EncodeFrame(c.head, c.sendAddress, replyCode, reply).Success?
    ensures var f := EncodeFrame(c.head, c.sendAddress, replyCode, reply).value;
      Transact(c, code, data, noise + f + rest)
        == Exchanged(BuildCommand(c, code, data).value, Some(reply), |noise| + |f|)
  {
    var f := EncodeFrame(c.head, c.sendAddress, replyCode, reply).value;
    EncodeThenRead(c, noise, replyCode, reply, rest);
    TransactFrame(c, code, data, noise + f + rest, f, [replyCode], reply, |noise| + |f|);
  }

  /** A command that builds, followed by a frame on the input, delivers that frame's data. */
  lemma TransactFrame(c: Constants, code: byte, data: Data, inbound: seq<byte>,
                      command: seq<byte>, commandCode: seq<byte>, payload: seq<byte>, cursor: nat)
    requires BuildCommand(c, code, data).Success?
    requires ReadResponse(c, inbound) == Reception(Accepted(Reply(command, commandCode, payload)), cursor)
    ensures Transact(c, code, data, inbound) == Exchanged(BuildCommand(c, code, data).value, Some(payload), cursor)
  {
  }

  // ---------------------------------------------------------------------------
  // Target detection

  /** `get_target_info`: speed in hundredths of m/s and state of the detected target. */
  function GetTargetInfo(c: Constants, inbound: seq<byte>): (r: Exchange<TargetInfo>)
    ensures r.Exchanged? && |r.request| == 7
    ensures WellFormed(r.request, c.head, c.receiveAddress, c.getTarget, [])
    ensures r.answer.Some? <==> ReadResponse(c, inbound).outcome.Accepted?
    ensures r.answer.Some? ==> r.answer.value.speed < 65536 && r.answer.value.state < 256
    ensures r.answer.Some? ==> r.answer.value == ParseTargetInfo(ReadResponse(c, inbound).outcome.reply.data)
  {
    QueryNeverRaises(c, c.getTarget, inbound);
    Transact(c, c.getTarget, NoData, inbound).Map(ParseTargetInfo)
  }

  /** `get_target_state`: the state part of `get_target_info`. */
  function GetTargetState(c: Constants, inbound: seq<byte>): (r: Exchange<nat>)
    ensures r.Exchanged? && r.request == GetTargetInfo(c, inbound).request
    ensures r.answer.Some? <==> GetTargetInfo(c, inbound).answer.Some?
    ensures r.answer.Some? ==> r.answer.value == GetTargetInfo(c, inbound).answer.value.state < 256
  {
    GetTargetInfo(c, inbound).Map((t: TargetInfo) => t.state)
  }

  /** `get_target_speed`: the speed part of `get_target_info`. */
  function GetTargetSpeed(c: Constants, inbound: seq<byte>): (r: Exchange<nat>)
    ensures r.Exchanged? && r.request == GetTargetInfo(c, inbound).request
    ensures r.answer.Some? <==> GetTargetInfo(c, inbound).answer.Some?
    ensures r.answer.Some? ==> r.answer.value == GetTargetInfo(c, inbound).answer.value.speed < 65536
  {
    GetTargetInfo(c, inbound).Map((t: TargetInfo) => t.speed)
  }

  /** A response carrying a speed and a state is decoded to exactly that pair. */
  lemma TargetInfoDecoded(c: Constants, noise: seq<byte>, replyCode: byte,
                          speed: nat, state: byte, rest: seq<byte>)
    requires |noise| < BytesMax && NoHead(c, noise, 0, |noise|)
    requires speed < 65536
    ensures var payload := Digits(speed, 2) + [state];
      EncodeFrame(c.head, c.sendAddress, replyCode, payload).Success? &&
      GetTargetInfo(c, noise + EncodeFrame(c.head, c.sendAddress, replyCode, payload).value + rest).answer
        == Some(TargetInfo(speed, state))
  {
    var payload := Digits(speed, 2) + [state];
    assert Sum(payload) <= 255 * 3;
    var f := EncodeFrame(c.head, c.sendAddress, replyCode, payload).value;
    NoDataLength(c, c.getTarget);
    TransactDelivers(c, c.getTarget, NoData, noise, replyCode, payload, rest);
    TargetInfoRoundTrip(speed, state, []);
    assert payload + [] == payload;
  }

  /**
   * With `HEAD = 0xA6` and `SEND_ADDRESS = 0x02`, the response
   * `A6 02 02 00 05 00 C8 01 01 78` carries speed 200 (2.00 m/s) and state 1.
   */
  lemma TargetInfoExample(c: Constants)
    requires c.head == 0xA6 && c.sendAddress == 0x02
    ensures GetTargetInfo(c, [0xA6, 0x02, 0x02, 0x00, 0x05, 0x00, 0xC8, 0x01, 0x01, 0x78]).answer
            == Some(TargetInfo(200, 1))
  {
    var len: seq<byte> := [0x00, 0x05];
    var payload: seq<byte> := [0x00, 0xC8, 0x01];
    var chk: seq<byte> := [0x01, 0x78];
    var inbound: seq<byte> := [0xA6, 0x02, 0x02, 0x00, 0x05, 0x00, 0xC8, 0x01, 0x01, 0x78];
    var body := Body(c.head, c.sendAddress, 0x02, len, payload);
    assert FromBE(len) == ChecksumLen + |payload| by { FromBETwo(0x00, 0x05); }
    assert FromBE(chk) == Sum(body) by {
      FromBETwo(0x01, 0x78);
      var front: seq<byte> := [0xA6, 0x02, 0x02, 0x00];
      var back: seq<byte> := [0x05, 0x00, 0xC8, 0x01];
      assert body == front + back;
      assert front[1..][1..][1..][1..] == [] && back[1..][1..][1..][1..] == [];
      assert Sum(front) == 0xAA && Sum(back) == 0xCE;
      SumAppend(front, back);
    }
    assert inbound == [] + body + chk + [];
    ChecksumDecides(c, [], 0x02, len, payload, chk, []);
    assert ReadResponse(c, inbound).outcome.reply.data == payload;
    assert ParseTargetInfo(payload) == TargetInfo(200, 1);
  }

  // ---------------------------------------------------------------------------
  // IQ samples

  /** `get_IQADC`: the I and Q samples of the response. */
  function GetIqadc(c: Constants, inbound: seq<byte>): (r: Exchange<IqSamples>)
    ensures r.Exchanged? && WellFormed(r.request, c.head, c.receiveAddress, c.getIqadc, [])
    ensures r.answer.Some? <==> ReadResponse(c, inbound).outcome.Accepted?
    ensures r.answer.Some? ==>
      |r.answer.value.i| + |r.answer.value.q| == |ReadResponse(c, inbound).outcome.reply.data|
    ensures r.answer.Some? ==> r.answer.value == ParseIq(ReadResponse(c, inbound).outcome.reply.data)
  {
    QueryNeverRaises(c, c.getIqadc, inbound);
    Transact(c, c.getIqadc, NoData, inbound).Map(ParseIq)
  }

  /** The I and Q samples of a response interleave back to its payload. */
  lemma IqDecoded(c: Constants, noise: seq<byte>, replyCode: byte, payload: seq<byte>, rest: seq<byte>)
    requires |noise| < BytesMax && NoHead(c, noise, 0, |noise|)
    requires EncodeFrame(c.head, c.sendAddress, replyCode, payload).Success?
    ensures var r := GetIqadc(c, noise + EncodeFrame(c.head, c.sendAddress, replyCode, payload).value + rest);
      r.answer == Some(IqSamples(Evens(payload), Odds(payload)))
      && Interleave(Evens(payload), Odds(payload)) == payload
  {
    NoDataLength(c, c.getIqadc);
    TransactDelivers(c, c.getIqadc, NoData, noise, replyCode, payload, rest);
    InterleaveSplit(payload);
  }

  // ---------------------------------------------------------------------------
  // Speed detection range

  /** `get_speed_detection_range`. */
  function GetSpeedDetectionRange(c: Constants, inbound: seq<byte>): (r: Exchange<SpeedRange>)
    ensures r.Exchanged? && WellFormed(r.request, c.head, c.receiveAddress, c.getSpeedScope, [])
    ensures r.answer.Some? <==> ReadResponse(c, inbound).outcome.Accepted?
    ensures r.answer.Some? ==> 0 <= r.answer.value.maxSpeed < 65536
    ensures r.answer.Some? ==> r.answer.value == ParseSpeedRange(ReadResponse(c, inbound).outcome.reply.data)
  {
    QueryNeverRaises(c, c.getSpeedScope, inbound);
    Transact(c, c.getSpeedScope, NoData, inbound).Map(ParseSpeedRange)
  }

  /**
   * `set_speed_detection_range`: sends maximum then minimum speed; raises
   * OverflowError unless both fit in two unsigned bytes.
   */
  function SetSpeedDetectionRange(c: Constants, minSpeed: int, maxSpeed: int, inbound: seq<byte>)
    : (r: Exchange<SpeedRange>)
    ensures r.Raised? <==> !(0 <= minSpeed < 65536 && 0 <= maxSpeed < 65536)
    ensures r.Raised? ==> r.error == OverflowError
    ensures r.Exchanged? ==> |r.request| == 11 && r.request[2] == c.setSpeedScope
    ensures r.Exchanged? ==>
      WellFormed(r.request, c.head, c.receiveAddress, c.setSpeedScope, EncodeSpeedRange(minSpeed, maxSpeed).value)
    ensures r.Exchanged? ==> ParseSpeedRange(r.request[HeaderLen..HeaderLen + 4]) == SpeedRange(minSpeed, maxSpeed)
    ensures r.Exchanged? ==> (r.answer.Some? <==> ReadResponse(c, inbound).outcome.Accepted?)
    ensures r.Exchanged? && r.answer.Some? ==> r.answer.value == ParseSpeedRange(ReadResponse(c, inbound).outcome.reply.data)
  {
    match EncodeSpeedRange(minSpeed, maxSpeed)
    case Failure(e) => Raised(e)
    case Success(range) =>
      SpeedRangeRoundTrip(minSpeed, maxSpeed);
      assert Sum(range) <= 255 * 4;
      assert AsBytes(Payload(Items(range))) == range;
      Transact(c, c.setSpeedScope, Items(range), inbound).Map(ParseSpeedRange)
  }

  /** A response carrying an encoded range is decoded to that range. */
  lemma SpeedRangeDecoded(c: Constants, noise: seq<byte>, replyCode: byte,
                          minSpeed: int, maxSpeed: int, rest: seq<byte>)
    requires |noise| < BytesMax && NoHead(c, noise, 0, |noise|)
    requires 0 <= minSpeed < 65536 && 0 <= maxSpeed < 65536
    ensures var payload := EncodeSpeedRange(minSpeed, maxSpeed).value;
      EncodeFrame(c.head, c.sendAddress, replyCode, payload).Success? &&
      GetSpeedDetectionRange(c, noise + EncodeFrame(c.head, c.sendAddress, replyCode, payload).value + rest).answer
        == Some(SpeedRange(minSpeed, maxSpeed))
  {
    var payload := EncodeSpeedRange(minSpeed, maxSpeed).value;
    assert Sum(payload) <= 255 * 4;
    NoDataLength(c, c.getSpeedScope);
    TransactDelivers(c, c.getSpeedScope, NoData, noise, replyCode, payload, rest);
    SpeedRangeRoundTrip(minSpeed, maxSpeed);
  }

  // ---------------------------------------------------------------------------
  // Working mode

  /** `get_mode`: the response payload read as one big-endian integer. */
  function GetMode(c: Constants, inbound: seq<byte>): (r: Exchange<nat>)
    ensures r.Exchanged? && WellFormed(r.request, c.head, c.receiveAddress, c.getMode, [])
    ensures r.answer.Some? <==> ReadResponse(c, inbound).outcome.Accepted?
    ensures r.answer.Some? ==> r.answer.value < Pow256(|ReadResponse(c, inbound).outcome.reply.data|)
    ensures r.answer.Some? ==> r.answer.value == FromBE(ReadResponse(c, inbound).outcome.reply.data)
  {
    QueryNeverRaises(c, c.getMode, inbound);
    Transact(c, c.getMode, NoData, inbound).Map(FromBE)
  }

  /** `set_mode_target` and `set_mode_IQADC`: the mode constant as a one-byte payload. */
  function SetMode(c: Constants, mode: byte, inbound: seq<byte>): (r: Exchange<nat>)
    ensures r.Exchanged? && WellFormed(r.request, c.head, c.receiveAddress, c.setMode, [mode])
    ensures |r.request| == 8 && r.request[HeaderLen] == mode
    ensures r.answer.Some? <==> ReadResponse(c, inbound).outcome.Accepted?
    ensures r.answer.Some? ==> r.answer.value == FromBE(ReadResponse(c, inbound).outcome.reply.data)
  {
    assert Sum([mode]) <= 255;
    assert AsBytes(Payload(ModeData(mode))) == [mode];
    Transact(c, c.setMode, ModeData(mode), inbound).Map(FromBE)
  }

  /** `set_mode_target`. */
  function SetModeTarget(c: Constants, inbound: seq<byte>): (r: Exchange<nat>)
    ensures r.Exchanged? && |r.request| == 8 && r.request[HeaderLen] == c.modeTarget && r.request[2] == c.setMode
    ensures WellFormed(r.request, c.head, c.receiveAddress, c.setMode, [c.modeTarget])
    ensures r.answer.Some? <==> ReadResponse(c, inbound).outcome.Accepted?
    ensures r.answer.Some? ==> r.answer.value == FromBE(ReadResponse(c, inbound).outcome.reply.data)
  {
    SetMode(c, c.modeTarget, inbound)
  }

  /** `set_mode_IQADC`. */
  function SetModeIqadc(c: Constants, inbound: seq<byte>): (r: Exchange<nat>)
    ensures r.Exchanged? && |r.request| == 8 && r.request[HeaderLen] == c.modeIqadc && r.request[2] == c.setMode
    ensures WellFormed(r.request, c.head, c.receiveAddress, c.setMode, [c.modeIqadc])
    ensures r.answer.Some? <==> ReadResponse(c, inbound).outcome.Accepted?
    ensures r.answer.Some? ==> r.answer.value == FromBE(ReadResponse(c, inbound).outcome.reply.data)
  {
    SetMode(c, c.modeIqadc, inbound)
  }

  /** A one-byte mode response is answered with that mode. */
  lemma ModeDecoded(c: Constants, noise: seq<byte>, replyCode: byte, mode: byte, rest: seq<byte>)
    requires |noise| < BytesMax && NoHead(c, noise, 0, |noise|)
    ensures EncodeFrame(c.head, c.sendAddress, replyCode, [mode]).Success?
    ensures var inbound := noise + EncodeFrame(c.head, c.sendAddress, replyCode, [mode]).value + rest;
      GetMode(c, inbound).answer == Some(mode as nat)
  {
    assert Sum([mode]) <= 255;
    FromBEOne(mode);
    NoDataLength(c, c.getMode);
    TransactDelivers(c, c.getMode, NoData, noise, replyCode, [mode], rest);
  }

  /** Setting a mode hands back the one-byte mode the device answers with. */
  lemma SetModeDecoded(c: Constants, noise: seq<byte>, replyCode: byte, mode: byte, rest: seq<byte>)
    requires |noise| < BytesMax && NoHead(c, noise, 0, |noise|)
    ensures EncodeFrame(c.head, c.sendAddress, replyCode, [mode]).Success?
    ensures var inbound := noise + EncodeFrame(c.head, c.sendAddress, replyCode, [mode]).value + rest;
      SetModeTarget(c, inbound).answer == Some(mode as nat)
  {
    assert Sum([mode]) <= 255;
    FromBEOne(mode);
    assert AsBytes(Payload(ModeData(c.modeTarget))) == [c.modeTarget];
    assert Sum([c.modeTarget]) <= 255;
    TransactDelivers(c, c.setMode, ModeData(c.modeTarget), noise, replyCode, [mode], rest);
  }

  // ---------------------------------------------------------------------------
  // Detection threshold

  /** `get_detection_threshold`: the response payload as one big-endian integer. */
  function GetDetectionThreshold(c: Constants, inbound: seq<byte>): (r: Exchange<nat>)
    ensures r.Exchanged? && WellFormed(r.request, c.head, c.receiveAddress, c.getThreshold, [])
    ensures r.answer.Some? <==> ReadResponse(c, inbound).outcome.Accepted?
    ensures r.answer.Some? ==> r.answer.value < Pow256(|ReadResponse(c, inbound).outcome.reply.data|)
    ensures r.answer.Some? ==> r.answer.value == FromBE(ReadResponse(c, inbound).outcome.reply.data)
  {
    QueryNeverRaises(c, c.getThreshold, inbound);
    Transact(c, c.getThreshold, NoData, inbound).Map(FromBE)
  }

  /**
   * `set_detection_threshold`: the threshold as four big-endian bytes;
   * raises OverflowError outside `[0, 2^32)`.
   */
  function SetDetectionThreshold(c: Constants, threshold: int, inbound: seq<byte>): (r: Exchange<nat>)
    ensures r.Raised? <==> !(0 <= threshold < 0x1_0000_0000)
    ensures r.Raised? ==> r.error == OverflowError
    ensures r.Exchanged? ==> |r.request| == 11 && r.request[2] == c.setThreshold
    ensures r.Exchanged? ==> WellFormed(r.request, c.head, c.receiveAddress, c.setThreshold, EncodeThreshold(threshold).value)
    ensures r.Exchanged? ==> FromBE(r.request[HeaderLen..HeaderLen + ThresholdLen]) == threshold
    ensures r.Exchanged? ==> (r.answer.Some? <==> ReadResponse(c, inbound).outcome.Accepted?)
    ensures r.Exchanged? && r.answer.Some? ==> r.answer.value == FromBE(ReadResponse(c, inbound).outcome.reply.data)
  {
    match EncodeThreshold(threshold)
    case Failure(e) => Raised(e)
    case Success(bytes) =>
      assert Sum(bytes) <= 255 * 4;
      assert AsBytes(Payload(Items(bytes))) == bytes;
      Transact(c, c.setThreshold, Items(bytes), inbound).Map(FromBE)
  }

  /** A threshold echoed in four bytes is answered with that threshold. */
  lemma ThresholdDecoded(c: Constants, noise: seq<byte>, replyCode: byte, threshold: int, rest: seq<byte>)
    requires |noise| < BytesMax && NoHead(c, noise, 0, |noise|)
    requires 0 <= threshold < 0x1_0000_0000
    ensures var payload := EncodeThreshold(threshold).value;
      EncodeFrame(c.head, c.sendAddress, replyCode, payload).Success? &&
      SetDetectionThreshold(c, threshold,
        noise + EncodeFrame(c.head, c.sendAddress, replyCode, payload).value + rest).answer == Some(threshold as nat)
  {
    var payload := EncodeThreshold(threshold).value;
    assert Sum(payload) <= 255 * 4;
    assert AsBytes(Payload(Items(payload))) == payload;
    TransactDelivers(c, c.setThreshold, Items(payload), noise, replyCode, payload, rest);
  }
}
