/**
 * Frame layout and the outbound encoder (`Radar._calculate_checksum`,
 * `Radar._build_command`).
 *
 * A frame is `[sync, address, code, len_hi, len_lo, payload..., chk_hi, chk_lo]`
 * where `len` counts the payload plus the two checksum bytes and `chk` is the
 * plain sum of every byte before it. The sum is not reduced modulo 65536:
 * when it does not fit in two bytes the encoder raises.
 */
module Frame {
  import opened Wrappers
  import opened Bytes
  import opened Protocol

  /** The Python exceptions the encoders can raise. */
  datatype Error =
    | OverflowError   // `int.to_bytes` of a negative or too large value
    | ValueError      // `bytearray(...)` of an element outside 0..255

  /** The `data` argument of `_build_command`: `None`, a scalar, or a list. */
  datatype Data = NoData | Scalar(x: int) | Items(xs: seq<int>)

  const ChecksumLen := 2
  const HeaderLen := 5

  /** The list a `data` argument stands for: a scalar is wrapped as `[data]`. */
  function Payload(data: Data): (items: seq<int>)
    // The ensures restate the body for the solver's benefit; they are not a property.
    ensures data.NoData? ==> items == []
    ensures data.Scalar? ==> items == [data.x]
    ensures data.Items? ==> items == data.xs
  {
    match data
    case NoData => []
    case Scalar(x) => [x]
    case Items(xs) => xs
  }

  predicate AllBytes(xs: seq<int>) {
    forall i :: 0 <= i < |xs| ==> 0 <= xs[i] < 256
  }

  /** A list of ints that are all bytes, as a byte sequence. */
  function AsBytes(xs: seq<int>): (r: seq<byte>)
    requires AllBytes(xs)
    // Restates the body for the solver's benefit; not a property.
    ensures r == xs
  {
    xs
  }

  /**
   * The field-by-field description of a well-formed frame: sync, address and
   * code up front, the big-endian length `2 + |payload|`, the payload
   * verbatim, and a big-endian checksum equal to the sum of all earlier bytes.
   */
  predicate WellFormed(f: seq<byte>, sync: byte, address: byte, code: byte, payload: seq<byte>) {
    && |f| == HeaderLen + |payload| + ChecksumLen
    && f[0] == sync && f[1] == address && f[2] == code
    && FromBE(f[3..5]) == ChecksumLen + |payload|
    && f[HeaderLen..HeaderLen + |payload|] == payload
    && FromBE(f[HeaderLen + |payload|..]) == Sum(f[..HeaderLen + |payload|])
  }

  /** Sum of the five header bytes, with the length written in base 256. */
  function HeaderSum(sync: byte, address: byte, code: byte, n: nat): (h: nat) {
    sync + address + code + (ChecksumLen + n) / 256 + (ChecksumLen + n) % 256
  }

  /** `_calculate_checksum`: the byte sum as two big-endian bytes. */
  function CalculateChecksum(command: seq<byte>): (r: Result<seq<byte>, Error>)
    ensures r.Success? <==> Sum(command) < 65536
    ensures r.Success? ==> |r.value| == ChecksumLen && FromBE(r.value) == Sum(command)
    ensures r.Failure? ==> r.error == OverflowError
  {
    if Sum(command) < 65536 then Success(Word(Sum(command))) else Failure(OverflowError)
  }

  /**
   * The framing shared by both directions: header, length field, payload and
   * checksum, failing exactly where `to_bytes(2)` would raise.
   */
  function EncodeFrame(sync: byte, address: byte, code: byte, payload: seq<byte>): (r: Result<seq<byte>, Error>)
    ensures r.Success? <==>
      |payload| <= 65533 && HeaderSum(sync, address, code, |payload|) + Sum(payload) < 65536
    ensures r.Success? ==> WellFormed(r.value, sync, address, code, payload)
    ensures r.Failure? ==> r.error == OverflowError
  {
    if ChecksumLen + |payload| >= 65536 then Failure(OverflowError)
    else
      var len := Word(ChecksumLen + |payload|);
      var body := [sync, address, code] + len + payload;
      SumsOfHeader(sync, address, code, len, payload);
      match CalculateChecksum(body)
      case Failure(e) => Failure(e)
      case Success(chk) =>
        AssembleFrame(sync, address, code, len, payload, chk);
        Success(body + chk)
  }

  /** Header, length field, payload and a matching checksum field make a well-formed frame. */
  lemma AssembleFrame(sync: byte, address: byte, code: byte, len: seq<byte>, payload: seq<byte>, chk: seq<byte>)
    requires |len| == 2 && FromBE(len) == ChecksumLen + |payload|
    requires |chk| == ChecksumLen && FromBE(chk) == Sum([sync, address, code] + len + payload)
    ensures WellFormed([sync, address, code] + len + payload + chk, sync, address, code, payload)
  {
    var body := [sync, address, code] + len + payload;
    var f := body + chk;
    assert body[3..5] == len && body[HeaderLen..] == payload;
    assert f[..HeaderLen + |payload|] == body;
    assert f[HeaderLen + |payload|..] == chk;
    assert f[3..5] == len;
    assert f[HeaderLen..HeaderLen + |payload|] == payload;
  }

  lemma SumsOfHeader(sync: byte, address: byte, code: byte, len: seq<byte>, payload: seq<byte>)
    requires |len| == 2 && FromBE(len) == ChecksumLen + |payload|
    ensures Sum([sync, address, code] + len + payload) == HeaderSum(sync, address, code, |payload|) + Sum(payload)
  {
    var n := ChecksumLen + |payload|;
    assert len[0] == n / 256 && len[1] == n % 256 by {
      FromBETwo(len[0], len[1]);
      assert len == [len[0], len[1]];
    }
    var header := [sync, address, code];
    SumAppend(header + len, payload);
    SumAppend(header, len);
    assert Sum(len) == len[0] as int + len[1] by {
      assert len == [len[0]] + [len[1]];
      SumCons(len[0], [len[1]]);
      SumCons(len[1], []);
    }
    assert Sum(header) == sync as int + address + code by {
      assert header == [sync] + ([address] + [code]);
      SumCons(sync, [address] + [code]);
      SumCons(address, [code]);
      SumCons(code, []);
    }
  }

  /** Only one byte string is a well-formed frame for given fields. */
  lemma WellFormedUnique(f: seq<byte>, g: seq<byte>, sync: byte, address: byte, code: byte, payload: seq<byte>)
    requires WellFormed(f, sync, address, code, payload)
    requires WellFormed(g, sync, address, code, payload)
    ensures f == g
  {
    var n := |payload|;
    ToBEOfFromBE(f[3..5]);
    ToBEOfFromBE(g[3..5]);
    assert f[..HeaderLen + n] == [sync, address, code] + f[3..5] + payload;
    assert g[..HeaderLen + n] == [sync, address, code] + g[3..5] + payload;
    ToBEOfFromBE(f[HeaderLen + n..]);
    ToBEOfFromBE(g[HeaderLen + n..]);
    assert f == f[..HeaderLen + n] + f[HeaderLen + n..];
    assert g == g[..HeaderLen + n] + g[HeaderLen + n..];
  }

  /**
   * `_build_command`: the host-to-radar frame for `code` and `data`, or the
   * exception raised on the way (the length field first, then the payload
   * bytes, then the checksum).
   */
  function BuildCommand(c: Constants, code: byte, data: Data): (r: Result<seq<byte>, Error>)
    ensures r.Success? <==>
      && |Payload(data)| <= 65533
      && AllBytes(Payload(data))
      && HeaderSum(c.head, c.receiveAddress, code, |Payload(data)|) + Sum(AsBytes(Payload(data))) < 65536
    ensures r.Success? ==> WellFormed(r.value, c.head, c.receiveAddress, code, AsBytes(Payload(data)))
    ensures r.Failure? && !(|Payload(data)| <= 65533) ==> r.error == OverflowError
    ensures r.Failure? && |Payload(data)| <= 65533 && !AllBytes(Payload(data)) ==> r.error == ValueError
    ensures r.Failure? && AllBytes(Payload(data)) ==> r.error == OverflowError
  {
    var items := Payload(data);
    if ChecksumLen + |items| >= 65536 then Failure(OverflowError)
    else if !AllBytes(items) then Failure(ValueError)
      else EncodeFrame(c.head, c.receiveAddress, code, AsBytes(items))
  }

  /** The first five bytes of a frame built without data: length field exactly 2. */
  lemma NoDataLength(c: Constants, code: byte)
    ensures BuildCommand(c, code, NoData).Success?
    ensures var f := BuildCommand(c, code, NoData).value;
      |f| == 7 && FromBE(f[3..5]) == 2 && f[3] == 0 && f[4] == 2
  {
    var f := BuildCommand(c, code, NoData).value;
    FromBETwo(f[3], f[4]);
    assert f[3..5] == [f[3], f[4]];
  }

  /** A parameterless query with `HEAD = 0xA5`, `RECEIVE_ADDRESS = 0x01` and code `0x02`. */
  lemma BuildExample(c: Constants)
    requires c.head == 0xA5 && c.receiveAddress == 0x01
    ensures BuildCommand(c, 0x02, NoData) == Success([0xA5, 0x01, 0x02, 0x00, 0x02, 0x00, 0xAA])
  {
    var g: seq<byte> := [0xA5, 0x01, 0x02, 0x00, 0x02, 0x00, 0xAA];
    NoDataLength(c, 0x02);
    FromBETwo(0x00, 0x02);
    FromBETwo(0x00, 0xAA);
    assert g[3..5] == [0x00, 0x02] && g[5..] == [0x00, 0xAA];
    var h: seq<byte> := [0xA5, 0x01, 0x02, 0x00, 0x02];
    assert g[..5] == h;
    assert h[1..][1..][1..][1..][1..] == [];
    assert Sum(h) == 0xAA;
    assert WellFormed(g, c.head, c.receiveAddress, 0x02, []);
    WellFormedUnique(BuildCommand(c, 0x02, NoData).value, g, c.head, c.receiveAddress, 0x02, []);
  }
}
