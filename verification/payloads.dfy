/**
 * The payload layouts of the individual commands: pure conversions between
 * integers and payload bytes. Speeds are integers in hundredths of a metre
 * per second, the unit the radar sends.
 */
module Payloads {
  import opened Wrappers
  import opened Bytes
  import opened Frame

  /** Python's `s[lo:hi]` for `0 <= lo <= hi`: bounds past the end are clamped. */
  function Slice(s: seq<byte>, lo: nat, hi: nat): (r: seq<byte>)
    requires lo <= hi
    ensures |r| == Min(hi, |s|) - Min(lo, |s|)
    ensures forall i :: 0 <= i < |r| ==> r[i] == s[lo + i]
  {
    s[Min(lo, |s|)..Min(hi, |s|)]
  }

  // ---------------------------------------------------------------------------
  // Target information: two-byte speed, one-byte state

  datatype TargetInfo = TargetInfo(speed: nat, state: nat)

  /** `get_target_info`: speed from `data[:2]`, state from `data[2:3]`, both big-endian. */
  function ParseTargetInfo(data: seq<byte>): (t: TargetInfo)
    ensures t.speed < 65536 && t.state < 256
    ensures |data| >= 3 ==> t.speed == data[0] as int * 256 + data[1] && t.state == data[2]
    ensures |data| == 2 ==> t.speed == data[0] as int * 256 + data[1] && t.state == 0
    ensures |data| == 1 ==> t.speed == data[0] && t.state == 0
    ensures |data| == 0 ==> t.speed == 0 && t.state == 0
  {
    TargetInfoFields(data);
    TargetInfo(FromBE(Slice(data, 0, 2)), FromBE(Slice(data, 2, 3)))
  }

  lemma TargetInfoFields(data: seq<byte>)
    ensures |data| >= 2 ==> FromBE(Slice(data, 0, 2)) == data[0] as int * 256 + data[1]
    ensures |data| == 1 ==> FromBE(Slice(data, 0, 2)) == data[0]
    ensures |data| == 0 ==> FromBE(Slice(data, 0, 2)) == 0
    ensures |data| >= 3 ==> FromBE(Slice(data, 2, 3)) == data[2]
    ensures |data| <= 2 ==> FromBE(Slice(data, 2, 3)) == 0
  {
    var speed := Slice(data, 0, 2);
    var state := Slice(data, 2, 3);
    if |data| >= 2 {
      assert speed == [data[0], data[1]];
      FromBETwo(data[0], data[1]);
    } else if |data| == 1 {
      assert speed == [data[0]];
      FromBEOne(data[0]);
    }
    if |data| >= 3 {
      assert state == [data[2]];
      FromBEOne(data[2]);
    }
  }

  /** The payload the radar sends for a given speed and state. */
  lemma TargetInfoRoundTrip(speed: nat, state: byte, extra: seq<byte>)
    requires speed < 65536
    ensures ParseTargetInfo(Digits(speed, 2) + [state] + extra) == TargetInfo(speed, state)
  {
    var d := Digits(speed, 2);
    DigitsValue(speed, 2);
    FromBETwo(d[0], d[1]);
    assert d == [d[0], d[1]];
  }

  // ---------------------------------------------------------------------------
  // IQ samples: interleaved I and Q bytes

  /** `data[::2]`: the bytes at even indices. */
  function Evens(s: seq<byte>): (r: seq<byte>)
    ensures |r| == (|s| + 1) / 2
    ensures forall i :: 0 <= i < |r| ==> r[i] == s[2 * i]
    decreases |s|, 1
  {
    if |s| == 0 then [] else [s[0]] + Odds(s[1..])
  }

  /** `data[1::2]`: the bytes at odd indices. */
  function Odds(s: seq<byte>): (r: seq<byte>)
    ensures |r| == |s| / 2
    ensures forall i :: 0 <= i < |r| ==> r[i] == s[2 * i + 1]
    decreases |s|, 0
  {
    if |s| == 0 then [] else Evens(s[1..])
  }

  /** Merges I and Q samples back into one stream, I first. */
  function Interleave(i: seq<byte>, q: seq<byte>): (r: seq<byte>)
    requires |q| <= |i| <= |q| + 1
    ensures |r| == |i| + |q|
    decreases |i| + |q|
  {
    if |i| == 0 then [] else [i[0]] + Interleave(q, i[1..])
  }

  /** De-interleaving loses nothing: merging the even and odd bytes restores the data. */
  lemma {:induction false} InterleaveSplit(s: seq<byte>)
    ensures Interleave(Evens(s), Odds(s)) == s
    decreases |s|
  {
    if |s| > 0 {
      InterleaveSplit(s[1..]);
      assert Evens(s[1..]) == Odds(s);
      assert Odds(s[1..]) == Evens(s)[1..];
    }
  }

  /** Splitting a merged stream gives back the I and Q samples. */
  lemma {:induction false} SplitInterleave(i: seq<byte>, q: seq<byte>)
    requires |q| <= |i| <= |q| + 1
    ensures Evens(Interleave(i, q)) == i && Odds(Interleave(i, q)) == q
    decreases |i| + |q|
  {
    if |i| > 0 {
      SplitInterleave(q, i[1..]);
      var m := Interleave(i, q);
      assert m[1..] == Interleave(q, i[1..]);
      assert [i[0]] + i[1..] == i;
    }
  }

  datatype IqSamples = IqSamples(i: seq<nat>, q: seq<nat>)

  /** Each sample `int.from_bytes([b], byteorder='big')` of a byte list. */
  function ByteValues(s: seq<byte>): (r: seq<nat>)
    ensures r == s
  {
    if |s| == 0 then [] else FromBEOne(s[0]); [FromBE([s[0]])] + ByteValues(s[1..])
  }

  /** `get_IQADC`: I from the even-indexed bytes, Q from the odd-indexed ones. */
  function ParseIq(data: seq<byte>): (r: IqSamples)
    ensures |r.i| == (|data| + 1) / 2 && |r.q| == |data| / 2
    ensures forall k :: 0 <= k < |r.i| ==> r.i[k] == data[2 * k]
    ensures forall k :: 0 <= k < |r.q| ==> r.q[k] == data[2 * k + 1]
  {
    IqSamples(ByteValues(Evens(data)), ByteValues(Odds(data)))
  }

  // ---------------------------------------------------------------------------
  // Speed detection range: maximum then minimum, two bytes each

  datatype SpeedRange = SpeedRange(minSpeed: int, maxSpeed: int)

  /**
   * `set_speed_detection_range`: `max.to_bytes(2) + min.to_bytes(2)`, raising
   * OverflowError when a speed is negative or above 65535.
   */
  function EncodeSpeedRange(minSpeed: int, maxSpeed: int): (r: Result<seq<byte>, Error>)
    ensures r.Success? <==> 0 <= minSpeed < 65536 && 0 <= maxSpeed < 65536
    ensures r.Success? ==> |r.value| == 4
    ensures r.Failure? ==> r.error == OverflowError
  {
    match ToBE(minSpeed, 2)
    case None => Failure(OverflowError)
    case Some(lo) =>
      match ToBE(maxSpeed, 2)
      case None => Failure(OverflowError)
      case Some(hi) => Success(hi + lo)
  }

  /** `_parse_speed_range_data`: maximum from `data[:2]`, minimum from all of `data[2:]`. */
  function ParseSpeedRange(data: seq<byte>): (r: SpeedRange)
    ensures 0 <= r.maxSpeed < 65536 && 0 <= r.minSpeed
    ensures |data| >= 2 ==> r.maxSpeed == data[0] as int * 256 + data[1]
    ensures |data| == 4 ==> r.minSpeed == data[2] as int * 256 + data[3]
  {
    SpeedRangeFields(data);
    SpeedRange(FromBE(data[Min(2, |data|)..]), FromBE(data[..Min(2, |data|)]))
  }

  lemma SpeedRangeFields(data: seq<byte>)
    ensures |data| >= 2 ==> FromBE(data[..Min(2, |data|)]) == data[0] as int * 256 + data[1]
    ensures |data| == 4 ==> FromBE(data[Min(2, |data|)..]) == data[2] as int * 256 + data[3]
  {
    if |data| >= 2 {
      assert data[..Min(2, |data|)] == [data[0], data[1]];
      FromBETwo(data[0], data[1]);
    }
    if |data| == 4 {
      assert data[Min(2, |data|)..] == [data[2], data[3]];
      FromBETwo(data[2], data[3]);
    }
  }

  /** An encoded range parses back to the same pair. */
  lemma SpeedRangeRoundTrip(minSpeed: int, maxSpeed: int)
    requires EncodeSpeedRange(minSpeed, maxSpeed).Success?
    ensures ParseSpeedRange(EncodeSpeedRange(minSpeed, maxSpeed).value) == SpeedRange(minSpeed, maxSpeed)
  {
    var hi := ToBE(maxSpeed, 2).value;
    var lo := ToBE(minSpeed, 2).value;
    var e := EncodeSpeedRange(minSpeed, maxSpeed).value;
    assert e == hi + lo;
    assert e[..2] == hi && e[2..] == lo;
  }

  /** A four-byte payload is the encoding of the range it parses to. */
  lemma SpeedRangeFromPayload(data: seq<byte>)
    requires |data| == 4
    ensures var r := ParseSpeedRange(data);
      EncodeSpeedRange(r.minSpeed, r.maxSpeed) == Success(data)
  {
    var hi := data[..2];
    var lo := data[2..];
    ToBEOfFromBE(hi);
    ToBEOfFromBE(lo);
    assert data == hi + lo;
  }

  // ---------------------------------------------------------------------------
  // Detection threshold: four bytes; mode: one byte

  const ThresholdLen := 4

  /** `threshold.to_bytes(4, byteorder='big')`, raising OverflowError outside `[0, 2^32)`. */
  function EncodeThreshold(threshold: int): (r: Result<seq<byte>, Error>)
    ensures r.Success? <==> 0 <= threshold < 0x1_0000_0000
    ensures r.Success? ==> |r.value| == ThresholdLen && FromBE(r.value) == threshold
    ensures r.Failure? ==> r.error == OverflowError
  {
    assert Pow256(ThresholdLen) == 0x1_0000_0000;
    match ToBE(threshold, ThresholdLen)
    case None => Failure(OverflowError)
    case Some(b) => Success(b)
  }

  /** A four-byte payload is the encoding of its own big-endian value. */
  lemma ThresholdFromPayload(data: seq<byte>)
    requires |data| == ThresholdLen
    ensures EncodeThreshold(FromBE(data)) == Success(data)
  {
    ToBEOfFromBE(data);
  }

  /** `set_mode_*`: the mode constant is passed as a scalar, i.e. a one-byte payload. */
  function ModeData(mode: byte): (d: Data)
    ensures Payload(d) == [mode]
  {
    Scalar(mode)
  }
}
