# Grove Doppler radar (BGT24LTR11) serial codec, modelled in Dafny

This project models the byte-level command/response codec of the Python
driver class `Radar` for the Seeed Grove Doppler radar, which is built on
the Infineon BGT24LTR11 chip. The driver talks to the radar over a serial
link, and it does three things:

- **Outbound encoder** (`_calculate_checksum`, `_build_command`). It builds
  the frame `[HEAD, RECEIVE_ADDRESS, code, len_hi, len_lo, payload…, chk_hi, chk_lo]`.
  - The length field counts the payload plus the two checksum bytes.
  - The checksum is the plain sum of every earlier byte, written with
    `to_bytes(2)`.
- **Inbound scanner** (`_read_response`). It reads the port one byte at a
  time, for at most 100 loop iterations. When it sees `HEAD` followed by
  `SEND_ADDRESS`, it reads the code, the length, `length - 2` data bytes and
  two checksum bytes. It accepts the frame only when the checksum equals the
  sum of everything it collected.
- **Per-command payloads**:
  - target information: a 2-byte speed and a 1-byte state;
  - IQ samples: even bytes are I, odd bytes are Q;
  - speed range: the maximum, then the minimum, 2 bytes each;
  - mode: one byte;
  - detection threshold: 4 bytes.

Frames are `seq<byte>`. The Python exceptions are failure values
(`OverflowError`, `ValueError`). The serial port is a finite input sequence
read through a cursor: `read(n)` returns the next `min(n, remaining)` bytes.
The protocol constants live in the driver's `constants.py`, which is not part
of this model. They are a `Constants` parameter made of bytes, so every
result holds for every choice of their values.

Modules, leaves first:

- `Wrappers`: `Option` and `Result`.
- `Bytes`: `Sum`, plus big-endian `FromBE` and `ToBE` (`int.from_bytes` and `int.to_bytes`). `Word` is the two-byte case that the length and checksum fields use.
- `Protocol`: the constants.
- `Frame`: the frame layout and the encoder.
- `Reader`: the scanner.
- `Payloads`: the per-command codecs.
- `Radar`: the commands, each one a full exchange.

Where a description of this protocol and the code disagree, the model
follows the code:

- The checksum is **not** reduced modulo 65536. When the byte sum does not
  fit in two bytes, `to_bytes(2)` raises `OverflowError`. On the inbound
  side, such a frame can never validate (`Reader.LargeSumRejected`).
- A `HEAD` followed by a byte other than `SEND_ADDRESS` does **not** end the
  read. Scanning goes on with the remaining iterations. The byte after
  `HEAD` is consumed, and the stray `HEAD` stays in the buffer, so it is
  added into the checksum of any later frame (`Reader.StrayHeadCounted`).
- One `MESSAGE_HEAD` constant is used for both directions. Only the address
  byte differs between directions.
- Every failure returns `None`. The model tells the two kinds apart
  internally (`NoFrame`, `ChecksumMismatch`), and `Reception.Response()`
  gives the `None`-or-dict view of the source. The code has no separate
  "underrun" failure. Short reads at the end of the input flow on into the
  checksum comparison, as in the code.

## Model

| member | source | states |
|---|---|---|
| Bytes.Sum | BGT24LTR11/BGT24LTR11.py:36 | the byte sum is a natural number of at most 255 per byte |
| Bytes.SumAppend | BGT24LTR11/BGT24LTR11.py:89 | the sum of a concatenation is the sum of the sums, so bytes appended to the buffer add to the checksum |
| Bytes.SumCons | BGT24LTR11/BGT24LTR11.py:89 | a byte put in front of the buffer adds its value to the sum |
| Bytes.FromBE | BGT24LTR11/BGT24LTR11.py:81 | `int.from_bytes(…, 'big')` of w bytes is below 256^w |
| Bytes.DigitsValue | BGT24LTR11/BGT24LTR11.py:54 | the w base-256 digits of n < 256^w read back big-endian as n |
| Bytes.ToBE | BGT24LTR11/BGT24LTR11.py:37 | `to_bytes(w)` succeeds exactly for 0 <= n < 256^w, and then gives w bytes whose big-endian value is n (raises otherwise) |
| Bytes.ToBEOfFromBE | BGT24LTR11/BGT24LTR11.py:81 | `from_bytes` and `to_bytes` are inverse: re-encoding the value of w bytes gives the same bytes |
| Bytes.Word | BGT24LTR11/BGT24LTR11.py:54 | `n.to_bytes(2, 'big')` for n below 65536: two bytes whose big-endian value is n |
| Bytes.WordIsToBE | BGT24LTR11/BGT24LTR11.py:37 | the two-byte form agrees with the general `to_bytes`: for n below 65536, `ToBE(n, 2)` succeeds with `Word(n)` |
| Bytes.FromBETwo | BGT24LTR11/BGT24LTR11.py:117 | two big-endian bytes have value hi*256 + lo |
| Frame.CalculateChecksum | BGT24LTR11/BGT24LTR11.py:34-37 | succeeds exactly when the sum is below 65536, and then gives two bytes whose big-endian value is the sum; raises OverflowError otherwise, with no wrap-around |
| Frame.EncodeFrame | BGT24LTR11/BGT24LTR11.py:42-63 | succeeds exactly when the length and the header-plus-payload sum fit in two bytes, and then gives a well-formed frame: sync, address and code at 0..2, length 2+n at 3..4, payload verbatim at 5.., total 7+n, checksum of all earlier bytes last |
| Frame.WellFormedUnique | BGT24LTR11/BGT24LTR11.py:42-63 | the field description pins down the frame bytes uniquely |
| Frame.BuildCommand | BGT24LTR11/BGT24LTR11.py:39-63 | succeeds exactly when the length fits, every data item is a byte and the checksum fits, and then gives the well-formed host-to-radar frame for the code and payload; otherwise raises OverflowError for the length, then ValueError for a non-byte item, then OverflowError for the checksum |
| Frame.NoDataLength | BGT24LTR11/BGT24LTR11.py:48-55 | without data the frame always builds, has 7 bytes, and its length field is exactly `00 02` |
| Frame.BuildExample | BGT24LTR11/BGT24LTR11.py:39-63 | with HEAD 0xA5 and RECEIVE_ADDRESS 0x01, code 0x02 builds `A5 01 02 00 02 00 AA` |
| Reader.ReadsCompose | BGT24LTR11/BGT24LTR11.py:69-84 | two successive reads of a and b bytes return what one read of a+b bytes would, so the field-by-field reads take consecutive stretches of the input |
| Reader.ReadFields | BGT24LTR11/BGT24LTR11.py:77-84 | the four body reads take at most 1, 2 and 2 bytes for code, length and checksum, and leave the cursor after all four fields, within the input |
| Reader.Finish | BGT24LTR11/BGT24LTR11.py:77-98 | the body read never reports "no frame", and keeps the cursor within the input |
| Reader.Scan | BGT24LTR11/BGT24LTR11.py:68-76 | the cursor only moves forward within the input |
| Reader.AfterHead | BGT24LTR11/BGT24LTR11.py:71-76 | the cursor only moves forward within the input |
| Reader.ReadResponse | BGT24LTR11/BGT24LTR11.py:65-100 | with no frame found, between min(100, n) and min(200, n) input bytes were consumed, so the read is bounded |
| Reader.ScanBounded | BGT24LTR11/BGT24LTR11.py:68-76 | when the iterations run out, each one consumed at least one byte (while any remained) and at most two |
| Reader.AfterHeadBounded | BGT24LTR11/BGT24LTR11.py:72-76 | the address read after HEAD consumes at most one more byte before scanning resumes |
| Reader.Validate | BGT24LTR11/BGT24LTR11.py:89-98 | the reply is accepted exactly when the big-endian value of the checksum read equals the sum of the collected bytes, and its bytes are then the collected bytes followed by that checksum; otherwise the read fails as a checksum mismatch |
| Reader.FinishValidated | BGT24LTR11/BGT24LTR11.py:77-94 | a reply accepted by the body read ends in a checksum that validates the bytes before it |
| Reader.ScanValidated | BGT24LTR11/BGT24LTR11.py:68-94 | a reply accepted anywhere in the loop ends in a checksum that validates the bytes before it |
| Reader.AfterHeadValidated | BGT24LTR11/BGT24LTR11.py:72-94 | a reply accepted after HEAD ends in a checksum that validates the bytes before it |
| Reader.ReadResponseValidated | BGT24LTR11/BGT24LTR11.py:65-98 | any reply `_read_response` returns ends in a checksum of at most two bytes equal to the sum of the bytes before it (its layout is `Reader.ReadResponseFramed`) |
| Reader.FinishFramed | BGT24LTR11/BGT24LTR11.py:77-98 | a reply accepted by the body read after k HEAD bytes and SEND_ADDRESS is those bytes, the code, a length field of at most two bytes, the data and a checksum of at most two bytes, in that order |
| Reader.ScanFramed | BGT24LTR11/BGT24LTR11.py:68-98 | a reply accepted anywhere in the loop, after k buffered HEAD bytes, is one or more HEAD bytes, SEND_ADDRESS, the code, the length field, the data and the checksum |
| Reader.AfterHeadFramed | BGT24LTR11/BGT24LTR11.py:72-98 | a reply accepted after a HEAD has the same layout: only stray HEAD bytes can precede SEND_ADDRESS |
| Reader.ReadResponseFramed | BGT24LTR11/BGT24LTR11.py:65-98 | any reply `_read_response` returns is one or more HEAD bytes, SEND_ADDRESS, its command code, a length field, its data and a validating checksum, in that order |
| Reader.ValidatedSumBound | BGT24LTR11/BGT24LTR11.py:89-91 | a validated reply's bytes before its checksum sum to less than 65536 |
| Reader.ScanSkip | BGT24LTR11/BGT24LTR11.py:68-71 | one iteration over a byte other than HEAD consumes that byte and leaves the buffer alone |
| Reader.SkipNoise | BGT24LTR11/BGT24LTR11.py:68-71 | bytes other than HEAD are skipped at one per iteration, and the buffer is left alone |
| Reader.NoiseOnlyScan | BGT24LTR11/BGT24LTR11.py:68-100 | with no HEAD within reach, the loop ends with no frame after exactly min(iterations, remaining) bytes |
| Reader.ReadResponseNoHead | BGT24LTR11/BGT24LTR11.py:66-100 | with no HEAD in the first 100 bytes, the read returns None after consuming exactly min(100, n) bytes |
| Reader.StrayHead | BGT24LTR11/BGT24LTR11.py:71-76 | HEAD followed by a wrong address byte consumes both bytes, keeps HEAD in the buffer and continues scanning with one iteration fewer |
| Reader.ScanAtHead | BGT24LTR11/BGT24LTR11.py:71-77 | HEAD followed by SEND_ADDRESS hands over to the body read with both bytes in the buffer |
| Reader.FrameFields | BGT24LTR11/BGT24LTR11.py:77-84 | over a complete frame body, the four reads return exactly its code, length field, payload and checksum field |
| Reader.FinishFrame | BGT24LTR11/BGT24LTR11.py:77-98 | after the address, a complete body is accepted exactly when its checksum equals the sum of buffer, code, length and data, and is otherwise rejected |
| Reader.ScanFrame | BGT24LTR11/BGT24LTR11.py:68-98 | noise without HEAD, then a complete frame within the budget: accepted (bytes, code, payload) exactly when the checksum matches, with the cursor just past the frame |
| Reader.ChecksumDecides | BGT24LTR11/BGT24LTR11.py:86-98 | for noise then a structurally complete inbound frame, the reply is returned exactly when the received checksum equals the sum of header, length and data; otherwise the read returns None |
| Reader.NoiseThenFrame | BGT24LTR11/BGT24LTR11.py:65-98 | noise, then a structurally complete inbound frame: the read comes down to comparing the frame's checksum with the sum of its earlier bytes, with the cursor just past the frame |
| Reader.LargeSumRejected | BGT24LTR11/BGT24LTR11.py:89-91 | an inbound frame whose byte sum is 65536 or more is always rejected |
| Reader.DecodeAfterNoise | BGT24LTR11/BGT24LTR11.py:65-98 | noise without HEAD, shorter than the budget, then a well-formed inbound frame decodes to that frame: command = all its bytes including the checksum, command_code = its third byte, data = its payload |
| Reader.EncodeThenRead | BGT24LTR11/BGT24LTR11.py:42-98 | what the encoder frames with SEND_ADDRESS, the scanner reads back intact |
| Reader.StrayHeadCounted | BGT24LTR11/BGT24LTR11.py:71-91 | after a stray HEAD and a wrong address byte, a frame is accepted exactly when its checksum equals HEAD plus its own byte sum, and the stray HEAD heads the returned bytes |
| Reader.StrayHeadThenFrame | BGT24LTR11/BGT24LTR11.py:71-98 | after a stray HEAD and a wrong address byte, the read compares the frame's checksum with the sum of the stray HEAD and the frame's earlier bytes |
| Payloads.Slice | BGT24LTR11/BGT24LTR11.py:117-118 | Python slicing clamps its bounds to the sequence |
| Payloads.ParseTargetInfo | BGT24LTR11/BGT24LTR11.py:116-118 | speed is the big-endian value of the first two bytes, and state is the third byte, with short data read as Python's clamped slices |
| Payloads.TargetInfoRoundTrip | BGT24LTR11/BGT24LTR11.py:116-118 | a two-byte speed and a state byte, followed by anything, parse back to the same pair |
| Payloads.Evens | BGT24LTR11/BGT24LTR11.py:179 | `data[::2]` has ceil(n/2) elements, and element k is data[2k] |
| Payloads.Odds | BGT24LTR11/BGT24LTR11.py:180 | `data[1::2]` has floor(n/2) elements, and element k is data[2k+1] |
| Payloads.InterleaveSplit | BGT24LTR11/BGT24LTR11.py:179-180 | interleaving I and Q restores the data, so nothing is lost |
| Payloads.SplitInterleave | BGT24LTR11/BGT24LTR11.py:179-180 | de-interleaving an interleaved pair gives back I and Q |
| Payloads.ByteValues | BGT24LTR11/BGT24LTR11.py:183-184 | `int.from_bytes([b])` of each byte is the byte itself |
| Payloads.ParseIq | BGT24LTR11/BGT24LTR11.py:178-185 | I holds the even-indexed bytes and Q the odd-indexed ones, with matching counts |
| Payloads.EncodeSpeedRange | BGT24LTR11/BGT24LTR11.py:220-224 | succeeds exactly when both speeds are in [0, 65536), giving 4 bytes; raises OverflowError otherwise |
| Payloads.ParseSpeedRange | BGT24LTR11/BGT24LTR11.py:190-192 | maximum is the big-endian value of the first two bytes, and minimum is the value of all of the remaining bytes |
| Payloads.SpeedRangeRoundTrip | BGT24LTR11/BGT24LTR11.py:190-224 | an encoded (min, max) pair parses back to the same pair, max first |
| Payloads.SpeedRangeFromPayload | BGT24LTR11/BGT24LTR11.py:190-192 | every 4-byte payload is the encoding of the range it parses to |
| Payloads.EncodeThreshold | BGT24LTR11/BGT24LTR11.py:328-329 | succeeds exactly for 0 <= t < 2^32, giving 4 bytes whose big-endian value is t; raises OverflowError otherwise |
| Payloads.ThresholdFromPayload | BGT24LTR11/BGT24LTR11.py:328-329 | every 4-byte payload is the threshold encoding of its own value |
| Payloads.ModeData | BGT24LTR11/BGT24LTR11.py:280-283 | a mode passed as a scalar becomes the one-byte payload [mode] |
| Radar.Transact | BGT24LTR11/BGT24LTR11.py:111-116 | raises exactly when building raises; otherwise sends the well-formed frame, and answers with the reply's data exactly when the read returns a reply |
| Radar.QueryNeverRaises | BGT24LTR11/BGT24LTR11.py:111-112 | a query without data never raises and sends 7 bytes |
| Radar.TransactFrame | BGT24LTR11/BGT24LTR11.py:111-116 | a command that builds, followed by a frame on the input, answers with that frame's data at the read's cursor |
| Radar.TransactDelivers | BGT24LTR11/BGT24LTR11.py:111-116 | noise then a well-formed response delivers exactly that response's payload and consumes exactly up to its end |
| Radar.GetTargetInfo | BGT24LTR11/BGT24LTR11.py:102-133 | sends the 7-byte GET_TARGET query; answers exactly when a reply was read, with the speed and state parsed from that reply's data (speed < 65536, state < 256) |
| Radar.GetTargetState | BGT24LTR11/BGT24LTR11.py:135-151 | the state of `get_target_info`, or None when it has none |
| Radar.GetTargetSpeed | BGT24LTR11/BGT24LTR11.py:153-164 | the speed of `get_target_info`, or None when it has none |
| Radar.TargetInfoDecoded | BGT24LTR11/BGT24LTR11.py:114-131 | a response carrying speed and state is answered with exactly that speed and state |
| Radar.TargetInfoExample | BGT24LTR11/BGT24LTR11.py:114-131 | with HEAD 0xA6 and SEND_ADDRESS 0x02, `A6 02 02 00 05 00 C8 01 01 78` gives speed 200 (2.00 m/s) and state 1 |
| Radar.GetIqadc | BGT24LTR11/BGT24LTR11.py:166-187 | sends the GET_IQADC query; answers exactly when a reply was read, with the even/odd split of that reply's data, as many samples as payload bytes |
| Radar.IqDecoded | BGT24LTR11/BGT24LTR11.py:176-185 | the answer is the even/odd split of the response payload, and it interleaves back to the payload |
| Radar.GetSpeedDetectionRange | BGT24LTR11/BGT24LTR11.py:199-213 | sends the GET_SPEED_SCOPE query; answers exactly when a reply was read, with the range parsed from that reply's data (maximum below 65536) |
| Radar.SetSpeedDetectionRange | BGT24LTR11/BGT24LTR11.py:215-237 | raises OverflowError exactly when a speed is outside [0, 65536); otherwise sends an 11-byte frame, well formed for HEAD, RECEIVE_ADDRESS and SET_SPEED_SCOPE (length field 6, checksum the sum of the earlier bytes) whose four-byte payload is the two big-endian speeds and parses back to (min, max), and answers with the range parsed from the reply's data |
| Radar.SpeedRangeDecoded | BGT24LTR11/BGT24LTR11.py:208-211 | a response carrying an encoded range is answered with that range |
| Radar.GetMode | BGT24LTR11/BGT24LTR11.py:239-274 | sends the GET_MODE query; answers exactly when a reply was read, with the big-endian value of that reply's data, below 256^n for n data bytes |
| Radar.SetMode | BGT24LTR11/BGT24LTR11.py:280-289 | never raises, sends an 8-byte frame, well formed for HEAD, RECEIVE_ADDRESS and SET_MODE (length field 3, checksum the sum of the earlier bytes) whose single payload byte is the mode, and answers exactly when a reply was read, with the big-endian value of its data |
| Radar.SetModeTarget | BGT24LTR11/BGT24LTR11.py:276-289 | sends an 8-byte frame, well formed for HEAD, RECEIVE_ADDRESS and SET_MODE (length field 3, checksum the sum of the earlier bytes) whose single payload byte is MODE_TARGET; the answer is the big-endian value of the reply's data, when a reply was read |
| Radar.SetModeIqadc | BGT24LTR11/BGT24LTR11.py:291-304 | sends an 8-byte frame, well formed for HEAD, RECEIVE_ADDRESS and SET_MODE (length field 3, checksum the sum of the earlier bytes) whose single payload byte is MODE_IQADC; the answer is the big-endian value of the reply's data, when a reply was read |
| Radar.ModeDecoded | BGT24LTR11/BGT24LTR11.py:257-260 | a one-byte mode response is answered with that mode by `get_mode` |
| Radar.SetModeDecoded | BGT24LTR11/BGT24LTR11.py:280-288 | a one-byte mode response is answered with that mode by `set_mode_target` |
| Radar.GetDetectionThreshold | BGT24LTR11/BGT24LTR11.py:306-319 | sends the GET_THRESHOLD query; answers exactly when a reply was read, with the big-endian value of its data |
| Radar.SetDetectionThreshold | BGT24LTR11/BGT24LTR11.py:321-336 | raises OverflowError exactly outside [0, 2^32); otherwise sends an 11-byte frame, well formed for HEAD, RECEIVE_ADDRESS and SET_THRESHOLD (length field 6, checksum the sum of the earlier bytes) whose payload is the threshold's four big-endian bytes, and answers with the big-endian value of the reply's data |
| Radar.ThresholdDecoded | BGT24LTR11/BGT24LTR11.py:332-334 | a response echoing the 4-byte threshold is answered with the threshold |

## Left out

- Serial plumbing is not modelled: `write`, the `is_open` check and the prints in `__init__` (BGT24LTR11/BGT24LTR11.py:24-30). A command's outgoing frame is its `request` field, and the incoming bytes are the `inbound` parameter.
- Timeouts are not modelled beyond "a read returns up to n bytes". A short read happens only at the end of the input, and bytes arriving after a timeout are not modelled.
- A read of a non-positive size (length field below 2) returns no bytes, as pyserial's read loop does. Other serial objects may behave differently there.
- The console output is left out, because it does not affect any result. This covers `print('Incorrect checksum')`, the verbose messages, and the save/restore of the verbosity flag in `get_target_state` / `get_target_speed`.
- The floating-point conversions (`speed / 100`, `int(speed * 100)`) are left out. Speeds are integers in hundredths of m/s, so the truncation of `int()` on floats is not modelled.
- `if response:` is modelled as "a reply was returned": the returned dictionary is never empty, so it is always truthy.
- The concrete values in `constants.py` are left out because that file is not part of this model. They are a parameter. The target-state constants (`TARGET_APPROACH` and the others) are only printed, so they do not appear.
- examples/speed_readings_visualization.py is left out: it only plots, and opens a real port.
- Payloads.ParseSpeedRange: its contract gives the minimum's value only for a 4-byte payload. For other lengths, the minimum is the value of all bytes after the first two, and only the definition says so.
- The default arguments are not modelled: `min_speed=0.5, max_speed=10` of `set_speed_detection_range` (BGT24LTR11/BGT24LTR11.py:215) and `threshold=200` of `set_detection_threshold` (BGT24LTR11/BGT24LTR11.py:321). Every call passes its values explicitly, so a default call is the call with those values (in hundredths of m/s: 50 and 1000).
