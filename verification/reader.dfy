/**
 * The inbound scanner `Radar._read_response`.
 *
 * The serial port is a finite byte sequence with a cursor: `read(n)` returns
 * the next `min(n, remaining)` bytes, so a read at the end of the input is
 * short or empty, and a read of a non-positive size returns nothing.
 */
module Reader {
  import opened Wrappers
  import opened Bytes
  import opened Protocol
  import opened Frame

  /** The loop bound `BYTES_MAX` of `_read_response`. */
  const BytesMax := 100

  /** How many bytes a read of size `n` gets when `available` remain. */
  function Clamp(n: int, available: nat): (k: nat)
    ensures k <= available
  {
    if n <= 0 then 0 else Min(n, available)
  }

  /** `serial.read(n)` at cursor `pos`. */
  function Read(s: seq<byte>, pos: nat, n: int): (r: seq<byte>)
    requires pos <= |s|
    // The ensures restate the body for the solver's benefit; the law of reads is ReadsCompose.
    ensures |r| == Clamp(n, |s| - pos)
    ensures pos + |r| <= |s| && r == s[pos..pos + |r|]
  {
    s[pos..pos + Clamp(n, |s| - pos)]
  }

  /** A one-byte read returns the byte at the cursor, or nothing at the end. */
  lemma ReadOne(s: seq<byte>, pos: nat)
    requires pos <= |s|
    ensures pos < |s| ==> Read(s, pos, 1) == [s[pos]]
    ensures pos == |s| ==> Read(s, pos, 1) == []
  {
    if pos < |s| {
      assert s[pos..pos + 1] == [s[pos]];
    }
  }

  /** A read with enough input left returns exactly the bytes asked for. */
  lemma ReadExact(s: seq<byte>, pos: nat, n: nat)
    requires pos + n <= |s|
    ensures Read(s, pos, n) == s[pos..pos + n]
  {
  }

  /** Two consecutive reads get what one read of the combined size would. */
  lemma ReadsCompose(s: seq<byte>, pos: nat, a: nat, b: nat)
    requires pos <= |s|
    ensures var first := Read(s, pos, a);
      first + Read(s, pos + |first|, b) == Read(s, pos, a + b)
  {
    var first := Read(s, pos, a);
    if a + b <= |s| - pos {
      assert s[pos..pos + a] + s[pos + a..pos + a + b] == s[pos..pos + a + b];
    } else if a <= |s| - pos {
      assert s[pos..pos + a] + s[pos + a..] == s[pos..];
    } else {
      assert s[pos..] + [] == s[pos..];
    }
  }

  /** The dictionary returned on success: the frame bytes, the code and the payload. */
  datatype Reply = Reply(command: seq<byte>, commandCode: seq<byte>, data: seq<byte>)

  /** Why a read ended: a reply was accepted, or not. The source returns `None` for both failures. */
  datatype Outcome = Accepted(reply: Reply) | ChecksumMismatch | NoFrame

  /** What a read produced, and the cursor it left the input at. */
  datatype Reception = Reception(outcome: Outcome, cursor: nat) {
    /** The source's return value: the reply, or `None`. */
    function Response(): (reply: Option<Reply>) {
      if outcome.Accepted? then Some(outcome.reply) else None
    }
  }

  /** `cmd` ends with a `k`-byte big-endian checksum equal to the sum of the bytes before it. */
  predicate ChecksumAt(cmd: seq<byte>, k: nat) {
    k <= |cmd| && FromBE(cmd[|cmd| - k..]) == Sum(cmd[..|cmd| - k])
  }

  /** `cmd` ends with a checksum of at most two bytes that validates the rest. */
  predicate Validated(cmd: seq<byte>) {
    exists k :: 0 <= k <= ChecksumLen && ChecksumAt(cmd, k)
  }

  /**
   * The part of `_read_response` after `HEAD, SEND_ADDRESS` was seen: read
   * the code, the length, `length - 2` data bytes and two checksum bytes, and
   * compare the checksum with the sum of everything collected so far.
   */
  function Finish(s: seq<byte>, pos: nat, response: seq<byte>): (r: Reception)
    requires pos <= |s|
    ensures pos <= r.cursor <= |s|
    ensures r.outcome.NoFrame? == false
  {
    var f := ReadFields(s, pos);
    Validate(response + f.code + f.len + f.data, f.code, f.data, f.chk, f.cursor)
  }

  /** The four fields read after `HEAD, SEND_ADDRESS`, and the cursor after them. */
  datatype Fields = Fields(code: seq<byte>, len: seq<byte>, data: seq<byte>, chk: seq<byte>, cursor: nat)

  /**
   * Read the code, the length, `length - 2` data bytes and two checksum
   * bytes; each read may come back short at the end of the input.
   */
  function ReadFields(s: seq<byte>, pos: nat): (f: Fields)
    requires pos <= |s|
    ensures pos <= f.cursor <= |s|
    ensures |f.code| <= 1 && |f.len| <= 2 && |f.chk| <= ChecksumLen
    ensures f.cursor == pos + |f.code| + |f.len| + |f.data| + |f.chk|
  {
    var code := Read(s, pos, 1);
    var len := Read(s, pos + |code|, 2);
    var data := Read(s, pos + |code| + |len|, FromBE(len) - ChecksumLen);
    var chk := Read(s, pos + |code| + |len| + |data|, ChecksumLen);
    Fields(code, len, data, chk, pos + |code| + |len| + |data| + |chk|)
  }

  /**
   * The checksum comparison that ends `_read_response`: the reply is
   * returned exactly when the checksum read matches the sum of everything
   * collected, and its bytes then end in that checksum.
   */
  function Validate(collected: seq<byte>, code: seq<byte>, data: seq<byte>, chk: seq<byte>, cursor: nat): (r: Reception)
    requires |chk| <= ChecksumLen
    ensures r.cursor == cursor
    ensures r.outcome.Accepted? <==> FromBE(chk) == Sum(collected)
    ensures r.outcome.Accepted? ==> r.outcome.reply == Reply(collected + chk, code, data)
    ensures r.outcome.Accepted? ==> ChecksumAt(r.outcome.reply.command, |chk|)
    ensures !r.outcome.Accepted? ==> r.outcome == ChecksumMismatch
  {
    if FromBE(chk) != Sum(collected) then
      Reception(ChecksumMismatch, cursor)
    else
      var command := collected + chk;
      assert command[..|command| - |chk|] == collected && command[|command| - |chk|..] == chk;
      Reception(Accepted(Reply(command, code, data)), cursor)
  }

  /**
   * The scanning loop with `iters` iterations left. Each iteration reads one
   * byte; when that read returned exactly the one byte `HEAD`, it keeps the
   * byte in `response` and goes on to the address byte.
   */
  function Scan(c: Constants, s: seq<byte>, pos: nat, response: seq<byte>, iters: nat): (r: Reception)
    requires pos <= |s|
    decreases iters, 0
    ensures pos <= r.cursor <= |s|
  {
    if iters == 0 then Reception(NoFrame, pos)
    else
      var b := Read(s, pos, 1);
      if |b| == 1 && b[0] == c.head then AfterHead(c, s, pos + 1, response + b, iters - 1)
      else Scan(c, s, pos + |b|, response, iters - 1)
  }

  /**
   * The rest of an iteration that read `HEAD` (already kept in `response`):
   * read the address byte, and go on to the frame body only on
   * `SEND_ADDRESS`; otherwise the next iteration starts after that byte.
   */
  function AfterHead(c: Constants, s: seq<byte>, pos: nat, response: seq<byte>, iters: nat): (r: Reception)
    requires pos <= |s|
    decreases iters, 1
    ensures pos <= r.cursor <= |s|
  {
    var a := Read(s, pos, 1);
    if |a| == 1 && a[0] == c.sendAddress then Finish(s, pos + 1, response + a)
    else Scan(c, s, pos + |a|, response, iters)
  }

  /** `_read_response`: at most `BytesMax` iterations from the start of the input. */
  function ReadResponse(c: Constants, s: seq<byte>): (r: Reception)
    ensures r.cursor <= |s|
    ensures r.outcome.NoFrame? ==> Min(BytesMax, |s|) <= r.cursor <= Min(2 * BytesMax, |s|)
  {
    ScanBounded(c, s, 0, [], BytesMax);
    Scan(c, s, 0, [], BytesMax)
  }

  /**
   * Each iteration consumes at least one byte while any remain, and at most
   * two: a loop that runs out has moved the cursor by between `iters` and
   * `2 * iters` bytes, within the input.
   */
  lemma {:induction false} ScanBounded(c: Constants, s: seq<byte>, pos: nat, response: seq<byte>, iters: nat)
    requires pos <= |s|
    ensures var r := Scan(c, s, pos, response, iters);
      r.outcome.NoFrame? ==> Min(pos + iters, |s|) <= r.cursor <= Min(pos + 2 * iters, |s|)
    decreases iters, 0
  {
    if iters > 0 {
      var b := Read(s, pos, 1);
      if |b| == 1 && b[0] == c.head {
        AfterHeadBounded(c, s, pos + 1, response + b, iters - 1);
      } else {
        ScanBounded(c, s, pos + |b|, response, iters - 1);
      }
    }
  }

  /** The address read after `HEAD` consumes at most one more byte. */
  lemma {:induction false} AfterHeadBounded(c: Constants, s: seq<byte>, pos: nat, response: seq<byte>, iters: nat)
    requires pos <= |s|
    ensures var r := AfterHead(c, s, pos, response, iters);
      r.outcome.NoFrame? ==> Min(pos + iters, |s|) <= r.cursor <= Min(pos + 1 + 2 * iters, |s|)
    decreases iters, 1
  {
    var a := Read(s, pos, 1);
    if !(|a| == 1 && a[0] == c.sendAddress) {
      ScanBounded(c, s, pos + |a|, response, iters);
    }
  }

  /** The body read: an accepted reply ends in a validating checksum. */
  lemma FinishValidated(s: seq<byte>, pos: nat, response: seq<byte>)
    requires pos <= |s|
    ensures var r := Finish(s, pos, response);
      r.outcome.Accepted? ==> Validated(r.outcome.reply.command)
  {
    var f := ReadFields(s, pos);
    var r := Validate(response + f.code + f.len + f.data, f.code, f.data, f.chk, f.cursor);
    if r.outcome.Accepted? {
      assert ChecksumAt(r.outcome.reply.command, |f.chk|);
    }
  }

  /** The scanning loop: an accepted reply ends in a validating checksum. */
  lemma {:induction false} ScanValidated(c: Constants, s: seq<byte>, pos: nat, response: seq<byte>, iters: nat)
    requires pos <= |s|
    ensures var r := Scan(c, s, pos, response, iters);
      r.outcome.Accepted? ==> Validated(r.outcome.reply.command)
    decreases iters, 0
  {
    if iters > 0 {
      var b := Read(s, pos, 1);
      if |b| == 1 && b[0] == c.head {
        AfterHeadValidated(c, s, pos + 1, response + b, iters - 1);
      } else {
        ScanValidated(c, s, pos + |b|, response, iters - 1);
      }
    }
  }

  /** The address byte after `HEAD`: an accepted reply ends in a validating checksum. */
  lemma {:induction false} AfterHeadValidated(c: Constants, s: seq<byte>, pos: nat, response: seq<byte>, iters: nat)
    requires pos <= |s|
    ensures var r := AfterHead(c, s, pos, response, iters);
      r.outcome.Accepted? ==> Validated(r.outcome.reply.command)
    decreases iters, 1
  {
    var a := Read(s, pos, 1);
    if |a| == 1 && a[0] == c.sendAddress {
      FinishValidated(s, pos + 1, response + a);
    } else {
      ScanValidated(c, s, pos + |a|, response, iters);
    }
  }

  /** `_read_response` only ever returns a reply whose checksum matches the bytes before it. */
  lemma ReadResponseValidated(c: Constants, s: seq<byte>)
    ensures var r := ReadResponse(c, s);
      r.outcome.Accepted? ==> Validated(r.outcome.reply.command)
  {
    ScanValidated(c, s, 0, [], BytesMax);
  }

  // ---------------------------------------------------------------------------
  // What an accepted reply is made of

  /** `k` copies of the byte `h`. */
  function Heads(h: byte, k: nat): (r: seq<byte>)
    ensures |r| == k
  {
    seq(k, _ => h)
  }

  /**
   * `rep` is laid out as the reader collects it: one or more `HEAD` bytes
   * (stray ones included), `SEND_ADDRESS`, the code, the length field, the
   * data and the checksum field, where the code, length and checksum reads
   * got at most 1, 2 and 2 bytes.
   */
  ghost predicate Framed(c: Constants, rep: Reply) {
    && |rep.commandCode| <= 1
    && exists k: nat, len: seq<byte>, chk: seq<byte> ::
         && 1 <= k && |len| <= 2 && |chk| <= ChecksumLen
         && rep.command == Heads(c.head, k) + [c.sendAddress] + rep.commandCode + len + rep.data + chk
  }

  /** The body read after `k` `HEAD` bytes and `SEND_ADDRESS` yields a reply laid out as a frame. */
  lemma FinishFramed(c: Constants, s: seq<byte>, pos: nat, k: nat)
    requires pos <= |s| && 1 <= k
    ensures var r := Finish(s, pos, Heads(c.head, k) + [c.sendAddress]);
      r.outcome.Accepted? ==> Framed(c, r.outcome.reply)
  {
    var response := Heads(c.head, k) + [c.sendAddress];
    var f := ReadFields(s, pos);
    var r := Validate(response + f.code + f.len + f.data, f.code, f.data, f.chk, f.cursor);
    if r.outcome.Accepted? {
      assert r.outcome.reply.command == Heads(c.head, k) + [c.sendAddress] + f.code + f.len + f.data + f.chk;
    }
  }

  /** The scanning loop, with only `HEAD` bytes buffered so far: an accepted reply is laid out as a frame. */
  lemma {:induction false} ScanFramed(c: Constants, s: seq<byte>, pos: nat, k: nat, iters: nat)
    requires pos <= |s|
    ensures var r := Scan(c, s, pos, Heads(c.head, k), iters);
      r.outcome.Accepted? ==> Framed(c, r.outcome.reply)
    decreases iters, 0
  {
    if iters > 0 {
      var b := Read(s, pos, 1);
      if |b| == 1 && b[0] == c.head {
        assert Heads(c.head, k) + b == Heads(c.head, k + 1);
        AfterHeadFramed(c, s, pos + 1, k + 1, iters - 1);
      } else {
        ScanFramed(c, s, pos + |b|, k, iters - 1);
      }
    }
  }

  /** The address read after one or more buffered `HEAD` bytes: an accepted reply is laid out as a frame. */
  lemma {:induction false} AfterHeadFramed(c: Constants, s: seq<byte>, pos: nat, k: nat, iters: nat)
    requires pos <= |s| && 1 <= k
    ensures var r := AfterHead(c, s, pos, Heads(c.head, k), iters);
      r.outcome.Accepted? ==> Framed(c, r.outcome.reply)
    decreases iters, 1
  {
    var a := Read(s, pos, 1);
    if |a| == 1 && a[0] == c.sendAddress {
      assert a == [c.sendAddress];
      FinishFramed(c, s, pos + 1, k);
    } else {
      ScanFramed(c, s, pos + |a|, k, iters);
    }
  }

  /**
   * Found implies present: a reply `_read_response` returns is `HEAD`
   * (possibly after stray `HEAD`s), `SEND_ADDRESS`, its code, a length
   * field, its data and a checksum field, in that order, with the checksum
   * matching the sum of the bytes before it.
   */
  lemma ReadResponseFramed(c: Constants, s: seq<byte>)
    ensures var r := ReadResponse(c, s);
      r.outcome.Accepted? ==> Framed(c, r.outcome.reply) && Validated(r.outcome.reply.command)
  {
    assert Heads(c.head, 0) == [];
    ScanFramed(c, s, 0, 0, BytesMax);
    ScanValidated(c, s, 0, [], BytesMax);
  }

  /** A checksum of at most two bytes cannot exceed 65535, so a larger byte sum never validates. */
  lemma ValidatedSumBound(cmd: seq<byte>, k: nat)
    requires k <= ChecksumLen && ChecksumAt(cmd, k)
    ensures Sum(cmd[..|cmd| - k]) < 65536
  {
    if k == 2 {
      assert Pow256(k) == 65536;
    } else if k == 1 {
      assert Pow256(k) == 256;
    } else {
      assert Pow256(k) == 1;
    }
  }

  // ---------------------------------------------------------------------------
  // Scanning over noise

  /** No `HEAD` byte among `s[lo..hi]`. */
  predicate NoHead(c: Constants, s: seq<byte>, lo: nat, hi: nat)
    requires lo <= hi <= |s|
  {
    forall i :: lo <= i < hi ==> s[i] != c.head
  }

  /** Bytes other than `HEAD` are skipped one per iteration and leave `response` alone. */
  lemma {:induction false} SkipNoise(c: Constants, s: seq<byte>, pos: nat, k: nat, response: seq<byte>, iters: nat)
    requires pos <= k <= |s| && k - pos <= iters
    requires NoHead(c, s, pos, k)
    ensures Scan(c, s, pos, response, iters) == Scan(c, s, k, response, iters - (k - pos))
    decreases k - pos
  {
    if pos < k {
      ScanSkip(c, s, pos, response, iters);
      SkipNoise(c, s, pos + 1, k, response, iters - 1);
    }
  }

  /** One iteration over a byte other than `HEAD`. */
  lemma ScanSkip(c: Constants, s: seq<byte>, pos: nat, response: seq<byte>, iters: nat)
    requires pos < |s| && iters > 0 && s[pos] != c.head
    ensures Scan(c, s, pos, response, iters) == Scan(c, s, pos + 1, response, iters - 1)
  {
    ReadOne(s, pos);
  }

  /** With no `HEAD` within reach, the loop runs out and returns no frame. */
  lemma {:induction false} NoiseOnlyScan(c: Constants, s: seq<byte>, pos: nat, response: seq<byte>, iters: nat)
    requires pos <= |s|
    requires NoHead(c, s, pos, Min(pos + iters, |s|))
    ensures Scan(c, s, pos, response, iters) == Reception(NoFrame, Min(pos + iters, |s|))
    decreases iters
  {
    if iters > 0 {
      if pos < |s| {
        ReadOne(s, pos);
        NoiseOnlyScan(c, s, pos + 1, response, iters - 1);
      } else {
        ReadOne(s, pos);
        NoiseOnlyScan(c, s, pos, response, iters - 1);
      }
    }
  }

  /** Budget exhaustion: no `HEAD` among the first 100 bytes means no frame after exactly those bytes. */
  lemma ReadResponseNoHead(c: Constants, s: seq<byte>)
    requires NoHead(c, s, 0, Min(BytesMax, |s|))
    ensures ReadResponse(c, s) == Reception(NoFrame, Min(BytesMax, |s|))
  {
    NoiseOnlyScan(c, s, 0, [], BytesMax);
  }

  /**
   * A `HEAD` followed by a byte other than `SEND_ADDRESS`: both bytes are
   * consumed, the `HEAD` stays in `response`, and scanning goes on.
   */
  lemma StrayHead(c: Constants, s: seq<byte>, pos: nat, response: seq<byte>, iters: nat)
    requires pos + 2 <= |s| && iters > 0
    requires s[pos] == c.head && s[pos + 1] != c.sendAddress
    ensures Scan(c, s, pos, response, iters) == Scan(c, s, pos + 2, response + [c.head], iters - 1)
  {
    ReadOne(s, pos);
    ReadOne(s, pos + 1);
  }

  // ---------------------------------------------------------------------------
  // Decoding a frame

  /** The bytes of a frame before its checksum: header, length field and payload. */
  function Body(sync: byte, address: byte, code: byte, len: seq<byte>, payload: seq<byte>): (body: seq<byte>) {
    [sync, address, code] + len + payload
  }

  /**
   * At index `k` of `s` sit the header bytes, a two-byte length field, the
   * payload and a two-byte checksum field.
   */
  predicate FrameAt(s: seq<byte>, k: nat, sync: byte, address: byte, code: byte,
                    len: seq<byte>, payload: seq<byte>, chk: seq<byte>)
  {
    && |len| == 2 && |chk| == ChecksumLen
    && k + HeaderLen + |payload| + ChecksumLen <= |s|
    && s[k] == sync && s[k + 1] == address && s[k + 2] == code
    && s[k + 3..k + 5] == len
    && s[k + HeaderLen..k + HeaderLen + |payload|] == payload
    && s[k + HeaderLen + |payload|..k + HeaderLen + |payload| + ChecksumLen] == chk
  }

  /** Where the pieces of `noise + body + chk + rest` sit. */
  lemma FrameAtConcat(noise: seq<byte>, sync: byte, address: byte, code: byte,
                      len: seq<byte>, payload: seq<byte>, chk: seq<byte>, rest: seq<byte>)
    requires |len| == 2 && |chk| == ChecksumLen
    ensures FrameAt(noise + Body(sync, address, code, len, payload) + chk + rest, |noise|,
                    sync, address, code, len, payload, chk)
  {
    var s := noise + Body(sync, address, code, len, payload) + chk + rest;
    var k := |noise|;
    var n := |payload|;
    assert s == noise + ([sync, address, code] + len + payload + chk + rest);
    var t := [sync, address, code] + len + payload + chk + rest;
    assert s[k..] == t;
    assert t[3..5] == len;
    assert t[HeaderLen..HeaderLen + n] == payload;
    assert t[HeaderLen + n..HeaderLen + n + 2] == chk;
  }

  /**
   * After `HEAD, SEND_ADDRESS`: a complete code, length, payload and
   * checksum are read field by field, and the checksum is compared with the
   * sum of `response` and the bytes read.
   */
  lemma FinishFrame(s: seq<byte>, k: nat, response: seq<byte>, sync: byte, address: byte,
                    code: byte, len: seq<byte>, payload: seq<byte>, chk: seq<byte>)
    requires FrameAt(s, k, sync, address, code, len, payload, chk)
    requires FromBE(len) == ChecksumLen + |payload|
    ensures Finish(s, k + 2, response)
         == Validate(response + [code] + len + payload, [code], payload, chk, k + HeaderLen + |payload| + ChecksumLen)
  {
    FrameFields(s, k, sync, address, code, len, payload, chk);
  }

  /** The four reads of the body return the code, the length field, the payload and the checksum field. */
  lemma FrameFields(s: seq<byte>, k: nat, sync: byte, address: byte,
                    code: byte, len: seq<byte>, payload: seq<byte>, chk: seq<byte>)
    requires FrameAt(s, k, sync, address, code, len, payload, chk)
    requires FromBE(len) == ChecksumLen + |payload|
    ensures ReadFields(s, k + 2) == Fields([code], len, payload, chk, k + HeaderLen + |payload| + ChecksumLen)
  {
    var n := |payload|;
    assert Read(s, k + 2, 1) == [code] by { ReadOne(s, k + 2); }
    assert Read(s, k + 3, 2) == len by { ReadExact(s, k + 3, 2); }
    assert Read(s, k + 5, n) == payload by { ReadExact(s, k + 5, n); }
    assert Read(s, k + 5 + n, ChecksumLen) == chk by { ReadExact(s, k + 5 + n, ChecksumLen); }
    FieldsOfReads(s, k + 2, code, len, payload, chk);
  }

  /** Four reads that return a code byte, a two-byte length, its payload and a two-byte checksum. */
  lemma FieldsOfReads(s: seq<byte>, pos: nat, code: byte, len: seq<byte>, payload: seq<byte>, chk: seq<byte>)
    requires pos <= |s| && |len| == 2 && |chk| == ChecksumLen
    requires FromBE(len) == ChecksumLen + |payload|
    requires Read(s, pos, 1) == [code] && Read(s, pos + 1, 2) == len
    requires Read(s, pos + 3, |payload|) == payload && Read(s, pos + 3 + |payload|, ChecksumLen) == chk
    ensures ReadFields(s, pos) == Fields([code], len, payload, chk, pos + HeaderLen - 2 + |payload| + ChecksumLen)
  {
  }

  /** `HEAD, SEND_ADDRESS` at the cursor: the loop hands over to the frame body. */
  lemma ScanAtHead(c: Constants, s: seq<byte>, k: nat, response: seq<byte>, iters: nat)
    requires k + 2 <= |s| && iters > 0
    requires s[k] == c.head && s[k + 1] == c.sendAddress
    ensures Scan(c, s, k, response, iters) == Finish(s, k + 2, response + [c.head] + [c.sendAddress])
  {
    ReadOne(s, k);
    ReadOne(s, k + 1);
  }

  lemma BodyAfter(response: seq<byte>, sync: byte, address: byte, code: byte, len: seq<byte>, payload: seq<byte>)
    ensures response + [sync] + [address] + [code] + len + payload == response + Body(sync, address, code, len, payload)
  {
    assert [sync, address, code] == [sync] + [address] + [code];
  }

  /**
   * The general decoding statement: from cursor `pos`, `noise` bytes without
   * `HEAD`, then an inbound frame whose length field counts its payload and
   * checksum, reached within the budget, come down to the checksum comparison
   * over `response` and the frame's bytes, with the cursor after the frame.
   */
  lemma ScanFrame(c: Constants, s: seq<byte>, pos: nat, response: seq<byte>, iters: nat, noise: nat,
                  code: byte, len: seq<byte>, payload: seq<byte>, chk: seq<byte>)
    requires FrameAt(s, pos + noise, c.head, c.sendAddress, code, len, payload, chk)
    requires FromBE(len) == ChecksumLen + |payload|
    requires noise < iters
    requires NoHead(c, s, pos, pos + noise)
    ensures Scan(c, s, pos, response, iters)
         == Validate(response + Body(c.head, c.sendAddress, code, len, payload), [code], payload, chk,
                     pos + noise + HeaderLen + |payload| + ChecksumLen)
  {
    var k := pos + noise;
    var started := response + [c.head] + [c.sendAddress];
    SkipNoise(c, s, pos, k, response, iters);
    ScanAtHead(c, s, k, response, iters - noise);
    FinishFrame(s, k, started, c.head, c.sendAddress, code, len, payload, chk);
    BodyAfter(response, c.head, c.sendAddress, code, len, payload);
  }

  /** Noise given as a sequence is noise at the front of any stream it starts. */
  lemma NoHeadPrefix(c: Constants, noise: seq<byte>, s: seq<byte>)
    requires noise <= s && NoHead(c, noise, 0, |noise|)
    ensures NoHead(c, s, 0, |noise|)
  {
    forall i | 0 <= i < |noise| ensures s[i] != c.head {
      assert s[i] == noise[i];
    }
  }

  /**
   * Checksum rejection: noise, then an inbound frame whose structure is
   * complete, is accepted exactly when its checksum field equals the sum of
   * all its earlier bytes; otherwise the reader gives no frame.
   */
  lemma ChecksumDecides(c: Constants, noise: seq<byte>, code: byte, len: seq<byte>,
                        payload: seq<byte>, chk: seq<byte>, rest: seq<byte>)
    requires |len| == 2 && FromBE(len) == ChecksumLen + |payload| && |chk| == ChecksumLen
    requires |noise| < BytesMax && NoHead(c, noise, 0, |noise|)
    ensures var body := Body(c.head, c.sendAddress, code, len, payload);
      var r := ReadResponse(c, noise + body + chk + rest);
      && r.cursor == |noise| + |body| + |chk|
      && (r.outcome.Accepted? <==> FromBE(chk) == Sum(body))
      && (r.outcome.Accepted? ==> r.outcome.reply == Reply(body + chk, [code], payload))
      && (!r.outcome.Accepted? ==> r.outcome == ChecksumMismatch && r.Response() == None)
  {
    NoiseThenFrame(c, noise, code, len, payload, chk, rest);
  }

  /** Noise, then a structurally complete inbound frame: the read comes down to the checksum comparison. */
  lemma NoiseThenFrame(c: Constants, noise: seq<byte>, code: byte, len: seq<byte>,
                       payload: seq<byte>, chk: seq<byte>, rest: seq<byte>)
    requires |len| == 2 && FromBE(len) == ChecksumLen + |payload| && |chk| == ChecksumLen
    requires |noise| < BytesMax && NoHead(c, noise, 0, |noise|)
    ensures var body := Body(c.head, c.sendAddress, code, len, payload);
      ReadResponse(c, noise + body + chk + rest)
        == Validate(body, [code], payload, chk, |noise| + |body| + |chk|)
  {
    var body := Body(c.head, c.sendAddress, code, len, payload);
    var s := noise + body + chk + rest;
    assert noise <= s;
    NoHeadPrefix(c, noise, s);
    FrameAtConcat(noise, c.head, c.sendAddress, code, len, payload, chk, rest);
    ScanFrame(c, s, 0, [], BytesMax, |noise|, code, len, payload, chk);
    assert [] + body == body;
  }

  /** A byte sum of 65536 or more can never be matched by a two-byte checksum. */
  lemma LargeSumRejected(c: Constants, noise: seq<byte>, code: byte, len: seq<byte>,
                         payload: seq<byte>, chk: seq<byte>, rest: seq<byte>)
    requires |len| == 2 && FromBE(len) == ChecksumLen + |payload| && |chk| == ChecksumLen
    requires |noise| < BytesMax && NoHead(c, noise, 0, |noise|)
    requires Sum(Body(c.head, c.sendAddress, code, len, payload)) >= 65536
    ensures ReadResponse(c, noise + Body(c.head, c.sendAddress, code, len, payload) + chk + rest).outcome
            == ChecksumMismatch
  {
    ChecksumDecides(c, noise, code, len, payload, chk, rest);
  }

  /** A well-formed frame is its body followed by its checksum field. */
  lemma WellFormedSplit(f: seq<byte>, sync: byte, address: byte, code: byte, payload: seq<byte>)
    requires WellFormed(f, sync, address, code, payload)
    ensures var n := |payload|;
      f == Body(sync, address, code, f[3..5], payload) + f[HeaderLen + n..]
  {
    var n := |payload|;
    assert f[..HeaderLen + n] == Body(sync, address, code, f[3..5], payload);
    assert f == f[..HeaderLen + n] + f[HeaderLen + n..];
  }

  /**
   * Resynchronisation: noise without `HEAD`, shorter than the loop budget,
   * followed by a well-formed inbound frame, decodes to that frame: its bytes,
   * its code and its payload, leaving the cursor just after it.
   */
  lemma DecodeAfterNoise(c: Constants, noise: seq<byte>, f: seq<byte>, code: byte, payload: seq<byte>, rest: seq<byte>)
    requires |noise| < BytesMax && NoHead(c, noise, 0, |noise|)
    requires WellFormed(f, c.head, c.sendAddress, code, payload)
    ensures ReadResponse(c, noise + f + rest) == Reception(Accepted(Reply(f, [code], payload)), |noise| + |f|)
  {
    var n := |payload|;
    var len := f[3..5];
    var chk := f[HeaderLen + n..];
    var body := Body(c.head, c.sendAddress, code, len, payload);
    assert f == body + chk && FromBE(chk) == Sum(body) by {
      WellFormedSplit(f, c.head, c.sendAddress, code, payload);
      assert f[..HeaderLen + n] == body;
    }
    assert noise + f + rest == noise + body + chk + rest;
    ChecksumDecides(c, noise, code, len, payload, chk, rest);
  }

  /** The round trip: an inbound frame produced by the encoder is read back intact. */
  lemma EncodeThenRead(c: Constants, noise: seq<byte>, code: byte, payload: seq<byte>, rest: seq<byte>)
    requires |noise| < BytesMax && NoHead(c, noise, 0, |noise|)
    requires EncodeFrame(c.head, c.sendAddress, code, payload).Success?
    ensures var f := EncodeFrame(c.head, c.sendAddress, code, payload).value;
      ReadResponse(c, noise + f + rest) == Reception(Accepted(Reply(f, [code], payload)), |noise| + |f|)
  {
    DecodeAfterNoise(c, noise, EncodeFrame(c.head, c.sendAddress, code, payload).value, code, payload, rest);
  }

  /**
   * A stray `HEAD` followed by a wrong address byte, then a complete frame:
   * the stray `HEAD` is part of the returned bytes and of the sum the
   * checksum is compared with.
   */
  lemma StrayHeadCounted(c: Constants, x: byte, code: byte, len: seq<byte>,
                         payload: seq<byte>, chk: seq<byte>, rest: seq<byte>)
    requires x != c.sendAddress
    requires |len| == 2 && FromBE(len) == ChecksumLen + |payload| && |chk| == ChecksumLen
    ensures var body := Body(c.head, c.sendAddress, code, len, payload);
      var r := ReadResponse(c, [c.head, x] + body + chk + rest);
      && r.cursor == 2 + |body| + |chk|
      && (r.outcome.Accepted? <==> FromBE(chk) == c.head + Sum(body))
      && (r.outcome.Accepted? ==> r.outcome.reply.command == [c.head] + body + chk)
  {
    var body := Body(c.head, c.sendAddress, code, len, payload);
    StrayHeadThenFrame(c, x, code, len, payload, chk, rest);
    SumCons(c.head, body);
  }

  /** A stray `HEAD` and a wrong address, then a complete frame: the read compares the checksum with both. */
  lemma StrayHeadThenFrame(c: Constants, x: byte, code: byte, len: seq<byte>,
                           payload: seq<byte>, chk: seq<byte>, rest: seq<byte>)
    requires x != c.sendAddress
    requires |len| == 2 && FromBE(len) == ChecksumLen + |payload| && |chk| == ChecksumLen
    ensures var body := Body(c.head, c.sendAddress, code, len, payload);
      ReadResponse(c, [c.head, x] + body + chk + rest)
        == Validate([c.head] + body, [code], payload, chk, 2 + |body| + |chk|)
  {
    var body := Body(c.head, c.sendAddress, code, len, payload);
    var s := [c.head, x] + body + chk + rest;
    StrayHead(c, s, 0, [], BytesMax);
    assert [] + [c.head] == [c.head];
    FrameAtConcat([c.head, x], c.head, c.sendAddress, code, len, payload, chk, rest);
    ScanFrame(c, s, 2, [c.head], BytesMax - 1, 0, code, len, payload, chk);
  }
}
