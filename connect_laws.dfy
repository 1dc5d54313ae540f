/**
 * What the connection of `src/redis/connect.rs` guarantees across calls: frames pipelined in one
 * buffer come out one at a time, a frame split over several reads is assembled, a truncated
 * stream ends cleanly or as a peer cancel, and what `write_value` emits is (or, for Null and wide
 * decimals, is not) what the reader accepts.
 */
module ConnectLaws {
  import opened Common
  import opened Decimal
  import opened Utf8
  import opened FrameCodec
  import opened FrameLaws
  import opened Connect

  // ---------------------------------------------------------------------------
  // parse_frame consumes exactly one frame

  /**
   * A whole frame at the head of the buffer, with no Array of more than `i32::MAX` items,
   * comes out, and exactly the bytes after it stay.
   */
  lemma DecodeFrontFrame(w: seq<Byte>, f: Frame, tail: seq<Byte>)
    requires ParseAt(w, 0) == Ok((f, |w|)) && CountsWithin(f, I32_MAX)
    ensures DecodeFront(w + tail) == Decoded(Ok(Some(f)), tail)
  {
    ParsedCheck(w, 0, I32_MAX);
    CheckExtends(w, tail, 0, I32_MAX);
    ParseExtends(w, tail, 0);
    assert (w + tail)[|w|..] == tail;
  }

  /**
   * A whole frame holding an Array of more than `i32::MAX` items is refused by `parse_frame` as a
   * protocol error, although `parse` alone would return it; nothing is consumed.
   */
  lemma DecodeFrontWide(w: seq<Byte>, f: Frame, tail: seq<Byte>)
    requires ParseAt(w, 0) == Ok((f, |w|)) && !CountsWithin(f, I32_MAX)
    ensures DecodeFront(w + tail) == Decoded(Err(Other), w + tail)
  {
    ParsedCheck(w, 0, I32_MAX);
    CheckErrorStable(w, w + tail, 0, I32_MAX);
  }

  /** Conversely, the prefix `parse_frame` removes is one frame on its own, and nothing else is removed. */
  lemma DecodeFrontSplits(buf: seq<Byte>)
    requires DecodeFront(buf).result.Ok? && DecodeFront(buf).result.value.Some?
    ensures var d := DecodeFront(buf);
      var q := |buf| - |d.rest|;
      && buf == buf[..q] + d.rest
      && ParseAt(buf[..q], 0) == Ok((d.result.value.value, q))
  {
    var q := CheckAt(buf, 0, I32_MAX).value;
    LimitedCheck(buf, 0, I32_MAX);
    CheckParseAgree(buf, 0);
    ParseStable(buf, buf[..q], 0, q);
  }

  // ---------------------------------------------------------------------------
  // read_frame over a script of reads

  /** Every read delivers some bytes: no end of input and no I/O failure inside the script. */
  predicate AllData(input: seq<Chunk>)
  {
    forall i :: 0 <= i < |input| ==> input[i].Data? && input[i].bytes != []
  }

  /**
   * A frame split across any number of reads is returned once its last byte has arrived, and the
   * buffered bytes plus the unread ones are exactly what follows the frame.
   */
  lemma {:induction false} SplitDelivery(buf: seq<Byte>, input: seq<Chunk>, f: Frame, q: nat)
    requires AllData(input)
    requires ParseAt(buf + Flatten(input), 0) == Ok((f, q)) && CountsWithin(f, I32_MAX)
    ensures var s := ReadFrameOf(buf, input);
      s.result == Got(f) && s.buf + Flatten(s.input) == (buf + Flatten(input))[q..]
    decreases |input|
  {
    if q <= |buf| {
      BufferedDelivery(buf, input, f, q);
    } else {
      PrefixIncomplete(buf, Flatten(input), f, q);
      var c := input[0].bytes;
      assert Flatten(input) == c + Flatten(input[1..]);
      AppendAssoc(buf, c, Flatten(input[1..]));
      AllDataTail(input);
      SplitDelivery(buf + c, input[1..], f, q);
    }
  }

  /** `SplitDelivery` when the frame is already whole in the buffer: it is returned without a read. */
  lemma BufferedDelivery(buf: seq<Byte>, input: seq<Chunk>, f: Frame, q: nat)
    requires ParseAt(buf + Flatten(input), 0) == Ok((f, q)) && CountsWithin(f, I32_MAX) && q <= |buf|
    ensures var s := ReadFrameOf(buf, input);
      s.result == Got(f) && s.buf + Flatten(s.input) == (buf + Flatten(input))[q..]
  {
    var w := buf + Flatten(input);
    ParsedCheck(w, 0, I32_MAX);
    assert w[..|buf|] == buf;
    CheckStable(w, buf, 0, q, I32_MAX);
    ParseStable(w, buf, 0, q);
    assert buf[q..] + Flatten(input) == w[q..];
  }

  /** The bytes before the end of a checkable frame are, on their own, an Incomplete frame. */
  lemma PrefixIncomplete(buf: seq<Byte>, more: seq<Byte>, f: Frame, q: nat)
    requires ParseAt(buf + more, 0) == Ok((f, q)) && CountsWithin(f, I32_MAX) && q > |buf|
    ensures CheckAt(buf, 0, I32_MAX) == Err(Incomplete) && more != []
  {
    var w := buf + more;
    ParsedCheck(w, 0, I32_MAX);
    assert w[..|buf|] == buf;
    CheckIncompleteBelow(w, 0, |buf|, I32_MAX);
  }

  lemma AppendAssoc(a: seq<Byte>, b: seq<Byte>, c: seq<Byte>)
    ensures (a + b) + c == a + (b + c)
  {
  }

  /** The reads after the first of a script of non-empty reads are non-empty reads too. */
  lemma AllDataTail(input: seq<Chunk>)
    requires input != [] && AllData(input)
    ensures AllData(input[1..])
  {
    forall i | 0 <= i < |input[1..]| ensures input[1..][i].Data? && input[1..][i].bytes != [] {
      assert input[1..][i] == input[i + 1];
    }
  }

  /**
   * A stream that ends before a frame is complete: every read is consumed and `read_frame` ends
   * at the end of input, cleanly if no byte ever arrived and as a peer cancel otherwise.
   */
  lemma {:induction false} TruncatedStream(buf: seq<Byte>, input: seq<Chunk>)
    requires AllData(input)
    requires CheckAt(buf + Flatten(input), 0, I32_MAX) == Err(Incomplete)
    ensures var w := buf + Flatten(input);
      ReadFrameOf(buf, input) == Session(AtEnd(w), w, [])
    decreases |input|
  {
    CheckDecided(buf, Flatten(input), 0, I32_MAX);
    if input == [] {
      assert buf + Flatten(input) == buf;
    } else {
      var c := input[0].bytes;
      assert Flatten(input) == c + Flatten(input[1..]);
      assert (buf + c) + Flatten(input[1..]) == buf + Flatten(input);
      assert AllData(input[1..]) by {
        forall i | 0 <= i < |input[1..]| ensures input[1..][i].Data? && input[1..][i].bytes != [] {
          assert input[1..][i] == input[i + 1];
        }
      }
      TruncatedStream(buf + c, input[1..]);
    }
  }

  // ---------------------------------------------------------------------------
  // write_value as written

  /**
   * The scratch array of `write_decimal`: one digit leaves the initial 20 behind it, two digits
   * fill it, three or more do not fit and the write fails.
   */
  lemma DecimalFieldShape(v: nat)
    ensures v < 10 ==> DecimalField(v) == Some(Digits(v) + [20] + CRLF)
    ensures 10 <= v < 100 ==> DecimalField(v) == Some(Digits(v) + CRLF)
    ensures DecimalField(v).None? <==> 100 <= v
  {
    DigitsLength(v);
    assert SCRATCH[1..] == [20] && SCRATCH[2..] == [];
    assert Digits(v) + [] == Digits(v);
  }

  /** `write_value` succeeds exactly when no decimal it writes has three or more digits. */
  lemma WriteSucceedsIff(f: Frame)
    requires !f.Array?
    ensures EncodeValue(f).ok <==> !(f.Integer? && f.value >= 100) && !(f.Bulk? && |f.data| >= 100)
  {
    match f {
      case Integer(v) => DecimalFieldShape(v);
      case Bulk(data) => DecimalFieldShape(|data|);
      case _ =>
    }
  }

  /** The frames whose `write_value` output `parse` reads back as the same frame. */
  predicate Writable(f: Frame)
  {
    match f
    case Simple(s) => ValidUtf8(s) && NoCrlf(s)
    case Error(s) => ValidUtf8(s) && NoCrlf(s)
    case Integer(v) => v < 100
    case Bulk(data) => |data| < 100
    case Null => false
    case Array(_) => false
  }

  /** Digits and the scratch filler 20 contain no carriage return, so no `\r\n`. */
  lemma NoCrlfWithoutCr(s: seq<Byte>)
    requires forall i :: 0 <= i < |s| ==> s[i] != CR
    ensures NoCrlf(s)
  {
  }

  /** The decimal field `write_decimal` emits is read back by `get_decimal`. */
  lemma DecimalFieldReads(buf: seq<Byte>, pre: seq<Byte>, v: nat, dec: seq<Byte>, rest: seq<Byte>, pos: nat)
    requires v < 100 && DecimalField(v) == Some(dec)
    requires buf == pre + dec + rest && pos == |pre|
    ensures DecimalAt(buf, pos) == Ok((v, pos + |dec|))
  {
    DecimalFieldShape(v);
    var d := Digits(v);
    var pad := SCRATCH[|d|..];
    assert pad == [] || !IsDigit(pad[0]);
    NoCrlfWithoutCr(d + pad);
    DecimalOf(pre, v, pad, rest);
    assert pre + (d + pad + CRLF) + rest == pre + (d + pad) + CRLF + rest;
  }

  /** Where the pieces of `$`, length line, payload and `\r\n` sit. */
  lemma BulkLayout(w: seq<Byte>, dec: seq<Byte>, data: seq<Byte>)
    requires dec != [] && w == [DOLLAR] + dec + (data + CRLF)
    ensures |w| == 1 + |dec| + |data| + 2
    ensures w[0] == DOLLAR && w[1] == dec[0]
    ensures w[1 + |dec|..1 + |dec| + |data|] == data
  {
    assert w[1 + |dec|..] == data + CRLF;
  }

  /** A Bulk of fewer than one hundred bytes, as written, is read back. */
  lemma WrittenBulkReads(data: seq<Byte>)
    requires |data| < 100
    ensures var w := EncodeValue(Bulk(data));
      w.ok && ParseAt(w.bytes, 0) == Ok((Bulk(data), |w.bytes|))
  {
    WrittenBulkShape(data);
    BulkBytesRead([DOLLAR] + DecimalField(|data|).value + (data + CRLF), DecimalField(|data|).value, data);
  }

  /** The bytes `$`, the length field `dec`, the payload and `\r\n` parse to that Bulk. */
  lemma BulkBytesRead(w: seq<Byte>, dec: seq<Byte>, data: seq<Byte>)
    requires |data| < 100 && DecimalField(|data|) == Some(dec) && dec != [] && IsDigit(dec[0])
    requires w == [DOLLAR] + dec + (data + CRLF)
    ensures ParseAt(w, 0) == Ok((Bulk(data), |w|))
  {
    var n := |data|;
    BulkLayout(w, dec, data);
    DecimalFieldReads(w, [DOLLAR], n, dec, data + CRLF, 1);
    BulkWhole(w, 0, n, 1 + |dec|, data, |w|);
  }

  /** `write_value` of a short Bulk: `$`, a length field starting with a digit, the payload, `\r\n`. */
  lemma WrittenBulkShape(data: seq<Byte>)
    requires |data| < 100
    ensures DecimalField(|data|).Some?
    ensures var dec := DecimalField(|data|).value;
      && dec != [] && IsDigit(dec[0])
      && EncodeValue(Bulk(data)) == Written([DOLLAR] + dec + (data + CRLF), true)
  {
    DecimalFieldShape(|data|);
    var dec := DecimalField(|data|).value;
    assert dec[0] == Digits(|data|)[0];
  }

  /** Round trip of the encoder as written, for every frame it writes in a readable form. */
  lemma WrittenRoundTrip(f: Frame)
    requires Writable(f)
    ensures var w := EncodeValue(f);
      && w.ok
      && CheckAt(w.bytes, 0, I32_MAX) == Ok(|w.bytes|)
      && ParseAt(w.bytes, 0) == Ok((f, |w.bytes|))
  {
    WrittenParses(f);
    ParsedCheck(EncodeValue(f).bytes, 0, I32_MAX);
  }

  /** What the encoder as written emits for a writable frame, `parse` reads back whole. */
  lemma WrittenParses(f: Frame)
    requires Writable(f)
    ensures var w := EncodeValue(f);
      w.ok && ParseAt(w.bytes, 0) == Ok((f, |w.bytes|))
  {
    match f {
      case Simple(s) => TextBytesRead([PLUS] + s + CRLF, PLUS, s);
      case Error(s) => TextBytesRead([MINUS] + s + CRLF, MINUS, s);
      case Integer(v) =>
        DecimalFieldShape(v);
        IntegerBytesRead([COLON] + DecimalField(v).value, DecimalField(v).value, v);
      case Bulk(data) => WrittenBulkReads(data);
    }
  }

  /** `+` or `-`, a valid UTF-8 text without `\r\n`, then `\r\n`: parsed to that Simple or Error. */
  lemma TextBytesRead(w: seq<Byte>, sigil: Byte, s: seq<Byte>)
    requires sigil == PLUS || sigil == MINUS
    requires ValidUtf8(s) && NoCrlf(s) && w == [sigil] + s + CRLF
    ensures ParseAt(w, 0) == Ok((if sigil == PLUS then Simple(s) else Error(s), |w|))
  {
    LineOf([sigil], s, []);
    assert [sigil] + s + CRLF + [] == w;
  }

  /** `:` then a decimal field for `v` below one hundred: parsed to Integer `v`. */
  lemma IntegerBytesRead(w: seq<Byte>, dec: seq<Byte>, v: nat)
    requires v < 100 && DecimalField(v) == Some(dec) && w == [COLON] + dec
    ensures ParseAt(w, 0) == Ok((Integer(v), |w|))
  {
    assert w == [COLON] + dec + [];
    DecimalFieldReads(w, [COLON], v, dec, [], 1);
  }

  /** What one side writes, the other side's `parse_frame` returns, leaving whatever followed. */
  lemma ReadBackWritten(f: Frame, tail: seq<Byte>)
    requires Writable(f)
    ensures DecodeFront(EncodeValue(f).bytes + tail) == Decoded(Ok(Some(f)), tail)
  {
    WrittenRoundTrip(f);
    DecodeFrontFrame(EncodeValue(f).bytes, f, tail);
  }

  /** The Null reply as written, a bare `\r\n`, is rejected by both passes of the reader. */
  lemma NullWrittenUnreadable()
    ensures EncodeValue(Null) == Written(CRLF, true)
    ensures CheckAt(EncodeValue(Null).bytes, 0, I32_MAX) == Err(Unimplemented)
    ensures ParseAt(EncodeValue(Null).bytes, 0) == Err(Unimplemented)
  {
    UnknownSigil(CRLF, 0, I32_MAX);
  }

  /** A value of one hundred or more is not written: only the sigil reaches the stream. */
  lemma WideIntegerNotWritten()
    ensures EncodeValue(Integer(100)) == Written([COLON], false)
  {
    DecimalFieldShape(100);
  }

  // ---------------------------------------------------------------------------
  // The intended encoder

  /** The frames the intended encoder can write: text without `\r\n`, payloads a `u64` can count. */
  predicate IntendedWritable(f: Frame)
  {
    match f
    case Simple(s) => ValidUtf8(s) && NoCrlf(s)
    case Error(s) => ValidUtf8(s) && NoCrlf(s)
    case Integer(_) => true
    case Bulk(data) => |data| < U64_LIMIT
    case Null => true
    case Array(_) => false
  }

  /** The intended Bulk encoding, with its length line of digits alone, is read back. */
  lemma IntendedBulkReads(data: seq<Byte>)
    requires |data| < U64_LIMIT
    ensures var w := EncodeIntended(Bulk(data));
      ParseAt(w, 0) == Ok((Bulk(data), |w|))
  {
    var n := |data|;
    var dec := Digits(n) + CRLF;
    var w := EncodeIntended(Bulk(data));
    assert w == [DOLLAR] + dec + (data + CRLF);
    BulkLayout(w, dec, data);
    var start := 0;
    DigitsFieldReads(w, [DOLLAR], n, dec, data + CRLF, start + 1);
    BulkWhole(w, start, n, start + 1 + |dec|, data, |w|);
  }

  /** A field of digits and `\r\n` alone is read back by `get_decimal`. */
  lemma DigitsFieldReads(buf: seq<Byte>, pre: seq<Byte>, v: U64, field: seq<Byte>, rest: seq<Byte>, pos: nat)
    requires field == Digits(v) + CRLF && buf == pre + field + rest && pos == |pre|
    ensures DecimalAt(buf, pos) == Ok((v, pos + |field|))
  {
    DecimalOf(pre, v, [], rest);
    assert pre + (Digits(v) + []) + CRLF + rest == buf;
  }

  /** Every writable frame, Null and any integer included, is read back by both passes. */
  lemma IntendedRoundTrip(f: Frame)
    requires IntendedWritable(f)
    ensures var w := EncodeIntended(f);
      CheckAt(w, 0, I32_MAX) == Ok(|w|) && ParseAt(w, 0) == Ok((f, |w|))
  {
    var w := EncodeIntended(f);
    match f {
      case Simple(s) =>
        LineOf([PLUS], s, []);
        assert [PLUS] + s + CRLF + [] == w;
      case Error(s) =>
        LineOf([MINUS], s, []);
        assert [MINUS] + s + CRLF + [] == w;
      case Integer(v) =>
        DecimalOf([COLON], v, [], []);
        assert [COLON] + (Digits(v) + []) + CRLF + [] == w;
      case Bulk(data) =>
        IntendedBulkReads(data);
      case Null =>
        NullArm(w, 0, I32_MAX);
    }
    ParsedCheck(w, 0, I32_MAX);
  }
}
