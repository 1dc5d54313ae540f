/**
 * The connection of `src/redis/connect.rs`: a receive buffer that `read_buf` appends to and
 * `advance` shrinks from the front, `parse_frame` (check, rewind, parse, advance), the retry loop
 * of `read_frame`, and the encoders `write_value` / `write_decimal`.
 *
 * The TCP stream is abstract: reads come from a script of chunks (an empty chunk, or an exhausted
 * script, is end of input; `Failure` is an I/O error), and writes append to `output`.
 */
module Connect {
  import opened Common
  import opened Decimal
  import opened FrameCodec
  import FrameLaws

  /** What one `read_buf` on the stream delivers. */
  datatype Chunk = Data(bytes: seq<Byte>) | Failure

  /** The errors `read_frame` reports: the codec's, the peer leaving mid-frame, or the stream's. */
  datatype ReadError = Codec(error: CodecError) | CanceledByPeer | Io

  /** `Result<Option<Frame>>` of `read_frame`. */
  datatype ReadResult = Got(frame: Frame) | EndOfStream | Failed(error: ReadError)

  /** The outcome of `parse_frame` and the receive buffer it leaves. */
  datatype Decoded = Decoded(result: Outcome<Option<Frame>>, rest: seq<Byte>)

  /** The outcome of `read_frame`, the receive buffer and the chunks not yet read. */
  datatype Session = Session(result: ReadResult, buf: seq<Byte>, input: seq<Chunk>)

  /** The bytes a sequence of `write_*` calls puts on the stream, and whether the last one succeeded. */
  datatype Written = Written(bytes: seq<Byte>, ok: bool)

  // ---------------------------------------------------------------------------
  // Reading

  /**
   * `parse_frame` on a receive buffer. A frame is returned only with bytes consumed; Incomplete
   * is never reported as an error (it is `Ok(None)`, exactly when check says Incomplete); and
   * whenever no frame is returned the buffer is left as it was.
   */
  function DecodeFront(buf: seq<Byte>): (d: Decoded)
    ensures d.result == Ok(None) <==> CheckAt(buf, 0, I32_MAX) == Err(Incomplete)
    ensures d.result.Err? ==> d.result.error != Incomplete
    ensures d.result.Ok? && d.result.value.Some? ==> |d.rest| < |buf| && d.rest == buf[|buf| - |d.rest|..]
    ensures !(d.result.Ok? && d.result.value.Some?) ==> d.rest == buf
  {
    var c := CheckAt(buf, 0, I32_MAX);
    if c.Ok? then
      FrameLaws.CheckedFrameParses(buf, 0, I32_MAX);
      match ParseAt(buf, 0)
      case Ok((f, _)) => Decoded(Ok(Some(f)), buf[c.value..])
      case Err(e) => Decoded(Err(e), buf)
    else if c.error == Incomplete then Decoded(Ok(None), buf)
    else Decoded(Err(c.error), buf)
  }

  /** End of input: clean when nothing is buffered, the peer leaving mid-frame otherwise. */
  function AtEnd(buf: seq<Byte>): (r: ReadResult)
    ensures r == EndOfStream <==> buf == []
    ensures r != EndOfStream ==> r == Failed(CanceledByPeer)
  {
    if buf == [] then EndOfStream else Failed(CanceledByPeer)
  }

  /**
   * `read_frame` over a script of reads. Only unread chunks remain afterwards; a clean end of
   * stream happens only when nothing was or is buffered; "canceled by peer" leaves an incomplete
   * frame in the buffer.
   */
  function ReadFrameOf(buf: seq<Byte>, input: seq<Chunk>): (s: Session)
    decreases |input|
    ensures |s.input| <= |input| && s.input == input[|input| - |s.input|..]
    ensures s.result == EndOfStream ==> buf == [] && s.buf == []
    ensures s.result == Failed(CanceledByPeer) ==> s.buf != [] && CheckAt(s.buf, 0, I32_MAX) == Err(Incomplete)
  {
    var d := DecodeFront(buf);
    if d.result.Err? then Session(Failed(Codec(d.result.error)), buf, input)
    else if d.result.value.Some? then Session(Got(d.result.value.value), d.rest, input)
    else if input == [] then Session(AtEnd(buf), buf, input)
    else
      match input[0]
      case Failure => Session(Failed(Io), buf, input[1..])
      case Data(c) =>
        if c == [] then Session(AtEnd(buf), buf, input[1..])
        else
          var s := ReadFrameOf(buf + c, input[1..]);
          assert input[1..][|input[1..]| - |s.input|..] == input[|input| - |s.input|..];
          s
  }

  /** A round of the `read_frame` loop that ends with what `parse_frame` decided. */
  lemma ReadFrameDecided(buf: seq<Byte>, input: seq<Chunk>)
    ensures var d := DecodeFront(buf);
      && (d.result.Err? ==> ReadFrameOf(buf, input) == Session(Failed(Codec(d.result.error)), buf, input))
      && (d.result.Ok? && d.result.value.Some? ==>
            ReadFrameOf(buf, input) == Session(Got(d.result.value.value), d.rest, input))
  {
  }

  /** A round of the `read_frame` loop that found no frame and reads once. */
  lemma ReadFrameRetry(buf: seq<Byte>, input: seq<Chunk>)
    requires DecodeFront(buf).result == Ok(None)
    ensures input == [] ==> ReadFrameOf(buf, input) == Session(AtEnd(buf), buf, input)
    ensures input != [] && input[0].Failure? ==> ReadFrameOf(buf, input) == Session(Failed(Io), buf, input[1..])
    ensures input != [] && input[0].Data? && input[0].bytes == [] ==>
      ReadFrameOf(buf, input) == Session(AtEnd(buf), buf, input[1..])
    ensures input != [] && input[0].Data? && input[0].bytes != [] ==>
      ReadFrameOf(buf, input) == ReadFrameOf(buf + input[0].bytes, input[1..])
  {
  }

  /** All the bytes a script of reads delivers, in order. */
  function Flatten(input: seq<Chunk>): seq<Byte>
  {
    if input == [] then []
    else (if input[0].Data? then input[0].bytes else []) + Flatten(input[1..])
  }

  // ---------------------------------------------------------------------------
  // Writing

  /** The scratch array `[0u8, 20]` that `write_decimal` formats into: two bytes, 0 and 20. */
  const SCRATCH: seq<Byte> := [0, 20]

  /**
   * What `write_decimal(v)` sends: the whole scratch array after the digits of `v` have been
   * formatted over its head, then `\r\n`; None when the digits do not fit and formatting fails.
   */
  function DecimalField(v: nat): (r: Option<seq<Byte>>)
    ensures r.Some? ==> |r.value| == |SCRATCH| + 2
  {
    var d := Digits(v);
    if |d| <= |SCRATCH| then Some(d + SCRATCH[|d|..] + CRLF) else None
  }

  /** What `write_value(f)` puts on the stream and whether it succeeds. Arrays are unreachable. */
  function EncodeValue(f: Frame): (w: Written)
    requires !f.Array?
    ensures w.bytes != [] && (w.bytes[0] == CR <==> f.Null?)
    ensures !w.ok ==> (f.Bulk? || f.Integer?) && |w.bytes| == 1
  {
    match f
    case Simple(s) => Written([PLUS] + s + CRLF, true)
    case Error(s) => Written([MINUS] + s + CRLF, true)
    case Bulk(data) =>
      (match DecimalField(|data|)
       case None => Written([DOLLAR], false)
       case Some(dec) => Written([DOLLAR] + dec + data + CRLF, true))
    case Integer(v) =>
      (match DecimalField(v)
       case None => Written([COLON], false)
       case Some(dec) => Written([COLON] + dec, true))
    case Null => Written(CRLF, true)
  }

  /**
   * The encoding `write_value` evidently intends, the one `parse` reads back: decimals are their
   * digits alone, and Null is `$-1\r\n`.
   */
  function EncodeIntended(f: Frame): (r: seq<Byte>)
    requires !f.Array?
    ensures |r| >= 3 && r[0] in {PLUS, MINUS, DOLLAR, COLON} && r[|r| - 2..] == CRLF
  {
    match f
    case Simple(s) => [PLUS] + s + CRLF
    case Error(s) => [MINUS] + s + CRLF
    case Bulk(data) => [DOLLAR] + Digits(|data|) + CRLF + data + CRLF
    case Integer(v) => [COLON] + Digits(v) + CRLF
    case Null => [DOLLAR, MINUS, 49] + CRLF
  }

  /**
   * `write!` of a formatted value into a `Cursor` over a fixed slice (`write_all`): copies as much
   * of `src` as fits over the head of `dst` and fails when not all of it fits.
   */
  method WriteAllInto(dst: array<Byte>, src: seq<Byte>) returns (ok: bool)
    modifies dst
    ensures ok == (|src| <= dst.Length)
    ensures ok ==> dst[..] == src + old(dst[..])[|src|..]
    ensures !ok ==> dst[..] == src[..dst.Length]
  {
    var i := 0;
    while i < |src| && i < dst.Length
      invariant 0 <= i <= |src| && i <= dst.Length
      invariant forall j :: 0 <= j < i ==> dst[j] == src[j]
      invariant forall j :: i <= j < dst.Length ==> dst[j] == old(dst[j])
    {
      dst[i] := src[i];
      i := i + 1;
    }
    ok := i == |src|;
  }

  // ---------------------------------------------------------------------------
  // The connection

  class Connection {
    /** The receive buffer (`BytesMut`). */
    var buf: seq<Byte>
    /** The reads the stream will deliver, in order. */
    var input: seq<Chunk>
    /** Everything written to the stream so far. */
    var output: seq<Byte>

    /** `Connection::new(stream)`: an empty receive buffer. */
    constructor (stream: seq<Chunk>)
      ensures buf == [] && input == stream && output == []
    {
      buf := [];
      input := stream;
      output := [];
    }

    /**
     * `parse_frame`: check from the front of the buffer; on success rewind, parse, and drop the
     * consumed prefix; on Incomplete report no frame; on any failure leave the buffer as it was.
     */
    method ParseFrame() returns (r: Outcome<Option<Frame>>)
      modifies this`buf
      ensures Decoded(r, buf) == DecodeFront(old(buf))
    {
      var cur := new Cursor(buf);
      var c := Check(cur);
      if c.Ok? {
        var len := cur.pos;
        cur.SetPosition(0);
        var f :- Parse(cur);
        buf := buf[len..];
        return Ok(Some(f));
      } else if c.error == Incomplete {
        return Ok(None);
      } else {
        return Err(c.error);
      }
    }

    /** `read_buf`: the next chunk is appended to the buffer; its length is returned (0 at the end). */
    method ReadBuf() returns (n: Option<nat>)
      modifies this`buf, this`input
      ensures old(input) == [] ==> n == Some(0) && buf == old(buf) && input == old(input)
      ensures old(input) != [] ==> input == old(input)[1..]
      ensures old(input) != [] && old(input)[0].Failure? ==> n == None && buf == old(buf)
      ensures old(input) != [] && old(input)[0].Data? ==>
        n == Some(|old(input)[0].bytes|) && buf == old(buf) + old(input)[0].bytes
    {
      if input == [] {
        return Some(0);
      }
      var chunk := input[0];
      input := input[1..];
      match chunk {
        case Failure =>
          return None;
        case Data(c) =>
          buf := buf + c;
          return Some(|c|);
      }
    }

    /**
     * One round of the `read_frame` loop: `parse_frame`, and without a frame one read. Either the
     * round ends the loop with its result, or the loop goes on with less input and the same outcome.
     */
    method ReadRound() returns (done: bool, r: ReadResult)
      modifies this`buf, this`input
      ensures done ==> Session(r, buf, input) == ReadFrameOf(old(buf), old(input))
      ensures !done ==> |input| < |old(input)| && ReadFrameOf(buf, input) == ReadFrameOf(old(buf), old(input))
    {
      ghost var before := buf;
      var p := ParseFrame();
      if p.Err? {
        ReadFrameDecided(before, input);
        return true, Failed(Codec(p.error));
      }
      if p.value.Some? {
        ReadFrameDecided(before, input);
        return true, Got(p.value.value);
      }
      ReadFrameRetry(buf, input);
      var n := ReadBuf();
      if n.None? {
        return true, Failed(Io);
      }
      if n.value == 0 {
        if buf == [] {
          return true, EndOfStream;
        } else {
          return true, Failed(CanceledByPeer);
        }
      }
      return false, EndOfStream;
    }

    /**
     * `read_frame`: return a frame as soon as the buffer holds one; otherwise read and retry.
     * A zero-byte read ends the loop: cleanly with an empty buffer, as a peer cancel otherwise.
     */
    method ReadFrame() returns (r: ReadResult)
      modifies this`buf, this`input
      ensures Session(r, buf, input) == ReadFrameOf(old(buf), old(input))
    {
      var done := false;
      r := EndOfStream;
      while !done
        invariant done ==> Session(r, buf, input) == ReadFrameOf(old(buf), old(input))
        invariant !done ==> ReadFrameOf(buf, input) == ReadFrameOf(old(buf), old(input))
        decreases if done then 0 else |input| + 1
      {
        done, r := ReadRound();
      }
    }

    /** `write_frame`: returns `Ok(())` and writes nothing. */
    method WriteFrame(frame: Frame) returns (ok: bool)
      ensures ok
    {
      return true;
    }

    /**
     * `write_decimal`: formats `v` into the two-byte scratch array, then writes it whole and `\r\n`.
     * (`v` is a `u64`; a bulk length reaches it as `usize`, the same width.)
     */
    method WriteDecimal(v: nat) returns (ok: bool)
      modifies this`output
      ensures ok == DecimalField(v).Some?
      ensures output == old(output) + (if ok then DecimalField(v).value else [])
    {
      var scratch := new Byte[2];
      scratch[0], scratch[1] := 0, 20;
      ok := WriteAllInto(scratch, Digits(v));
      if !ok {
        return;
      }
      output := output + scratch[..];
      output := output + CRLF;
    }

    /** `write_value`: the sigil, the payload and the terminators, one write after another. */
    method WriteValue(frame: Frame) returns (ok: bool)
      requires !frame.Array?
      modifies this`output
      ensures output == old(output) + EncodeValue(frame).bytes && ok == EncodeValue(frame).ok
    {
      match frame {
        case Simple(s) =>
          output := output + [PLUS];
          output := output + s;
          output := output + CRLF;
        case Error(s) =>
          output := output + [MINUS];
          output := output + s;
          output := output + CRLF;
        case Bulk(data) =>
          output := output + [DOLLAR];
          ok := WriteDecimal(|data|);
          if !ok {
            return;
          }
          output := output + data;
          output := output + CRLF;
        case Integer(v) =>
          output := output + [COLON];
          ok := WriteDecimal(v);
          if !ok {
            return;
          }
        case Null =>
          output := output + CRLF;
      }
      ok := true;
    }
  }
}
