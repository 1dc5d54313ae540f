/**
 * The frame codec of `src/redis/frame.rs`: a byte cursor, the primitives that move it
 * (`get_u8`, `peek_u8`, `get_line`, `get_decimal`, `skip`) and the two passes over a frame,
 * `check` (validate and advance) and `parse` (materialise a `Frame`).
 *
 * Each imperative method is specified by a function on the byte sequence and a start position
 * (`LineAt`, `DecimalAt`, `SkipAt`, `CheckAt`, `ParseAt`); the lemmas of module FrameLaws are
 * stated over those functions.
 */
module FrameCodec {
  import opened Common
  import opened Decimal
  import opened Utf8

  datatype Frame =
    | Simple(text: seq<Byte>)      // UTF-8 bytes of a Rust String
    | Error(text: seq<Byte>)       // UTF-8 bytes of a Rust String
    | Integer(value: U64)
    | Bulk(data: seq<Byte>)
    | Null
    | Array(items: seq<Frame>)

  /**
   * `frame::Error`: `Incomplete` (more bytes needed) or `Other` (invalid encoding).
   * `Unimplemented` stands for the `unimplemented!()` panic an unknown sigil reaches.
   */
  datatype CodecError = Incomplete | Other | Unimplemented

  /** `Result<T, frame::Error>`, usable with `:-` the way the source uses `?`. */
  datatype Outcome<+T> = Ok(value: T) | Err(error: CodecError)
  {
    predicate IsFailure()
    {
      Err?
    }

    function PropagateFailure<U>(): Outcome<U>
      requires Err?
    {
      Err(error)
    }

    function Extract(): T
      requires Ok?
    {
      value
    }
  }

  // ---------------------------------------------------------------------------
  // Specification functions: what each step computes from the bytes and a start position

  /** The first `\r\n` at or after `from`; the scan of `get_line`. */
  function FindCrlf(buf: seq<Byte>, from: nat): (r: Option<nat>)
    decreases |buf| - from
    ensures r.Some? ==> from <= r.value && CrlfAt(buf, r.value)
    ensures r.Some? ==> forall j :: from <= j < r.value ==> !CrlfAt(buf, j)
    ensures r.None? ==> forall j :: from <= j ==> !CrlfAt(buf, j)
  {
    if from + 1 >= |buf| then None
    else if CrlfAt(buf, from) then Some(from)
    else FindCrlf(buf, from + 1)
  }

  /**
   * `get_line` from `pos`: the line and the position just past its `\r\n`.
   * The consumed bytes are the line followed by `\r\n`, and the line holds no `\r\n`;
   * with no `\r\n` anywhere at or after `pos` the answer is Incomplete.
   */
  function LineAt(buf: seq<Byte>, pos: nat): (r: Outcome<(seq<Byte>, nat)>)
    requires pos <= |buf|
    ensures r.Ok? ==> var (line, next) := r.value;
      next == pos + |line| + 2 <= |buf| && buf[pos..next] == line + CRLF && NoCrlf(line)
    ensures r.Err? ==> r.error == Incomplete && forall j :: pos <= j ==> !CrlfAt(buf, j)
  {
    match FindCrlf(buf, pos)
    case None => Err(Incomplete)
    case Some(i) =>
      var line := buf[pos..i];
      assert NoCrlf(line) by {
        forall j | 0 <= j < |line| ensures !CrlfAt(line, j) {
          assert CrlfAt(line, j) ==> CrlfAt(buf, pos + j);
        }
      }
      Ok((line, i + 2))
  }

  /**
   * `get_decimal` from `pos`: a line read with `atoi`. The value is what `atoi` reads from the
   * line and the position is the line's end; without a line the answer is Incomplete, and a line
   * `atoi` cannot read is a protocol error.
   */
  function DecimalAt(buf: seq<Byte>, pos: nat): (r: Outcome<(U64, nat)>)
    requires pos <= |buf|
    ensures r.Ok? ==> pos + 2 <= r.value.1 <= |buf|
  {
    var l :- LineAt(buf, pos);
    match Atoi(l.0)
    case None => Err(Other)
    case Some(v) => Ok((v, l.1))
  }

  /** `skip(n)` from `pos`: Incomplete when fewer than `n` bytes remain, else the position `n` further. */
  function SkipAt(buf: seq<Byte>, pos: nat, n: nat): (r: Outcome<nat>)
    requires pos <= |buf|
    ensures r.Ok? <==> pos + n <= |buf|
    ensures r.Ok? ==> r.value == pos + n
    ensures r.Err? ==> r.error == Incomplete
  {
    if |buf| - pos < n then Err(Incomplete) else Ok(pos + n)
  }

  /**
   * The largest Array count `check` accepts: the count it converts with `try_into` is inferred
   * as an `i32` (its only use is the range `0..len`), so a larger count is a protocol error.
   */
  const I32_MAX: nat := 0x7FFF_FFFF

  /** The largest `usize` on a 64-bit target: the type every other count of the codec has. */
  const USIZE_MAX: nat := U64_LIMIT - 1

  /**
   * `Frame::check` from `pos`: where the frame starting at `pos` ends, or why there is none.
   * An Array count above `limit` is a protocol error; `check` as written has `limit == I32_MAX`,
   * and with `limit == USIZE_MAX` no count `get_decimal` returns is refused.
   * A successful check always makes progress and stays within the buffer.
   */
  function CheckAt(buf: seq<Byte>, pos: nat, limit: nat): (r: Outcome<nat>)
    requires pos <= |buf|
    ensures r.Ok? ==> pos < r.value <= |buf|
    decreases |buf| - pos, 0
  {
    if pos == |buf| then Err(Incomplete)
    else
      var tag := buf[pos];
      var p := pos + 1;
      if tag == PLUS || tag == MINUS then
        var l :- LineAt(buf, p);
        Ok(l.1)
      else if tag == COLON then
        var d :- DecimalAt(buf, p);
        Ok(d.1)
      else if tag == DOLLAR then
        if p == |buf| then Err(Incomplete)
        else if buf[p] == MINUS then SkipAt(buf, p, 4)
        else
          var d :- DecimalAt(buf, p);
          SkipAt(buf, d.1, d.0 + 2)
      else if tag == STAR then
        var d :- DecimalAt(buf, p);
        if d.0 > limit then Err(Other)
        else CheckElemsAt(buf, d.1, d.0, limit)
      else Err(Unimplemented)
  }

  /** The `for _ in 0..len` loop of the Array arm of `check`: `n` frames one after another. */
  function CheckElemsAt(buf: seq<Byte>, pos: nat, n: nat, limit: nat): (r: Outcome<nat>)
    requires pos <= |buf|
    ensures r.Ok? ==> pos <= r.value <= |buf|
    ensures r.Ok? && n > 0 ==> pos < r.value
    decreases |buf| - pos, 1
  {
    if n == 0 then Ok(pos)
    else
      var q :- CheckAt(buf, pos, limit);
      CheckElemsAt(buf, q, n - 1, limit)
  }

  /**
   * `Frame::parse` from `pos`: the frame starting at `pos` and where it ends, or why there is none.
   */
  function ParseAt(buf: seq<Byte>, pos: nat): (r: Outcome<(Frame, nat)>)
    requires pos <= |buf|
    ensures r.Ok? ==> pos < r.value.1 <= |buf|
    decreases |buf| - pos, 0
  {
    if pos == |buf| then Err(Incomplete)
    else
      var tag := buf[pos];
      var p := pos + 1;
      if tag == PLUS then
        var l :- LineAt(buf, p);
        if ValidUtf8(l.0) then Ok((Simple(l.0), l.1)) else Err(Other)
      else if tag == MINUS then
        var l :- LineAt(buf, p);
        if ValidUtf8(l.0) then Ok((Error(l.0), l.1)) else Err(Other)
      else if tag == COLON then
        var d :- DecimalAt(buf, p);
        Ok((Integer(d.0), d.1))
      else if tag == DOLLAR then
        if p == |buf| then Err(Incomplete)
        else if buf[p] == MINUS then
          var q :- SkipAt(buf, p, 4);
          Ok((Null, q))
        else
          var d :- DecimalAt(buf, p);
          var len := d.0;
          if |buf| - d.1 < len + 2 then Err(Incomplete)
          else
            var data := buf[d.1..d.1 + len];
            var q :- SkipAt(buf, d.1, len + 2);
            Ok((Bulk(data), q))
      else if tag == STAR then
        var d :- DecimalAt(buf, p);
        var e :- ParseElemsAt(buf, d.1, d.0);
        Ok((Array(e.0), e.1))
      else Err(Unimplemented)
  }

  /** The `for _ in 0..len { out.push(..) }` loop of the Array arm of `parse`. */
  function ParseElemsAt(buf: seq<Byte>, pos: nat, n: nat): (r: Outcome<(seq<Frame>, nat)>)
    requires pos <= |buf|
    ensures r.Ok? ==> |r.value.0| == n && pos <= r.value.1 <= |buf|
    ensures r.Ok? && n > 0 ==> pos < r.value.1
    decreases |buf| - pos, 1
  {
    if n == 0 then Ok(([], pos))
    else
      var h :- ParseAt(buf, pos);
      var t :- ParseElemsAt(buf, h.1, n - 1);
      Ok(([h.0] + t.0, t.1))
  }

  /** Every Array inside `f`, `f` itself included, holds at most `limit` items. */
  predicate CountsWithin(f: Frame, limit: nat)
  {
    match f
    case Array(items) => |items| <= limit && forall i :: 0 <= i < |items| ==> CountsWithin(items[i], limit)
    case _ => true
  }

  /** Every frame of `fs` keeps its Array counts within `limit`. */
  predicate AllWithin(fs: seq<Frame>, limit: nat)
  {
    forall i :: 0 <= i < |fs| ==> CountsWithin(fs[i], limit)
  }

  /** Frames already pushed to `out`, followed by the outcome of parsing the rest. */
  function Prefixed(out: seq<Frame>, r: Outcome<(seq<Frame>, nat)>): Outcome<(seq<Frame>, nat)>
  {
    match r
    case Ok((fs, q)) => Ok((out + fs, q))
    case Err(e) => Err(e)
  }

  /** The Array loop of `parse` takes one element, then the rest. */
  lemma ParseElemsUnfold(buf: seq<Byte>, pos: nat, n: nat)
    requires pos <= |buf| && n > 0
    ensures ParseElemsAt(buf, pos, n) ==
      match ParseAt(buf, pos)
      case Err(e) => Err(e)
      case Ok((f, q)) => Prefixed([f], ParseElemsAt(buf, q, n - 1))
  {
  }

  lemma PrefixedNothing(r: Outcome<(seq<Frame>, nat)>)
    ensures Prefixed([], r) == r
  {
    if r.Ok? {
      assert [] + r.value.0 == r.value.0;
    }
  }

  lemma PrefixedConcat(a: seq<Frame>, b: seq<Frame>, r: Outcome<(seq<Frame>, nat)>)
    ensures Prefixed(a, Prefixed(b, r)) == Prefixed(a + b, r)
  {
    if r.Ok? {
      assert a + (b + r.value.0) == (a + b) + r.value.0;
    }
  }

  lemma PrefixedAppend(out: seq<Frame>, f: Frame, r: Outcome<(seq<Frame>, nat)>)
    ensures Prefixed(out, Prefixed([f], r)) == Prefixed(out + [f], r)
  {
    if r.Ok? {
      assert out + ([f] + r.value.0) == (out + [f]) + r.value.0;
    }
  }

  // ---------------------------------------------------------------------------
  // The cursor and the imperative operations on it

  /** `std::io::Cursor<&[u8]>`: a read-only byte slice and a position in it. */
  class Cursor {
    const data: seq<Byte>
    var pos: nat

    ghost predicate Valid()
      reads this
    {
      pos <= |data|
    }

    /** `Cursor::new(bytes)`: positioned at the start. */
    constructor (bytes: seq<Byte>)
      ensures data == bytes && pos == 0 && Valid()
    {
      data := bytes;
      pos := 0;
    }

    /** `set_position(p)`. */
    method SetPosition(p: nat)
      requires p <= |data|
      modifies this
      ensures pos == p && Valid()
    {
      pos := p;
    }
  }

  /** `get_u8`: the byte at the cursor, advancing one; Incomplete with the cursor unmoved at the end. */
  method GetU8(src: Cursor) returns (r: Outcome<Byte>)
    requires src.Valid()
    modifies src
    ensures src.Valid()
    ensures old(src.pos) == |src.data| ==> r == Err(Incomplete) && src.pos == old(src.pos)
    ensures old(src.pos) < |src.data| ==> r == Ok(src.data[old(src.pos)]) && src.pos == old(src.pos) + 1
  {
    if src.pos == |src.data| {
      return Err(Incomplete);
    }
    r := Ok(src.data[src.pos]);
    src.pos := src.pos + 1;
  }

  /** `peek_u8`: the byte at the cursor without moving it; Incomplete at the end. */
  method PeekU8(src: Cursor) returns (r: Outcome<Byte>)
    requires src.Valid()
    ensures old(src.pos) == |src.data| ==> r == Err(Incomplete)
    ensures old(src.pos) < |src.data| ==> r == Ok(src.data[src.pos])
  {
    if src.pos == |src.data| {
      return Err(Incomplete);
    }
    return Ok(src.data[src.pos]);
  }

  /** `skip(n)`: Incomplete with the cursor unmoved when fewer than `n` bytes remain, else advance `n`. */
  method Skip(src: Cursor, n: nat) returns (r: Outcome<()>)
    requires src.Valid()
    modifies src
    ensures src.Valid()
    ensures SkipAt(src.data, old(src.pos), n) == if r.Ok? then Ok(src.pos) else Err(r.error)
    ensures r.Err? ==> src.pos == old(src.pos)
  {
    if |src.data| - src.pos < n {
      return Err(Incomplete);
    }
    src.pos := src.pos + n;
    return Ok(());
  }

  /**
   * `get_line`: scans for the first `\r\n` at or after the cursor. The buffer must not be empty
   * (the source computes `len - 1` on it). On Incomplete the cursor is unmoved.
   */
  method GetLine(src: Cursor) returns (r: Outcome<seq<Byte>>)
    requires src.Valid() && |src.data| > 0
    modifies src
    ensures src.Valid()
    ensures match LineAt(src.data, old(src.pos))
      case Ok((line, next)) => r == Ok(line) && src.pos == next
      case Err(e) => r == Err(e) && src.pos == old(src.pos)
  {
    var start := src.pos;
    var end := |src.data| - 1;
    var i := start;
    while i < end
      invariant start <= i
      invariant forall j :: start <= j < i ==> !CrlfAt(src.data, j)
      invariant src.pos == start
    {
      if src.data[i] == CR && src.data[i + 1] == LF {
        assert CrlfAt(src.data, i);
        assert FindCrlf(src.data, start) == Some(i);
        src.pos := i + 2;
        return Ok(src.data[start..i]);
      }
      i := i + 1;
    }
    return Err(Incomplete);
  }

  /** `get_decimal`: a line read with `atoi`; Other (past the line) when `atoi` reads nothing. */
  method GetDecimal(src: Cursor) returns (r: Outcome<U64>)
    requires src.Valid() && |src.data| > 0
    modifies src
    ensures src.Valid()
    ensures match LineAt(src.data, old(src.pos))
      case Ok((line, next)) => src.pos == next && r == (if Atoi(line).Some? then Ok(Atoi(line).value) else Err(Other))
      case Err(e) => r == Err(e) && src.pos == old(src.pos)
  {
    var line :- GetLine(src);
    match Atoi(line)
    case None => return Err(Other);
    case Some(v) => return Ok(v);
  }

  /**
   * `Frame::check`: validates the frame at the cursor and leaves the cursor just past it.
   * After a failure the cursor is somewhere between where it started and the end.
   */
  method Check(src: Cursor) returns (r: Outcome<()>)
    requires src.Valid()
    modifies src
    decreases |src.data| - src.pos, 0
    ensures src.Valid() && old(src.pos) <= src.pos
    ensures CheckAt(src.data, old(src.pos), I32_MAX) == if r.Ok? then Ok(src.pos) else Err(r.error)
  {
    var tag :- GetU8(src);
    if tag == PLUS || tag == MINUS {
      var line :- GetLine(src);
      return Ok(());
    } else if tag == COLON {
      var n :- GetDecimal(src);
      return Ok(());
    } else if tag == DOLLAR {
      var next :- PeekU8(src);
      if next == MINUS {
        var skipped :- Skip(src, 4);
        return Ok(());
      } else {
        var len :- GetDecimal(src);
        var n: nat := len as int + 2;
        var skipped :- Skip(src, n);
        return Ok(());
      }
    } else if tag == STAR {
      var len :- GetDecimal(src);
      if len > I32_MAX {
        // `try_into()?` to `i32` fails: a protocol error.
        return Err(Other);
      }
      r := CheckElems(src, len);
    } else {
      return Err(Unimplemented);
    }
  }

  /**
   * `Frame::parse`: materialises the frame at the cursor and leaves the cursor just past it.
   * After a failure the cursor is somewhere between where it started and the end.
   */
  method Parse(src: Cursor) returns (r: Outcome<Frame>)
    requires src.Valid()
    modifies src
    decreases |src.data| - src.pos, 0
    ensures src.Valid() && old(src.pos) <= src.pos
    ensures ParseAt(src.data, old(src.pos)) == if r.Ok? then Ok((r.value, src.pos)) else Err(r.error)
  {
    var tag :- GetU8(src);
    if tag == PLUS {
      var line :- GetLine(src);
      if !ValidUtf8(line) {
        return Err(Other);
      }
      return Ok(Simple(line));
    } else if tag == MINUS {
      var line :- GetLine(src);
      if !ValidUtf8(line) {
        return Err(Other);
      }
      return Ok(Error(line));
    } else if tag == COLON {
      var n :- GetDecimal(src);
      return Ok(Integer(n));
    } else if tag == DOLLAR {
      r := ParseDollar(src);
    } else if tag == STAR {
      var len :- GetDecimal(src);
      var items :- ParseElems(src, len);
      return Ok(Array(items));
    } else {
      return Err(Unimplemented);
    }
  }

  /** The `b'$'` arm of `parse`, entered with the cursor just past the `$`: Null or Bulk. */
  method ParseDollar(src: Cursor) returns (r: Outcome<Frame>)
    requires src.Valid() && 0 < src.pos && src.data[src.pos - 1] == DOLLAR
    modifies src
    ensures src.Valid() && old(src.pos) <= src.pos
    ensures ParseAt(src.data, old(src.pos) - 1) == if r.Ok? then Ok((r.value, src.pos)) else Err(r.error)
  {
    var next :- PeekU8(src);
    if next == MINUS {
      var skipped :- Skip(src, 4);
      return Ok(Null);
    } else {
      var len :- GetDecimal(src);
      var n: nat := len as int + 2;
      if |src.data| - src.pos < n {
        return Err(Incomplete);
      }
      var data := src.data[src.pos..src.pos + len];
      // `skip(src, n)?` cannot fail here: at least `n` bytes remain.
      var skipped := Skip(src, n);
      return Ok(Bulk(data));
    }
  }

  /** The Array arm's `for _ in 0..len { Frame::check(src)? }`: checks `n` frames in order. */
  method CheckElems(src: Cursor, n: nat) returns (r: Outcome<()>)
    requires src.Valid()
    modifies src
    decreases |src.data| - src.pos, 1
    ensures src.Valid() && old(src.pos) <= src.pos
    ensures CheckElemsAt(src.data, old(src.pos), n, I32_MAX) == if r.Ok? then Ok(src.pos) else Err(r.error)
  {
    ghost var first := src.pos;
    var i := 0;
    while i < n
      invariant 0 <= i <= n
      invariant src.Valid() && first <= src.pos
      invariant CheckElemsAt(src.data, first, n, I32_MAX) == CheckElemsAt(src.data, src.pos, n - i, I32_MAX)
    {
      var ok :- Check(src);
      i := i + 1;
    }
    return Ok(());
  }

  /** The Array arm's `for _ in 0..len { out.push(Frame::parse(src)?) }`: parses `n` frames in order. */
  method ParseElems(src: Cursor, n: nat) returns (r: Outcome<seq<Frame>>)
    requires src.Valid()
    modifies src
    decreases |src.data| - src.pos, 1
    ensures src.Valid() && old(src.pos) <= src.pos
    ensures ParseElemsAt(src.data, old(src.pos), n) == if r.Ok? then Ok((r.value, src.pos)) else Err(r.error)
  {
    ghost var first := src.pos;
    var out: seq<Frame> := [];
    var i := 0;
    PrefixedNothing(ParseElemsAt(src.data, first, n));
    while i < n
      invariant 0 <= i <= n && |out| == i
      invariant src.Valid() && first <= src.pos
      invariant ParseElemsAt(src.data, first, n) == Prefixed(out, ParseElemsAt(src.data, src.pos, n - i))
    {
      ParseElemsUnfold(src.data, src.pos, n - i);
      var f :- Parse(src);
      PrefixedAppend(out, f, ParseElemsAt(src.data, src.pos, n - i - 1));
      out := out + [f];
      i := i + 1;
    }
    assert out + [] == out;
    return Ok(out);
  }
}
