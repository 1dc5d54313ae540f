/**
 * Properties of the frame codec of `src/redis/frame.rs`, stated over the specification functions
 * of module FrameCodec (which the imperative `Check` and `Parse` are proved to follow).
 */
module FrameLaws {
  import opened Common
  import opened Decimal
  import opened FrameCodec

  // ---------------------------------------------------------------------------
  // get_line

  /** A `\r\n` at `i` with none between `from` and `i` is the one `get_line` finds. */
  lemma FindCrlfIs(buf: seq<Byte>, from: nat, i: nat)
    requires from <= i && CrlfAt(buf, i)
    requires forall j :: from <= j < i ==> !CrlfAt(buf, j)
    ensures FindCrlf(buf, from) == Some(i)
  {
  }

  /** A line free of `\r\n` followed by `\r\n` is read back exactly, whatever precedes or follows it. */
  lemma LineOf(pre: seq<Byte>, s: seq<Byte>, rest: seq<Byte>)
    requires NoCrlf(s)
    ensures LineAt(pre + s + CRLF + rest, |pre|) == Ok((s, |pre| + |s| + 2))
  {
    var b := pre + s + CRLF + rest;
    var i := |pre| + |s|;
    assert CrlfAt(b, i);
    forall j | |pre| <= j < i ensures !CrlfAt(b, j) {
      if j + 1 < i {
        assert b[j] == s[j - |pre|] && b[j + 1] == s[j + 1 - |pre|];
        assert !CrlfAt(s, j - |pre|);
      } else {
        assert b[j + 1] == CR;
      }
    }
    FindCrlfIs(b, |pre|, i);
    assert b[|pre|..i] == s;
  }

  /** `get_line`'s answer depends only on the bytes up to the end of the line it returns. */
  lemma LineStable(b1: seq<Byte>, b2: seq<Byte>, pos: nat, n: nat)
    requires pos <= |b1| && LineAt(b1, pos).Ok?
    requires LineAt(b1, pos).value.1 <= n && AgreeBelow(b1, b2, n)
    ensures pos <= |b2| && LineAt(b2, pos) == LineAt(b1, pos)
  {
    var i := FindCrlf(b1, pos).value;
    assert CrlfAt(b2, i);
    forall j | pos <= j < i ensures !CrlfAt(b2, j) {
      assert !CrlfAt(b1, j);
    }
    FindCrlfIs(b2, pos, i);
    assert b2[pos..i] == b1[pos..i];
  }

  /** Cut before the end of a line, the buffer holds no `\r\n` for `get_line` to find. */
  lemma LineIncompleteBelow(buf: seq<Byte>, pos: nat, k: nat)
    requires pos <= k && pos <= |buf| && LineAt(buf, pos).Ok?
    requires k < LineAt(buf, pos).value.1
    ensures LineAt(buf[..k], pos) == Err(Incomplete)
  {
    var i := FindCrlf(buf, pos).value;
    var r := FindCrlf(buf[..k], pos);
    if r.Some? {
      assert CrlfAt(buf, r.value);
    }
  }

  // ---------------------------------------------------------------------------
  // get_decimal

  /**
   * `get_decimal` is `get_line` then `atoi`: a value is what `atoi` reads from the line, ending
   * where the line ends; it is Incomplete exactly when there is no line, and otherwise a failure
   * is a protocol error.
   */
  lemma DecimalReadsLine(buf: seq<Byte>, pos: nat)
    requires pos <= |buf|
    ensures var r := DecimalAt(buf, pos);
      && (r.Ok? ==>
            && LineAt(buf, pos).Ok?
            && r.value.1 == LineAt(buf, pos).value.1
            && Atoi(LineAt(buf, pos).value.0) == Some(r.value.0))
      && (r.Err? ==> (r.error == Incomplete <==> LineAt(buf, pos).Err?) && r.error != Unimplemented)
  {
  }

  lemma DecimalStable(b1: seq<Byte>, b2: seq<Byte>, pos: nat, n: nat)
    requires pos <= |b1| && DecimalAt(b1, pos).Ok?
    requires DecimalAt(b1, pos).value.1 <= n && AgreeBelow(b1, b2, n)
    ensures pos <= |b2| && DecimalAt(b2, pos) == DecimalAt(b1, pos)
  {
    LineStable(b1, b2, pos, n);
  }

  lemma DecimalIncompleteBelow(buf: seq<Byte>, pos: nat, k: nat)
    requires pos <= k && pos <= |buf| && DecimalAt(buf, pos).Ok?
    requires k < DecimalAt(buf, pos).value.1
    ensures DecimalAt(buf[..k], pos) == Err(Incomplete)
  {
    LineIncompleteBelow(buf, pos, k);
  }

  /** A decimal written by `{}` and ended by `\r\n` (with any non-digit bytes between) is read back. */
  lemma DecimalOf(pre: seq<Byte>, v: U64, pad: seq<Byte>, rest: seq<Byte>)
    requires pad == [] || !IsDigit(pad[0])
    requires NoCrlf(Digits(v) + pad)
    ensures DecimalAt(pre + (Digits(v) + pad) + CRLF + rest, |pre|) == Ok((v, |pre| + |Digits(v) + pad| + 2))
  {
    LineOf(pre, Digits(v) + pad, rest);
    AtoiOfDigits(v, pad);
  }

  // ---------------------------------------------------------------------------
  // check and parse agree

  /**
   * The relation between a `check` outcome and a `parse` outcome from the same position:
   * a parsed frame ends where the check ended; a parse failure is the check's own failure
   * or a protocol error (the UTF-8 validation that only `parse` performs).
   */
  ghost predicate Agrees<T>(c: Outcome<nat>, p: Outcome<(T, nat)>)
  {
    match p
    case Ok((_, q)) => c == Ok(q)
    case Err(e) => e == Other || c == Err(e)
  }

  /**
   * With Array counts read as `usize`, as `parse` reads them, `check` and `parse` consume the same
   * bytes: a successful parse ends where check ends, a successful check is never followed by an
   * Incomplete parse, and a failed check is never followed by a successful parse.
   */
  lemma {:induction false} CheckParseAgree(buf: seq<Byte>, pos: nat)
    requires pos <= |buf|
    ensures Agrees(CheckAt(buf, pos, USIZE_MAX), ParseAt(buf, pos))
    decreases |buf| - pos, 0
  {
    if pos < |buf| && buf[pos] == STAR {
      var d := DecimalAt(buf, pos + 1);
      if d.Ok? {
        ElemsAgree(buf, d.value.1, d.value.0);
      }
    }
  }

  lemma {:induction false} ElemsAgree(buf: seq<Byte>, pos: nat, n: nat)
    requires pos <= |buf|
    ensures Agrees(CheckElemsAt(buf, pos, n, USIZE_MAX), ParseElemsAt(buf, pos, n))
    decreases |buf| - pos, 1
  {
    if n > 0 {
      CheckParseAgree(buf, pos);
      var p := ParseAt(buf, pos);
      if p.Ok? {
        ElemsAgree(buf, p.value.1, n - 1);
      }
    }
  }

  /**
   * A smaller count limit changes a check only into a protocol error: the outcome is the one
   * of the `usize` check, or Other.
   */
  lemma {:induction false} LimitedCheck(buf: seq<Byte>, pos: nat, limit: nat)
    requires pos <= |buf|
    ensures CheckAt(buf, pos, limit) == CheckAt(buf, pos, USIZE_MAX) || CheckAt(buf, pos, limit) == Err(Other)
    decreases |buf| - pos, 0
  {
    if pos < |buf| && buf[pos] == STAR {
      var d := DecimalAt(buf, pos + 1);
      if d.Ok? && d.value.0 <= limit {
        LimitedElems(buf, d.value.1, d.value.0, limit);
      }
    }
  }

  lemma {:induction false} LimitedElems(buf: seq<Byte>, pos: nat, n: nat, limit: nat)
    requires pos <= |buf|
    ensures CheckElemsAt(buf, pos, n, limit) == CheckElemsAt(buf, pos, n, USIZE_MAX)
      || CheckElemsAt(buf, pos, n, limit) == Err(Other)
    decreases |buf| - pos, 1
  {
    if n > 0 {
      LimitedCheck(buf, pos, limit);
      var c := CheckAt(buf, pos, limit);
      if c.Ok? {
        LimitedElems(buf, c.value, n - 1, limit);
      }
    }
  }

  /**
   * On a frame `parse` accepts, `check` accepts it too, ending where parse ended, exactly when
   * none of its Arrays counts more than `limit` items; otherwise it is a protocol error.
   */
  lemma {:induction false} ParsedCheck(buf: seq<Byte>, pos: nat, limit: nat)
    requires pos <= |buf| && ParseAt(buf, pos).Ok?
    ensures var (f, q) := ParseAt(buf, pos).value;
      CheckAt(buf, pos, limit) == if CountsWithin(f, limit) then Ok(q) else Err(Other)
    decreases |buf| - pos, 0
  {
    if buf[pos] == STAR {
      var d := DecimalAt(buf, pos + 1).value;
      if d.0 <= limit {
        ParsedElems(buf, d.1, d.0, limit);
      }
    }
  }

  lemma {:induction false} ParsedElems(buf: seq<Byte>, pos: nat, n: nat, limit: nat)
    requires pos <= |buf| && ParseElemsAt(buf, pos, n).Ok?
    ensures var (fs, q) := ParseElemsAt(buf, pos, n).value;
      CheckElemsAt(buf, pos, n, limit) == if AllWithin(fs, limit) then Ok(q) else Err(Other)
    decreases |buf| - pos, 1
  {
    if n > 0 {
      var h := ParseAt(buf, pos).value;
      ParsedCheck(buf, pos, limit);
      var t := ParseElemsAt(buf, h.1, n - 1).value;
      var fs := ParseElemsAt(buf, pos, n).value.0;
      assert fs == [h.0] + t.0;
      assert AllWithin(fs, limit) <==> CountsWithin(h.0, limit) && AllWithin(t.0, limit) by {
        assert fs[0] == h.0;
        assert forall i :: 0 <= i < |t.0| ==> fs[i + 1] == t.0[i];
      }
      if CountsWithin(h.0, limit) {
        ParsedElems(buf, h.1, n - 1, limit);
      }
    }
  }

  /** After a successful check, parse fails only on invalid UTF-8. */
  lemma CheckedFrameParses(buf: seq<Byte>, pos: nat, limit: nat)
    requires pos <= |buf| && CheckAt(buf, pos, limit).Ok?
    ensures ParseAt(buf, pos).Ok? ==> ParseAt(buf, pos).value.1 == CheckAt(buf, pos, limit).value
    ensures ParseAt(buf, pos).Err? ==> ParseAt(buf, pos).error == Other
  {
    LimitedCheck(buf, pos, limit);
    CheckParseAgree(buf, pos);
  }

  /**
   * The `i32` count of `check` as written: `*2147483648\r\n` is a protocol error to check while
   * parse, reading the count as a `usize`, still waits for the 2^31 elements.
   */
  lemma WideCountRefused()
    ensures var buf := [STAR] + Digits(I32_MAX + 1) + CRLF;
      && CheckAt(buf, 0, I32_MAX) == Err(Other)
      && ParseAt(buf, 0) == Err(Incomplete)
      && !Agrees(CheckAt(buf, 0, I32_MAX), ParseAt(buf, 0))
  {
    var buf := [STAR] + Digits(I32_MAX + 1) + CRLF;
    DecimalOf([STAR], I32_MAX + 1, [], []);
    assert [STAR] + (Digits(I32_MAX + 1) + []) + CRLF + [] == buf;
    assert ParseElemsAt(buf, |buf|, I32_MAX + 1) == Err(Incomplete);
  }

  // ---------------------------------------------------------------------------
  // A successful pass depends only on the bytes it consumed

  lemma {:induction false} CheckStable(b1: seq<Byte>, b2: seq<Byte>, pos: nat, n: nat, limit: nat)
    requires pos <= |b1| && CheckAt(b1, pos, limit).Ok?
    requires CheckAt(b1, pos, limit).value <= n && AgreeBelow(b1, b2, n)
    ensures pos <= |b2| && CheckAt(b2, pos, limit) == CheckAt(b1, pos, limit)
    decreases |b1| - pos, 0
  {
    var tag := b1[pos];
    var p := pos + 1;
    if tag == PLUS || tag == MINUS {
      LineStable(b1, b2, p, n);
    } else if tag == COLON {
      DecimalStable(b1, b2, p, n);
    } else if tag == DOLLAR {
      if b1[p] != MINUS {
        DecimalStable(b1, b2, p, n);
      }
    } else if tag == STAR {
      DecimalStable(b1, b2, p, n);
      var d := DecimalAt(b1, p).value;
      CheckElemsStable(b1, b2, d.1, d.0, n, limit);
    }
  }

  lemma {:induction false} CheckElemsStable(b1: seq<Byte>, b2: seq<Byte>, pos: nat, count: nat, n: nat, limit: nat)
    requires pos <= |b1| && CheckElemsAt(b1, pos, count, limit).Ok?
    requires CheckElemsAt(b1, pos, count, limit).value <= n && AgreeBelow(b1, b2, n)
    ensures pos <= |b2| && CheckElemsAt(b2, pos, count, limit) == CheckElemsAt(b1, pos, count, limit)
    decreases |b1| - pos, 1
  {
    if count > 0 {
      CheckStable(b1, b2, pos, n, limit);
      CheckElemsStable(b1, b2, CheckAt(b1, pos, limit).value, count - 1, n, limit);
    }
  }

  lemma {:induction false} ParseStable(b1: seq<Byte>, b2: seq<Byte>, pos: nat, n: nat)
    requires pos <= |b1| && ParseAt(b1, pos).Ok?
    requires ParseAt(b1, pos).value.1 <= n && AgreeBelow(b1, b2, n)
    ensures pos <= |b2| && ParseAt(b2, pos) == ParseAt(b1, pos)
    decreases |b1| - pos, 0
  {
    var tag := b1[pos];
    var p := pos + 1;
    if tag == PLUS || tag == MINUS {
      LineStable(b1, b2, p, n);
    } else if tag == COLON {
      DecimalStable(b1, b2, p, n);
    } else if tag == DOLLAR {
      if b1[p] != MINUS {
        DecimalStable(b1, b2, p, n);
        var d := DecimalAt(b1, p).value;
        assert b2[d.1..d.1 + d.0] == b1[d.1..d.1 + d.0];
      }
    } else if tag == STAR {
      DecimalStable(b1, b2, p, n);
      var d := DecimalAt(b1, p).value;
      ParseElemsStable(b1, b2, d.1, d.0, n);
    }
  }

  lemma {:induction false} ParseElemsStable(b1: seq<Byte>, b2: seq<Byte>, pos: nat, count: nat, n: nat)
    requires pos <= |b1| && ParseElemsAt(b1, pos, count).Ok?
    requires ParseElemsAt(b1, pos, count).value.1 <= n && AgreeBelow(b1, b2, n)
    ensures pos <= |b2| && ParseElemsAt(b2, pos, count) == ParseElemsAt(b1, pos, count)
    decreases |b1| - pos, 1
  {
    if count > 0 {
      ParseStable(b1, b2, pos, n);
      ParseElemsStable(b1, b2, ParseAt(b1, pos).value.1, count - 1, n);
      ParseElemsUnfold(b1, pos, count);
      ParseElemsUnfold(b2, pos, count);
    }
  }

  /** Appending bytes to the buffer does not change a successful check's outcome or end. */
  lemma CheckExtends(buf: seq<Byte>, tail: seq<Byte>, pos: nat, limit: nat)
    requires pos <= |buf| && CheckAt(buf, pos, limit).Ok?
    ensures CheckAt(buf + tail, pos, limit) == CheckAt(buf, pos, limit)
  {
    CheckStable(buf, buf + tail, pos, |buf|, limit);
  }

  /** Appending bytes to the buffer does not change a successful parse's frame or end. */
  lemma ParseExtends(buf: seq<Byte>, tail: seq<Byte>, pos: nat)
    requires pos <= |buf| && ParseAt(buf, pos).Ok?
    ensures ParseAt(buf + tail, pos) == ParseAt(buf, pos)
  {
    ParseStable(buf, buf + tail, pos, |buf|);
  }

  // ---------------------------------------------------------------------------
  // Cut short, a checkable frame is Incomplete (never a protocol error)

  lemma {:induction false} CheckIncompleteBelow(buf: seq<Byte>, pos: nat, k: nat, limit: nat)
    requires pos <= k && pos <= |buf| && CheckAt(buf, pos, limit).Ok?
    requires k < CheckAt(buf, pos, limit).value
    ensures CheckAt(buf[..k], pos, limit) == Err(Incomplete)
    decreases |buf| - pos, 1
  {
    if pos < k {
      var tag := buf[pos];
      if tag == DOLLAR {
        BulkIncompleteBelow(buf, pos, k, limit);
      } else if tag == STAR {
        ArrayIncompleteBelow(buf, pos, k, limit);
      } else {
        var t := buf[..k];
        var p := pos + 1;
        assert t[pos] == tag;
        if tag == PLUS || tag == MINUS {
          LineIncompleteBelow(buf, p, k);
        } else {
          DecimalIncompleteBelow(buf, p, k);
        }
      }
    }
  }

  /** The Bulk and Null arms of `CheckIncompleteBelow`. */
  lemma BulkIncompleteBelow(buf: seq<Byte>, pos: nat, k: nat, limit: nat)
    requires pos < k < |buf| && buf[pos] == DOLLAR && CheckAt(buf, pos, limit).Ok?
    requires k < CheckAt(buf, pos, limit).value
    ensures CheckAt(buf[..k], pos, limit) == Err(Incomplete)
  {
    var t := buf[..k];
    var p := pos + 1;
    assert t[pos] == DOLLAR;
    if p < k {
      assert t[p] == buf[p];
      if buf[p] != MINUS {
        var d := DecimalAt(buf, p).value;
        if k < d.1 {
          DecimalIncompleteBelow(buf, p, k);
        } else {
          DecimalStable(buf, t, p, d.1);
        }
      }
    }
  }

  /** The Array arm of `CheckIncompleteBelow`. */
  lemma {:induction false} ArrayIncompleteBelow(buf: seq<Byte>, pos: nat, k: nat, limit: nat)
    requires pos < k < |buf| && buf[pos] == STAR && CheckAt(buf, pos, limit).Ok?
    requires k < CheckAt(buf, pos, limit).value
    ensures CheckAt(buf[..k], pos, limit) == Err(Incomplete)
    decreases |buf| - pos, 0
  {
    var t := buf[..k];
    var p := pos + 1;
    assert t[pos] == STAR;
    var d := DecimalAt(buf, p).value;
    if k < d.1 {
      DecimalIncompleteBelow(buf, p, k);
    } else {
      DecimalStable(buf, t, p, d.1);
      ElemsIncompleteBelow(buf, d.1, d.0, k, limit);
    }
  }

  lemma {:induction false} ElemsIncompleteBelow(buf: seq<Byte>, pos: nat, count: nat, k: nat, limit: nat)
    requires pos <= k && pos <= |buf| && CheckElemsAt(buf, pos, count, limit).Ok?
    requires k < CheckElemsAt(buf, pos, count, limit).value
    ensures CheckElemsAt(buf[..k], pos, count, limit) == Err(Incomplete)
    decreases |buf| - pos, 2
  {
    var q := CheckAt(buf, pos, limit).value;
    if k < q {
      CheckIncompleteBelow(buf, pos, k, limit);
    } else {
      CheckStable(buf, buf[..k], pos, q, limit);
      ElemsIncompleteBelow(buf, q, count - 1, k, limit);
    }
  }

  // ---------------------------------------------------------------------------
  // A protocol error is final: more bytes never turn it into something else

  lemma {:induction false} CheckErrorStable(b1: seq<Byte>, b2: seq<Byte>, pos: nat, limit: nat)
    requires pos <= |b1| && AgreeBelow(b1, b2, |b1|)
    requires CheckAt(b1, pos, limit).Err? && CheckAt(b1, pos, limit).error != Incomplete
    ensures pos <= |b2| && CheckAt(b2, pos, limit) == CheckAt(b1, pos, limit)
    decreases |b1| - pos, 0
  {
    var tag := b1[pos];
    var p := pos + 1;
    assert b2[pos] == tag;
    if tag == COLON {
      LineStable(b1, b2, p, |b1|);
    } else if tag == DOLLAR {
      assert b2[p] == b1[p];
      if b1[p] != MINUS {
        LineStable(b1, b2, p, |b1|);
      }
    } else if tag == STAR {
      LineStable(b1, b2, p, |b1|);
      var d := DecimalAt(b1, p);
      if d.Ok? && d.value.0 <= limit {
        CheckElemsErrorStable(b1, b2, d.value.1, d.value.0, limit);
      }
    }
  }

  lemma {:induction false} CheckElemsErrorStable(b1: seq<Byte>, b2: seq<Byte>, pos: nat, count: nat, limit: nat)
    requires pos <= |b1| && AgreeBelow(b1, b2, |b1|)
    requires CheckElemsAt(b1, pos, count, limit).Err? && CheckElemsAt(b1, pos, count, limit).error != Incomplete
    ensures pos <= |b2| && CheckElemsAt(b2, pos, count, limit) == CheckElemsAt(b1, pos, count, limit)
    decreases |b1| - pos, 1
  {
    var c := CheckAt(b1, pos, limit);
    if c.Err? {
      CheckErrorStable(b1, b2, pos, limit);
    } else {
      CheckStable(b1, b2, pos, |b1|, limit);
      CheckElemsErrorStable(b1, b2, c.value, count - 1, limit);
    }
  }

  /**
   * Once `check` has decided, by a frame or by a protocol error, appending bytes never changes the
   * decision; only Incomplete can change as bytes arrive, which is what makes retrying it sound.
   */
  lemma CheckDecided(buf: seq<Byte>, tail: seq<Byte>, pos: nat, limit: nat)
    requires pos <= |buf|
    ensures CheckAt(buf, pos, limit) != Err(Incomplete) ==> CheckAt(buf + tail, pos, limit) == CheckAt(buf, pos, limit)
  {
    if CheckAt(buf, pos, limit).Ok? {
      CheckExtends(buf, tail, pos, limit);
    } else if CheckAt(buf, pos, limit).error != Incomplete {
      CheckErrorStable(buf, buf + tail, pos, limit);
    }
  }

  // ---------------------------------------------------------------------------
  // The individual arms

  /** `$` then `-` is Null after exactly five bytes, whatever the four skipped bytes are. */
  lemma NullArm(buf: seq<Byte>, pos: nat, limit: nat)
    requires pos + 1 < |buf| && buf[pos] == DOLLAR && buf[pos + 1] == MINUS
    ensures CheckAt(buf, pos, limit) == if |buf| - pos < 5 then Err(Incomplete) else Ok(pos + 5)
    ensures ParseAt(buf, pos) == if |buf| - pos < 5 then Err(Incomplete) else Ok((Null, pos + 5))
  {
  }

  /**
   * A non-null Bulk takes its length line, then exactly `len + 2` further bytes: the payload is the
   * first `len` of them and the last two are skipped unexamined. Fewer bytes are Incomplete.
   */
  lemma BulkArm(buf: seq<Byte>, pos: nat, limit: nat)
    requires pos + 1 < |buf| && buf[pos] == DOLLAR && buf[pos + 1] != MINUS
    requires DecimalAt(buf, pos + 1).Ok?
    ensures var (len, p) := DecimalAt(buf, pos + 1).value;
      && CheckAt(buf, pos, limit) == (if |buf| - p < len + 2 then Err(Incomplete) else Ok(p + len + 2))
      && ParseAt(buf, pos) == (if |buf| - p < len + 2 then Err(Incomplete) else Ok((Bulk(buf[p..p + len]), p + len + 2)))
  {
  }

  /** A Bulk whose length line reads `len` and whose payload and `\r\n` are all there. */
  lemma BulkWhole(buf: seq<Byte>, pos: nat, len: nat, p: nat, data: seq<Byte>, end: nat)
    requires pos + 1 < |buf| && buf[pos] == DOLLAR && buf[pos + 1] != MINUS
    requires DecimalAt(buf, pos + 1) == Ok((len, p)) && end == p + len + 2 <= |buf|
    requires buf[p..p + len] == data
    ensures ParseAt(buf, pos) == Ok((Bulk(data), end))
  {
    BulkArm(buf, pos, 0);
  }

  /** A leading byte other than `+ - : $ *` is never accepted: both passes reach `unimplemented!()`. */
  lemma UnknownSigil(buf: seq<Byte>, pos: nat, limit: nat)
    requires pos < |buf| && buf[pos] !in {PLUS, MINUS, COLON, DOLLAR, STAR}
    ensures CheckAt(buf, pos, limit) == Err(Unimplemented) && ParseAt(buf, pos) == Err(Unimplemented)
  {
  }

  /**
   * Checking `m + n` elements is checking `m` then `n` more from where they ended; the first
   * failure is returned and nothing after it is examined.
   */
  lemma {:induction false} CheckElemsConcat(buf: seq<Byte>, pos: nat, m: nat, n: nat, limit: nat)
    requires pos <= |buf|
    ensures CheckElemsAt(buf, pos, m + n, limit) ==
      match CheckElemsAt(buf, pos, m, limit)
      case Err(e) => Err(e)
      case Ok(q) => CheckElemsAt(buf, q, n, limit)
    decreases m
  {
    if m > 0 {
      var h := CheckAt(buf, pos, limit);
      if h.Ok? {
        CheckElemsConcat(buf, h.value, m - 1, n, limit);
      }
    }
  }

  /** After the outcome `r` of parsing some elements, parse `n` more from where they ended. */
  function ThenParse(buf: seq<Byte>, r: Outcome<(seq<Frame>, nat)>, n: nat): Outcome<(seq<Frame>, nat)>
    requires r.Ok? ==> r.value.1 <= |buf|
  {
    if r.Err? then Err(r.error) else Prefixed(r.value.0, ParseElemsAt(buf, r.value.1, n))
  }

  /**
   * Parsing `m + n` elements is parsing `m`, then `n` more from where they ended, the two lists
   * concatenated in order; the first failure is returned and nothing after it is examined.
   */
  lemma ParseElemsConcat(buf: seq<Byte>, pos: nat, m: nat, n: nat)
    requires pos <= |buf|
    ensures ParseElemsAt(buf, pos, m + n) == ThenParse(buf, ParseElemsAt(buf, pos, m), n)
  {
    var first := ParseElemsAt(buf, pos, m);
    ParseElemsBy(buf, pos, m + n);
    ParseElemsBy(buf, pos, m);
    if first.Ok? {
      ParseElemsBy(buf, first.value.1, n);
      ConcatVia(ParseNext(buf), pos, m, n, ParseElemsAt(buf, pos, m + n), first,
                ParseElemsAt(buf, first.value.1, n));
    } else {
      ConcatVia(ParseNext(buf), pos, m, n, ParseElemsAt(buf, pos, m + n), first, first);
    }
  }

  /** `ElemsByConcat` with each side named by a value. */
  lemma ConcatVia(next: nat -> Outcome<(Frame, nat)>, pos: nat, m: nat, n: nat,
                  whole: Outcome<(seq<Frame>, nat)>, first: Outcome<(seq<Frame>, nat)>,
                  rest: Outcome<(seq<Frame>, nat)>)
    requires whole == ElemsBy(next, pos, m + n) && first == ElemsBy(next, pos, m)
    requires first.Ok? ==> rest == ElemsBy(next, first.value.1, n)
    ensures whole == if first.Err? then Err(first.error) else Prefixed(first.value.0, rest)
  {
    ElemsByConcat(next, pos, m, n);
  }

  /** `n` elements read one after another by `next`, each starting where the previous one ended. */
  ghost function ElemsBy(next: nat -> Outcome<(Frame, nat)>, pos: nat, n: nat): Outcome<(seq<Frame>, nat)>
    decreases n
  {
    if n == 0 then Ok(([], pos))
    else
      var h := next(pos);
      if h.Err? then Err(h.error) else Prefixed([h.value.0], ElemsBy(next, h.value.1, n - 1))
  }

  /** After the outcome `r` of reading some elements with `next`, read `n` more from where they ended. */
  ghost function ThenBy(next: nat -> Outcome<(Frame, nat)>, r: Outcome<(seq<Frame>, nat)>, n: nat): Outcome<(seq<Frame>, nat)>
  {
    if r.Err? then Err(r.error) else Prefixed(r.value.0, ElemsBy(next, r.value.1, n))
  }

  /** The concatenation law for any element reader. */
  lemma {:induction false} ElemsByConcat(next: nat -> Outcome<(Frame, nat)>, pos: nat, m: nat, n: nat)
    ensures ElemsBy(next, pos, m + n) == ThenBy(next, ElemsBy(next, pos, m), n)
    decreases m
  {
    if m == 0 {
      PrefixedNothing(ElemsBy(next, pos, n));
    } else {
      var h := next(pos);
      if h.Ok? {
        ElemsByConcat(next, h.value.1, m - 1, n);
        var r := ElemsBy(next, h.value.1, m - 1);
        if r.Ok? {
          PrefixedConcat([h.value.0], r.value.0, ElemsBy(next, r.value.1, n));
        }
      }
    }
  }

  /** `parse` as an element reader; a position past the end is never reached. */
  ghost function ParseNext(buf: seq<Byte>): nat -> Outcome<(Frame, nat)>
  {
    (p: nat) => if p <= |buf| then ParseAt(buf, p) else Err(Incomplete)
  }

  /** The Array loop of `parse` is the element reader `ParseNext` applied `n` times. */
  lemma {:induction false} ParseElemsBy(buf: seq<Byte>, pos: nat, n: nat)
    requires pos <= |buf|
    ensures ParseElemsAt(buf, pos, n) == ElemsBy(ParseNext(buf), pos, n)
    decreases n
  {
    if n > 0 {
      var h := ParseAt(buf, pos);
      if h.Ok? {
        ParseElemsBy(buf, h.value.1, n - 1);
      }
      ElemsByHead(buf, pos, n);
    }
  }

  /** `ParseElemsBy` for `n` elements, given it for the `n - 1` after a successful head. */
  lemma ElemsByHead(buf: seq<Byte>, pos: nat, n: nat)
    requires pos <= |buf| && n > 0
    requires var h := ParseAt(buf, pos);
      h.Ok? ==> ParseElemsAt(buf, h.value.1, n - 1) == ElemsBy(ParseNext(buf), h.value.1, n - 1)
    ensures ParseElemsAt(buf, pos, n) == ElemsBy(ParseNext(buf), pos, n)
  {
    ElemsHead(buf, pos, n);
    ParseNextAt(buf, pos);
    var h := ParseAt(buf, pos);
    var tail := if h.Ok? then ParseElemsAt(buf, h.value.1, n - 1) else Err(h.error);
    ElemsByStep(ParseNext(buf), pos, n, ParseElemsAt(buf, pos, n), h, tail);
  }

  /** `ParseNext` reads with `parse` at every position of the buffer. */
  lemma ParseNextAt(buf: seq<Byte>, p: nat)
    requires p <= |buf|
    ensures ParseNext(buf)(p) == ParseAt(buf, p)
  {
  }

  /** One step of `ElemsBy`, with the head's outcome `h` and the tail's outcome named by values. */
  lemma ElemsByStep(next: nat -> Outcome<(Frame, nat)>, pos: nat, n: nat, whole: Outcome<(seq<Frame>, nat)>,
                    h: Outcome<(Frame, nat)>, tail: Outcome<(seq<Frame>, nat)>)
    requires n > 0 && next(pos) == h
    requires h.Ok? ==> tail == ElemsBy(next, h.value.1, n - 1)
    requires whole == if h.Err? then Err(h.error) else Prefixed([h.value.0], tail)
    ensures whole == ElemsBy(next, pos, n)
  {
  }

  /** `ParseElemsUnfold` with the head's outcome taken apart by its fields. */
  lemma ElemsHead(buf: seq<Byte>, pos: nat, n: nat)
    requires pos <= |buf| && n > 0
    ensures var h := ParseAt(buf, pos);
      ParseElemsAt(buf, pos, n) ==
        if h.Err? then Err(h.error) else Prefixed([h.value.0], ParseElemsAt(buf, h.value.1, n - 1))
  {
    ParseElemsUnfold(buf, pos, n);
  }

  /** An Array whose declared count is zero is the empty array, right after its count line. */
  lemma EmptyArray(buf: seq<Byte>, pos: nat, limit: nat)
    requires pos < |buf| && buf[pos] == STAR
    requires DecimalAt(buf, pos + 1).Ok? && DecimalAt(buf, pos + 1).value.0 == 0
    ensures CheckAt(buf, pos, limit) == Ok(DecimalAt(buf, pos + 1).value.1)
    ensures ParseAt(buf, pos) == Ok((Array([]), DecimalAt(buf, pos + 1).value.1))
  {
  }

  // ---------------------------------------------------------------------------
  // The test vector of src/main.rs

  /** `*2\r\n$4\r\n....\r\n$2\r\n..\r\n`, the literal `main` parses. */
  const SAMPLE: seq<Byte> :=
    [STAR, 50, CR, LF,
     DOLLAR, 52, CR, LF, 102, 117, 99, 107, CR, LF,
     DOLLAR, 50, CR, LF, 115, 104, CR, LF]

  /** The sample parses to a two-element array of Bulk payloads of lengths 4 and 2, using every byte. */
  lemma SampleParses()
    ensures CheckAt(SAMPLE, 0, I32_MAX) == Ok(|SAMPLE|)
    ensures ParseAt(SAMPLE, 0) == Ok((Array([Bulk(SAMPLE[8..12]), Bulk(SAMPLE[18..20])]), |SAMPLE|))
  {
    SampleArray();
    var items := [Bulk(SAMPLE[8..12]), Bulk(SAMPLE[18..20])];
    assert CountsWithin(Array(items), I32_MAX) by {
      assert forall i :: 0 <= i < |items| ==> items[i].Bulk?;
    }
    ParsedCheck(SAMPLE, 0, I32_MAX);
  }

  lemma SampleArray()
    ensures ParseAt(SAMPLE, 0) == Ok((Array([Bulk(SAMPLE[8..12]), Bulk(SAMPLE[18..20])]), |SAMPLE|))
  {
    assert SAMPLE == [STAR] + (Digits(2) + []) + CRLF + SAMPLE[4..];
    DecimalOf([STAR], 2, [], SAMPLE[4..]);
    SampleItems();
  }

  lemma SampleItems()
    ensures ParseElemsAt(SAMPLE, 4, 2) == Ok(([Bulk(SAMPLE[8..12]), Bulk(SAMPLE[18..20])], 22))
  {
    SampleBulk(4, 4);
    SampleBulk(14, 2);
    TwoElems(SAMPLE, 4, Bulk(SAMPLE[8..12]), 14, Bulk(SAMPLE[18..20]), 22);
  }

  /** Two frames one after the other are the two elements of an Array, in order. */
  lemma TwoElems(buf: seq<Byte>, pos: nat, f1: Frame, q1: nat, f2: Frame, q2: nat)
    requires pos <= |buf| && ParseAt(buf, pos) == Ok((f1, q1))
    requires q1 <= |buf| && ParseAt(buf, q1) == Ok((f2, q2))
    ensures ParseElemsAt(buf, pos, 2) == Ok(([f1, f2], q2))
  {
    ElemsHead(buf, pos, 2);
    ElemsHead(buf, q1, 1);
    assert [f1] + ([f2] + []) == [f1, f2];
  }

  lemma SampleBulk(pos: nat, len: U64)
    requires (pos, len) in {(4, 4), (14, 2)}
    ensures ParseAt(SAMPLE, pos) == Ok((Bulk(SAMPLE[pos + 4..pos + 4 + len]), pos + 6 + len))
  {
    assert Digits(len) == [48 + len];
    assert SAMPLE == SAMPLE[..pos + 1] + (Digits(len) + []) + CRLF + SAMPLE[pos + 4..];
    DecimalOf(SAMPLE[..pos + 1], len, [], SAMPLE[pos + 4..]);
    BulkWhole(SAMPLE, pos, len, pos + 4, SAMPLE[pos + 4..pos + 4 + len], pos + 6 + len);
  }
}
