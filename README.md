# my-redis core, modelled in Dafny

my-redis is a small Redis-like server written in Rust. This project models three parts of it and
proves properties of the models:

- **The frame codec** (`src/redis/frame.rs`). It decodes RESP2 frames from a byte cursor in two
  passes. `check` validates a frame and moves past it. `parse` builds the `Frame` value. Both are
  built from the cursor primitives `get_u8`, `peek_u8`, `get_line`, `get_decimal` and `skip`.
- **The connection** (`src/redis/connect.rs`).
  - `parse_frame` runs check, rewinds, runs parse, then drops the consumed prefix of the receive
    buffer.
  - The `read_frame` retry loop reads until a frame is complete or the input ends.
  - The encoders `write_value` and `write_decimal` turn a frame back into bytes.
- **The sharded store** (`src/bin/server.rs`). It is a fixed number of maps, and a key lives in
  shard `hash(key) % n`.

Files:

| file | module | contents |
|---|---|---|
| `common.dfy` | `Common` | bytes, the `u64` range, `Option`, `\r\n` and the sigils |
| `decimal.dfy` | `Decimal` | `atoi::<u64>` and `{}` formatting of integers, with their round trip |
| `utf8.dfy` | `Utf8` | well-formed UTF-8 as `String::from_utf8` accepts it (Unicode Standard, table 3-7) |
| `frame.dfy` | `FrameCodec` | `Frame`, the error outcomes, spec functions `LineAt`, `DecimalAt`, `SkipAt`, `CheckAt`, `ParseAt` and friends, the `Cursor` class and the imperative `GetU8` … `Parse` proved against them |
| `frame_laws.dfy` | `FrameLaws` | check/parse agreement, stability under appended bytes, truncation gives Incomplete, the Null/Bulk/Array arms, the `src/main.rs` sample |
| `connect.dfy` | `Connect` | `Connection` class (receive buffer, input chunks, output bytes) with `ParseFrame`, `ReadBuf`, `ReadFrame`, `WriteDecimal`, `WriteValue`, proved against `DecodeFront`, `ReadFrameOf`, `DecimalField`, `EncodeValue`; the corrected encoder `EncodeIntended` |
| `connect_laws.dfy` | `ConnectLaws` | one frame per `parse_frame`, frames split over reads, truncated streams, write/read round trips and their failures |
| `server.dfy` | `Server` | `ShardedDict` class, `NewShardedDb`, and the store's laws |

Each imperative operation is a method that changes an object. Some are declared on its class:
`Cursor.SetPosition`, the `Connection` methods, `ShardedDict.Insert` and `ShardedDict.Get`. The
others are module-level methods that take the object as a parameter. These are `GetU8`, `PeekU8`,
`Skip`, `GetLine`, `GetDecimal`, `Check`, `CheckElems`, `Parse` and `ParseElems`, which take a
`Cursor`, and `WriteAllInto`, which takes the scratch array. `NewShardedDb` builds a fresh
`ShardedDict`. Each method's `ensures` ties the result and the new state to a function of the old
state. The properties are
then proved about those functions. The stream is abstract:

- A read takes the next item of a sequence of chunks. `Data([])`, or no chunk left, means end of
  input. `Failure` means an I/O error.
- A write appends to an output byte sequence.

Where the code departs from RESP2, the model follows the code:

- The Null arm skips four bytes without looking at them. `$-` followed by any three bytes is Null.
- The Bulk arm skips its last two bytes without checking that they are `\r\n`.
- `check` never validates UTF-8. Only `parse` can fail on it, with `Other`.
- An unknown sigil reaches `unimplemented!()`. The model gives it the outcome `Unimplemented`.
- `get_decimal` uses `atoi`, which reads the leading digits and ignores what follows. So `5\x14`
  is read as 5.
- `write_value` writes Null as a bare `\r\n`.
- `write_decimal` formats into the two-byte array `[0, 20]` and writes the whole array.
- `check` reads an Array count into an `i32` (src/redis/frame.rs:57), while `parse` reads it into a
  `usize` (src/redis/frame.rs:99). `CheckAt` takes the count limit as a parameter. `check` as
  written is `CheckAt` with `I32_MAX`, and the connection uses it. A count above 2147483647 is a
  protocol error to `check`.

## Model

| member | source | states |
|---|---|---|
| FrameCodec.FindCrlf | src/redis/frame.rs:125-131 | the result is the first index at or after the start where `\r\n` begins; None exactly when there is no such index |
| FrameCodec.LineAt | src/redis/frame.rs:121-134 | on success the consumed bytes are the line followed by `\r\n`, the line holds no `\r\n` and the end is just past it; the only failure is Incomplete, exactly when no `\r\n` follows the start |
| FrameCodec.DecimalAt | src/redis/frame.rs:136-142 | a read decimal ends at least two bytes past its start (its `\r\n`) and within the buffer |
| FrameCodec.SkipAt | src/redis/frame.rs:153-161 | Incomplete exactly when fewer than `n` bytes remain after the start; otherwise the position exactly `n` further, within the buffer |
| FrameCodec.CheckAt | src/redis/frame.rs:32-67 | with any Array count limit, a successful check makes progress and stays within the buffer |
| FrameCodec.CheckElemsAt | src/redis/frame.rs:59-61 | with any count limit, `n` checks in a row never move backwards, and move forward when `n > 0` |
| FrameCodec.ParseAt | src/redis/frame.rs:69-110 | a successful parse makes progress and stays within the buffer |
| FrameCodec.ParseElemsAt | src/redis/frame.rs:100-104 | `n` parses in a row yield exactly `n` frames and never move backwards |
| FrameCodec.Cursor.constructor | src/redis/connect.rs:40 | `Cursor::new` over the bytes is positioned at their start |
| FrameCodec.GetU8 | src/redis/frame.rs:113-119 | Incomplete with the cursor unmoved exactly when no byte remains; otherwise the byte at the cursor, advancing one |
| FrameCodec.PeekU8 | src/redis/frame.rs:145-151 | Incomplete exactly when no byte remains; otherwise the byte at the cursor; the cursor never moves |
| FrameCodec.Skip | src/redis/frame.rs:153-161 | Incomplete with the cursor unmoved exactly when fewer than `n` bytes remain; otherwise advances exactly `n` |
| FrameCodec.Cursor.SetPosition | src/redis/connect.rs:45 | the rewind before `parse` puts the cursor exactly at the given position |
| FrameCodec.GetLine | src/redis/frame.rs:121-134 | the scanning loop returns what `LineAt` describes and leaves the cursor just past the `\r\n`; with no `\r\n` the cursor is unmoved; requires a non-empty buffer, because the source computes `len - 1` |
| FrameCodec.GetDecimal | src/redis/frame.rs:136-142 | the line is read with `atoi`; Other when that fails, Incomplete with the cursor unmoved when no line is complete |
| FrameCodec.Check | src/redis/frame.rs:32-67 | the cursor method ends where `CheckAt` with the `i32` count limit says, or fails as it says; a count above 2147483647 is Other |
| FrameCodec.CheckElems | src/redis/frame.rs:56-63 | the Array loop of check agrees with `CheckElemsAt` at the `i32` limit: the first failing element's error, else the end of the `n`-th element |
| FrameCodec.Parse | src/redis/frame.rs:69-110 | the cursor method returns the frame and end that `ParseAt` gives, or its error |
| FrameCodec.ParseDollar | src/redis/frame.rs:81-97 | entered just past a `$`, the arm returns the Null or Bulk that `ParseAt` gives for the frame starting at that `$`, with the cursor where it ends, or its error |
| FrameCodec.ParseElems | src/redis/frame.rs:98-107 | the push loop returns exactly the frames `ParseElemsAt` gives, in order, or the first error |
| FrameLaws.LineOf | src/redis/frame.rs:121-134 | a line without `\r\n`, followed by `\r\n`, is returned whole, whatever precedes or follows it |
| FrameLaws.FindCrlfIs | src/redis/frame.rs:125-131 | the scan of `get_line` stops at the first `\r\n` at or after the start |
| FrameLaws.LineStable | src/redis/frame.rs:121-134 | a found line depends only on the bytes up to its `\r\n` |
| FrameLaws.LineIncompleteBelow | src/redis/frame.rs:121-134 | cut before its `\r\n`, a line is Incomplete |
| FrameLaws.DecimalReadsLine | src/redis/frame.rs:136-142 | `get_decimal` is `get_line` then `atoi`: a value is what `atoi` reads from the line and ends where the line ends; Incomplete exactly when no line is complete; any other failure is a protocol error |
| FrameLaws.DecimalStable | src/redis/frame.rs:136-142 | a read decimal depends only on the bytes of its line |
| FrameLaws.DecimalIncompleteBelow | src/redis/frame.rs:136-142 | cut before its `\r\n`, a decimal is Incomplete |
| FrameLaws.DecimalOf | src/redis/frame.rs:136-142 | the digits of `v`, then any non-digit filler without `\r\n`, then `\r\n`, read as `v` |
| FrameLaws.CheckParseAgree | src/redis/frame.rs:32-110 | with the Array count read as a `usize` in both passes, check and parse consume the same bytes: a successful parse ends where check ends; a failing parse fails as check does, or with Other (invalid UTF-8) |
| FrameLaws.ElemsAgree | src/redis/frame.rs:59-61 | the same agreement for the `n` elements of an Array |
| FrameLaws.LimitedCheck | src/redis/frame.rs:56-57 | a smaller count limit turns a check only into Other: the outcome is the `usize` check's, or Other |
| FrameLaws.LimitedElems | src/redis/frame.rs:59-61 | the same for `n` elements |
| FrameLaws.ParsedCheck | src/redis/frame.rs:32-110 | on a frame parse accepts, check with a count limit ends where parse ended exactly when no Array in the frame counts more than the limit; otherwise it is Other |
| FrameLaws.ParsedElems | src/redis/frame.rs:59-61 | the same for `n` elements |
| FrameLaws.CheckedFrameParses | src/redis/frame.rs:32-110 | with any count limit, once check succeeds, parse never reports Incomplete or Unimplemented, and ends where check ended if it succeeds |
| FrameLaws.WideCountRefused | src/redis/frame.rs:57 | `*2147483648\r\n` is Other to check as written, while parse reads the count as a `usize` and is Incomplete: the two passes disagree |
| FrameLaws.CheckStable | src/redis/frame.rs:32-67 | a successful check depends only on the bytes it consumed |
| FrameLaws.CheckElemsStable | src/redis/frame.rs:59-61 | the same for `n` elements |
| FrameLaws.ParseStable | src/redis/frame.rs:69-110 | a successful parse depends only on the bytes it consumed |
| FrameLaws.ParseElemsStable | src/redis/frame.rs:102-104 | the same for `n` elements |
| FrameLaws.CheckExtends | src/redis/frame.rs:32-67 | appending bytes does not change a successful check's end |
| FrameLaws.ParseExtends | src/redis/frame.rs:69-110 | appending bytes does not change a successful parse's frame or end |
| FrameLaws.CheckIncompleteBelow | src/redis/frame.rs:32-67 | any proper prefix of a checkable frame is Incomplete, never a protocol error |
| FrameLaws.ElemsIncompleteBelow | src/redis/frame.rs:59-61 | the same for `n` elements |
| FrameLaws.CheckErrorStable | src/redis/frame.rs:32-67 | a protocol error (Other or Unimplemented) stays the same error whatever bytes are appended |
| FrameLaws.CheckElemsErrorStable | src/redis/frame.rs:59-61 | the same for `n` elements |
| FrameLaws.CheckDecided | src/redis/frame.rs:32-67 | a check that is not Incomplete gives the same outcome whatever bytes are appended |
| FrameLaws.NullArm | src/redis/frame.rs:46-49 | `$-` is Null, consuming exactly 5 bytes whatever the four after `$` are, or Incomplete when fewer remain (both passes) |
| FrameLaws.BulkArm | src/redis/frame.rs:50-54 | after the length line a Bulk consumes exactly `len + 2` bytes, the payload being the first `len`, unchecked trailer; Incomplete when fewer remain (both passes) |
| FrameLaws.BulkWhole | src/redis/frame.rs:85-95 | a Bulk whose length line reads `len`, with payload and trailer all present, parses to exactly that payload and ends `len + 2` past the line |
| FrameLaws.UnknownSigil | src/redis/frame.rs:65 | a leading byte other than `+ - : $ *` is never accepted by either pass |
| FrameLaws.CheckElemsConcat | src/redis/frame.rs:59-61 | checking `m + n` elements is checking `m`, then `n` from where those end; the first error stops it |
| FrameLaws.ParseElemsConcat | src/redis/frame.rs:102-104 | parsing `m + n` elements yields the first `m` followed by the next `n`; the first error stops it |
| FrameLaws.ParseElemsBy | src/redis/frame.rs:102-104 | the parse loop over `n` elements is `parse` applied `n` times, each from where the last ended |
| FrameLaws.ElemsByConcat | src/redis/frame.rs:102-104 | for any reader applied `m + n` times: the first `m` results, then `n` more, in order; the first error stops it |
| FrameLaws.EmptyArray | src/redis/frame.rs:98-107 | a count of 0 is an empty Array ending after the count line (both passes) |
| FrameLaws.TwoElems | src/redis/frame.rs:102-104 | two elements, each parsed whole, are the two-element list, ending after the second |
| FrameLaws.SampleParses | src/main.rs:7 | the sample `*2\r\n$4\r\nfuck\r\n$2\r\nsh\r\n` checks and parses whole, to an Array of two Bulks of 4 and 2 bytes |
| Decimal.DigitRun | src/redis/frame.rs:141 | the run of digits at the head of a line: all digits, and followed by a non-digit or the end |
| Decimal.Atoi | src/redis/frame.rs:141 | None for a line that does not begin with a digit; a value is read only from a line beginning with a digit run |
| Decimal.Digits | src/redis/connect.rs:101 | `{}` formatting is a non-empty string of digits |
| Decimal.ValueOfDigits | src/redis/connect.rs:101 | the digits written for `v` denote `v` |
| Decimal.AtoiOfDigits | src/redis/frame.rs:141 | `atoi` reads back the digits of any `u64`, whatever non-digit follows them |
| Decimal.DigitRunOfDigits | src/redis/frame.rs:141 | the digit run at the head of a line ends at the first non-digit |
| Decimal.DigitsLength | src/redis/connect.rs:98-101 | one digit exactly below 10, at most two exactly below 100 |
| Connect.DecodeFront | src/redis/connect.rs:38-58 | `parse_frame` on a buffer: a returned frame always consumes bytes from the front; None exactly when check says Incomplete; Incomplete is never an error; without a frame the buffer is unchanged |
| Connect.AtEnd | src/redis/connect.rs:21-25 | the end of input is a clean end of stream exactly when nothing is buffered, and "canceled by peer" otherwise |
| Connect.ReadFrameOf | src/redis/connect.rs:14-27 | `read_frame` only consumes chunks from the front; a clean end of stream only with nothing buffered; "canceled by peer" leaves an incomplete frame buffered |
| Connect.Connection.ParseFrame | src/redis/connect.rs:38-58 | the buffer method returns what `DecodeFront` gives and leaves the buffer it describes |
| Connect.Connection.ReadBuf | src/redis/connect.rs:20 | one read appends the next chunk to the buffer and reports its length; 0 and no change at the end of input |
| Connect.ReadFrameDecided | src/redis/connect.rs:16-18 | a buffer that already holds a frame or a protocol error ends `read_frame` without reading: the frame, with the bytes after it left buffered, or the error |
| Connect.ReadFrameRetry | src/redis/connect.rs:20-26 | with no whole frame buffered: no input or an empty read ends the loop (cleanly only with an empty buffer); a failed read is an I/O error; a non-empty read is appended and the loop goes on |
| Connect.Connection.ReadRound | src/redis/connect.rs:16-26 | one pass of the loop body either finishes with what `ReadFrameOf` gives, or consumes a chunk and leaves a state with the same `ReadFrameOf` outcome |
| Connect.Connection.ReadFrame | src/redis/connect.rs:14-27 | the retry loop ends with the result, buffer and unread input `ReadFrameOf` gives |
| Connect.Connection.constructor | src/redis/connect.rs:32-37 | a new connection has an empty receive buffer, every read of the stream still to come and nothing written |
| Connect.Connection.WriteFrame | src/redis/connect.rs:29-31 | always succeeds and writes nothing |
| Connect.WriteAllInto | src/redis/connect.rs:99-101 | formatting into the fixed scratch copies the digits over its head, and fails exactly when they do not fit |
| Connect.DecimalField | src/redis/connect.rs:95-105 | whenever a value is written at all, exactly four bytes go out, whatever its number of digits |
| Connect.Connection.WriteDecimal | src/redis/connect.rs:95-105 | succeeds exactly when the digits fit the 2-byte scratch, then appends the whole scratch and `\r\n` (`DecimalField`); appends nothing otherwise |
| Connect.Connection.WriteValue | src/redis/connect.rs:60-93 | appends exactly the bytes of `EncodeValue` and reports its success |
| Connect.EncodeValue | src/redis/connect.rs:60-93 | something is always written; the first byte is `\r` exactly for Null; a failed write is a Bulk or an Integer and leaves only its one sigil byte |
| Connect.EncodeIntended | src/redis/connect.rs:60-93 | the corrected encoding of every non-Array frame starts with one of the sigils `+ - $ :` and ends in `\r\n` |
| ConnectLaws.DecodeFrontFrame | src/redis/connect.rs:40-48 | with a whole frame at the front whose Arrays count at most 2147483647 items, `parse_frame` returns it and leaves exactly the bytes after it |
| ConnectLaws.DecodeFrontWide | src/redis/connect.rs:40-48 | a whole frame at the front with an Array of more than 2147483647 items is a protocol error, and the buffer is kept |
| ConnectLaws.DecodeFrontSplits | src/redis/connect.rs:40-48 | the prefix `parse_frame` removes is, on its own, the frame it returned; nothing else is removed |
| ConnectLaws.SplitDelivery | src/redis/connect.rs:14-27 | a frame whose Arrays count at most 2147483647 items, delivered over any number of non-empty reads is returned, and buffered plus unread bytes are exactly those after it |
| ConnectLaws.BufferedDelivery | src/redis/connect.rs:14-17 | a frame already whole in the buffer, with Arrays of at most 2147483647 items, is returned without a read, and buffered plus unread bytes are exactly those after it |
| ConnectLaws.PrefixIncomplete | src/redis/frame.rs:32-67 | the buffered bytes before the end of a checkable frame are, on their own, Incomplete for `check`, so more bytes must follow |
| ConnectLaws.TruncatedStream | src/redis/connect.rs:20-25 | input that ends mid-frame is read to the end, then ends cleanly if nothing arrived and as "canceled by peer" otherwise |
| ConnectLaws.DecimalFieldShape | src/redis/connect.rs:95-105 | one digit is followed by the leftover byte 20, two digits fill the scratch, three or more make the write fail |
| ConnectLaws.WriteSucceedsIff | src/redis/connect.rs:60-93 | `write_value` fails exactly for an Integer of 100 or more or a Bulk of 100 bytes or more |
| ConnectLaws.DecimalFieldReads | src/redis/connect.rs:95-105 | a decimal field that was written is read back by `get_decimal` |
| ConnectLaws.WrittenBulkShape | src/redis/connect.rs:72-79 | a Bulk below 100 bytes is written whole and successfully as `$`, a length field starting with a digit, the payload, `\r\n` |
| ConnectLaws.WrittenBulkReads | src/redis/connect.rs:72-79 | a Bulk of fewer than 100 bytes, as written, is parsed back |
| ConnectLaws.BulkBytesRead | src/redis/frame.rs:85-95 | `$`, a length field of `|data|` starting with a digit, the payload and `\r\n` parse to that Bulk, ending at the last byte |
| ConnectLaws.TextBytesRead | src/redis/frame.rs:71-77 | `+` or `-`, a valid UTF-8 text without `\r\n` and `\r\n` parse to that Simple or Error, ending at the last byte |
| ConnectLaws.IntegerBytesRead | src/redis/frame.rs:78-80 | `:` followed by the written field of an integer below 100 parses to that Integer, ending at the last byte |
| ConnectLaws.WrittenParses | src/redis/connect.rs:60-83 | each writable frame is written successfully, and parse reads it back whole |
| ConnectLaws.WrittenRoundTrip | src/redis/connect.rs:60-83 | Simple and Error text that is valid UTF-8 without `\r\n`, an Integer below 100 and a Bulk below 100 bytes are written successfully and read back whole by both passes |
| ConnectLaws.ReadBackWritten | src/redis/connect.rs:60-83 | for a writable frame (Simple or Error text that is valid UTF-8 without `\r\n`, an Integer below 100, a Bulk below 100 bytes), what `write_value` writes, `parse_frame` returns, leaving whatever followed |
| ConnectLaws.NullWrittenUnreadable | src/redis/connect.rs:84-86 | Null is written as a bare `\r\n`, which both passes reject |
| ConnectLaws.WideIntegerNotWritten | src/redis/connect.rs:98-101 | the Integer 100 is not written: only `:` reaches the stream and the write fails |
| ConnectLaws.IntendedBulkReads | src/redis/connect.rs:72-79 | the corrected Bulk encoding is parsed back, for every length |
| ConnectLaws.DigitsFieldReads | src/redis/frame.rs:136-142 | a field of digits alone followed by `\r\n` is read by `get_decimal` as the value the digits denote |
| ConnectLaws.IntendedRoundTrip | src/redis/connect.rs:60-93 | with the corrected encoder, every non-Array frame whose Simple or Error text is valid UTF-8 without `\r\n` is read back whole by both passes; Null, any integer and any Bulk shorter than 2^64 bytes included |
| Server.ShardOf | src/bin/server.rs:30 | the selected shard exists whenever there is one |
| Server.InsertInto | src/bin/server.rs:29-32 | insert keeps the shard count and keeps every key in the shard its hash selects |
| Server.InsertAll | src/bin/server.rs:29-32 | a series of inserts keeps the shard count |
| Server.LookupIn | src/bin/server.rs:34-41 | a value found is stored for the key in some shard; None means the key's own shard does not hold it |
| Server.ShardedDict.constructor | src/bin/server.rs:18 | the store holds exactly the given shards, and keeps every key in the shard its hash selects when they already do |
| Server.ShardedDict.Insert | src/bin/server.rs:29-32 | the method leaves the store `InsertInto` gives and keeps keys placed; requires a shard, because `% 0` panics |
| Server.ShardedDict.Get | src/bin/server.rs:34-41 | returns what `LookupIn` gives and changes nothing |
| Server.NewShardedDb | src/bin/server.rs:13-21 | exactly `n` shards, all empty, every key placed |
| Server.EmptyStore | src/bin/server.rs:13-21 | a fresh store returns None for every key |
| Server.LookupAfterInsert | src/bin/server.rs:29-41 | after `insert(k, v)`, `get(k)` is `v` and every other key gives what it gave before |
| Server.InsertFrame | src/bin/server.rs:29-32 | insert changes one shard, and in it only the entry for the key |
| Server.LookupFindsStored | src/bin/server.rs:34-41 | with keys placed, `get` finds a value exactly when the store holds it in some shard |
| Server.LookupAfterInserts | src/bin/server.rs:29-41 | after a series of inserts, the last insert of a key wins; other keys keep what they had |
| Server.FreshStoreHistory | src/bin/server.rs:13-41 | on a fresh store, `get` returns the last value inserted for the key, or None |

## Left out

- Async I/O (`TcpStream`, `read_buf`, `write_u8`, `write_all`, `.await`). It is replaced by a sequence of input chunks and an output byte sequence. Failures of the write side are not modelled. A write is never partial.
- `BytesMut::with_capacity(4096)`: the receive buffer's capacity has no effect on behaviour.
- `FrameCodec.ParseAt`: `Vec::with_capacity(len)` (src/redis/frame.rs:100) panics with a capacity overflow when the count times the size of a `Frame` exceeds `isize::MAX`, and aborts when the allocation fails. Nesting deep enough overflows the stack in both passes. The model has unbounded memory and stack: such a count is read like any other, and the parse waits for its elements (Incomplete) or reads them. In `parse_frame` the capacity overflow cannot happen, because `check` first refuses any count above 2147483647. The allocation failure still can, for a very large buffered frame.
- `FrameCodec.DecimalAt`: the `atoi` crate also accepts a leading sign. This model reads digits only, so a signed line is rejected here.
- `FrameCodec.CheckAt`: the Bulk length's `try_into` from `u64` to `usize` is total on 64-bit targets, so the model has none. The Array count's `try_into` into `i32` is modelled by the count limit. The overflow of `len + 2` for a Bulk length near 2^64 is not modelled, and the sum is taken exactly.
- `FrameCodec.Check`: after a failure the cursor is only known to lie between its start and the end of the buffer. Every caller discards it.
- `Utf8.ValidUtf8` is an explicit definition of well-formed UTF-8. `String::from_utf8` itself is not modelled.
- `Frame::array()` (src/redis/frame.rs:28-30): it constructs an empty Array and is never used.
- The `Display` and `From` impls of the error type (src/redis/frame.rs:163-197): they only format messages.
- Array frames in `write_value`: the source reaches `unreachable!()`, so `EncodeValue` requires a non-Array frame.
- `Connect.ReadFrameOf`: a read error ends the loop with `Io`. The error's kind is not kept.
- `Mutex`, `Arc`, `tokio::spawn` and the accept loop of `src/bin/server.rs`. Each shard is a plain map, and no concurrent interleaving is modelled.
- `calculate_hash` (`DefaultHasher`) is an arbitrary deterministic function from key to `u64`, given to the store when it is built.
- `process` (src/bin/server.rs:68-96): it depends on `mini_redis` commands and connection, which are not part of this model.
- The `src/bin/client.rs`, `src/bin/echo_server.rs`, `src/tcp/` and `src/lib.rs` glue, and the `src/data_struct/dict.rs` trait, are not part of this model.

## Findings

| source | as written | input that shows it | evidently intended | confidence | as-written member | corrected member |
|---|---|---|---|---|---|---|
| src/redis/connect.rs:98 | `[0u8, 20]` is a two-byte array holding 0 and 20, so `write_decimal` fails for any value of three or more digits, after `$` or `:` has already been written | `Frame::Integer(100)`, or a Bulk of 100 bytes | a 20-byte scratch (`[0u8; 20]`), of which only the formatted digits are written | high (not executed) | ConnectLaws.WideIntegerNotWritten | ConnectLaws.IntendedRoundTrip |
| src/redis/connect.rs:102 | the whole scratch is written, so a one-digit value is followed by the byte 20 (`:5\x14\r\n`) | `Frame::Integer(5)` | only the digits written (`:5\r\n`) | high (not executed) | ConnectLaws.DecimalFieldShape | ConnectLaws.IntendedRoundTrip |
| src/redis/frame.rs:57 | the Array count's type is inferred as `i32`, so `check` refuses any count above 2147483647 as a protocol error, while `parse` reads it as a `usize` | `*2147483648\r\n` | the count read as a `usize`, as at lines 51 and 99, so both passes agree | high (not executed) | FrameLaws.WideCountRefused | FrameLaws.CheckParseAgree |
| src/redis/connect.rs:84-86 | Null is written as a bare `\r\n`, which the reader rejects as an unknown sigil | `Frame::Null` | the RESP2 null bulk string `$-1\r\n` | high (not executed) | ConnectLaws.NullWrittenUnreadable | ConnectLaws.IntendedRoundTrip |
