# pasillo kernel core, modelled in Dafny

This project models the heap-less core of the pasillo AVR kernel (Rust, 16-bit
target). It covers:

- **Tagged fixed-capacity types.** These are `PStackStr`, `PStr`,
  `PStackArrUnchecked` and `PError`, plus the tag check `is_magic`.
- **The global marker table.** This is `MARKERS` together with
  `add_marker_manual`.
- **The two serial line readers.** These are `read_line` in `src/console.rs`
  and in `src/debug/console.rs`.
- **The stack-pointer byte split of `jump_to_stack`.**
- **The hallway monitor.** This is the interactive memory monitor of
  `src/debug/interactive.rs`: how it parses numbers, its cursor, its memory
  commands, and the command loop itself.

Bytes are `bv8`. Strings are their UTF-8 bytes. `usize` is 16 bits wide
(`USIZE_MAX = 0xFFFF`). The memory the monitor reads and writes through raw
pointers is an `array<bv8>` indexed by address. The serial port is the
sequence of bytes it will deliver.

The monitor is modelled twice:

- `MonitorSpec` is a step semantics on values. `Step` gives what one trimmed
  line does to the cursor and memory, how the loop goes on, and what is
  printed. `Run` gives the whole session on a byte stream.
- `Monitor.HallwayMonitor` is a class whose cursor `pos` and memory `ram`
  change in place, as in the source. Each of its methods is proved to agree
  with the step semantics.

`Interactive`, the command loop itself, is proved to produce exactly `Run` of
the stream. `MonitorCommands` states what lines typed in the help text's
syntax do under the step semantics.

Three properties are worth highlighting:

- Dispatch is by first matching prefix, so the `ena` arm can never fire:
  `e` captures every line that starts with `ena`
  (`MonitorSpec.EnableInterruptsUnreachable`).
- The `w` and `cw` loops restore the cursor. They store the clamped values at
  consecutive addresses from it and change nothing else. A line typed as the
  help text shows it, `w0xHH,0xHH,...`, stores exactly those bytes
  (`MonitorCommands.TypedWriteValues`), and `cw0xHH,0xLL` copies `0xHH`,
  `0xLL` times, or once without the count (`MonitorCommands.TypedCopyArgs`).
- An address printed in the status line (`0x{:x}`) parses back to itself when
  it is typed after `g` (`MonitorSpec.GotoPrintedPosition`).

`m` takes a marker index, not an address: `m0x<k>` selects marker `k`
(`MonitorSpec.MarkerAfterRegistration`). `lm` prints the indices in decimal,
but `m` reads hexadecimal. A one-digit index typed as listed selects its
marker (`MonitorCommands.ListedIndexSelects`). A listed index from 10 to 15
is read as `k + 6`, which lies past the 16-entry table, so it reports "Marker
not found" (`MonitorCommands.ListedIndexAboveNineMisses`).

The help text shows the extra `w` tokens as `<0bBYTE>`. Every token is read
in hexadecimal, though, and the byte after a token counts as a separator. So
`w0x41,0b01` stores 0x41, then `0b` as 0x0B, then the `1` that is left
(`MonitorCommands.BinaryLookingToken`).

Some code and documentation disagree. `src/debug/console.rs` counts stored
bytes in `ret.len`, while `src/types/string.rs:14` declares that field as
`initial_len`. The model follows the counting code and stores the count in
`initialLen`. The help text also lists `m<name>`, but the code parses a
marker index after `m`. The model follows the code.

## Model

| member | source | states |
|---|---|---|
| Strings.FromStr | src/types/string.rs:35-50 | never fails; stamps `[0xFF,'s','t','r']` (which passes the tag check); buffer of `LEN` bytes; `initial_len = min(|s|, LEN)`; that many bytes of `s` copied, the rest zero |
| Strings.AsRef | src/types/string.rs:21-25 | `as_ref` is a prefix of the buffer, does not end in zero, and everything after it is zero |
| Strings.TrimTrailingNul | src/types/string.rs:21-25 | `trim_end_matches('\0')` keeps a prefix that does not end in zero and drops only zero bytes |
| Strings.TrimTrailingNulPadding | src/types/string.rs:21-25 | zero padding after a string does not change what `as_ref` renders |
| Strings.FromStrAsRef | src/types/string.rs:21-50 | `as_ref(from_str(s))` is the stored prefix of `s` less its trailing zeros |
| Strings.FromStrRoundTrip | src/types/string.rs:35-50 | a string that fits and does not end in NUL comes back unchanged through `from_str` then `as_ref` |
| Strings.FromStrTruncates | src/types/string.rs:39-43 | an oversized string renders as its first `LEN` bytes, cut at the byte level |
| Strings.PStrFromStr | src/types/string.rs:72-74 | `PStrAsRef` of a borrowed `PStr` is the slice it borrows |
| Strings.PStrFromStack | src/types/string.rs:61-67 | an owned `PStr` renders as the stack string's `as_ref`, and carries the string tag when built by `from_str` |
| Magic.MatchesFrom | src/types/magic.rs:6-11 | the byte-by-byte `all` comparison is true iff every remaining tag byte matches memory |
| Magic.IsMagic | src/types/magic.rs:6-11 | `is_magic(ptr, magic)` is true iff `mem[ptr..ptr+LEN] == magic` |
| Magic.IsMagicReadsOnlyWindow | src/types/magic.rs:3-11 | the result depends only on `[ptr, ptr+LEN)` |
| Magic.StructIsMagic | src/types/magic.rs:23-35 | `Magic::is_magic(s)` is true iff the tag field at the structure's address holds the tag |
| Magic.StructIsMagicIffTagField | src/types/magic.rs:23-35 | `Magic::is_magic(s)` is the tag check at the structure's address, true iff its first field holds `Self::MAGIC` |
| Magic.ZeroWindowNotTagged | src/types/array.rs:28-41 | a zeroed tag field, as `new()` leaves it, never matches a tag with a non-zero byte |
| StackArray.StackArr.Elements | src/types/array.rs:7-13 | the valid elements are exactly the `len` initialised slots, in order |
| StackArray.StackArr.New | src/types/array.rs:35-41 | `new()`: `len == 0`, no slot initialised, tag zero and therefore not `[0xFF,'a','r','y']` |
| StackArray.StackArr.Default | src/types/array.rs:43-50 | `default()` gives the same state as `new()` |
| Errors.NewError | src/types/error.rs:12-18 | `PError::new` stamps `['e','r','r','!']` and keeps the variant and the context unchanged |
| Errors.NewErrorIsMagic | src/types/error.rs:12-22 | the tag check on a freshly built error is true |
| Markers.AddMarkerManual | src/debug/memory.rs:19-25 | full table: nothing changes; otherwise the entry goes to index `len`, `len` grows by one, and no other slot changes; `len <= NUM_MARKERS` is kept |
| Markers.AddMarkerManualRelease | src/debug/memory.rs:26-28 | the release build changes nothing |
| Markers.RegisteredKeepsBound | src/debug/memory.rs:19-25 | one registration keeps the bound and keeps the old entries as a prefix |
| Markers.RegisteredAllKeepsFirst | src/debug/memory.rs:19-25 | registering a run of entries keeps exactly the first ones that fit, in order |
| Markers.RegisteringPastCapacity | src/debug/memory.rs:19-25 | registering `K+m` entries into an empty table of capacity `K` leaves exactly the first `K` |
| Markers.ReleaseRegistrationIsNoOp | src/debug/memory.rs:10-13 | with the release capacity 0 a registration changes nothing |
| TaskStack.AsI8 | src/task/stack.rs:12-13 | `as i8` keeps the value mod 256 and is non-negative iff the low byte is below 128 |
| TaskStack.AsU8 | src/task/stack.rs:15 | the byte pattern written for an `i8` is the `i8` modulo 256: below 256, congruent to it, and equal to it when it is non-negative |
| TaskStack.AddrU32 | src/task/stack.rs:10 | `as u32` gives the address modulo 2^32: below 2^32 and congruent to the address |
| TaskStack.StackPointerBytes | src/task/stack.rs:10-13 | read as unsigned bytes, `SP_L` is `addr mod 256` and `SP_H` is `(addr / 256) mod 256` |
| TaskStack.LowBytesSurviveU32 | src/task/stack.rs:10-13 | truncating to 32 bits keeps the two low bytes |
| TaskStack.StackPointerRecombines | src/task/stack.rs:12-13 | `low + 256 * high == addr mod 65536`: the split loses only bits 16 and up |
| Console.ConsoleCell.constructor | src/debug/console.rs:9 | the console slot starts empty |
| Console.ConsoleCell.SetConsole | src/console.rs:67-71 | `set_console` replaces the slot with `Some(console)`, whatever it held (the same code is at src/debug/console.rs:11-15) |
| Console.LineBytes | src/console.rs:83-92 | the stored bytes are a prefix of the stream: at most `LEN`, none a terminator (`IsTerminator`), and they stop at `LEN`, at the end of the stream or at a CR, LF, 0x04 or NUL |
| Console.LineBytesUnique | src/console.rs:83-92 | any prefix that stops where the loop stops is the stored line |
| Console.ReadCompletesIff | src/console.rs:73-78 | the blocking read returns exactly when the stream holds `LEN` bytes or a terminator |
| Console.TerminatedLine | src/console.rs:83-92 | text typed before a CR is read completely, stored exactly, and the CR is consumed |
| Console.ReadLine | src/console.rs:78-96 | the loop stores the bytes before the first terminator (at most `LEN`), zeros after them; the terminator is consumed but not stored; `initial_len` stays 0 |
| Console.ReadLineAsRef | src/console.rs:79-93 | `as_ref` of the result is exactly the bytes read before the terminator |
| DebugConsole.ReadLine | src/debug/console.rs:22-42 | as `Console.ReadLine`, and the length field counts exactly the stored bytes, so the result is `from_str` of the line and renders as the line |
| DebugConsole.FromStrOfLine | src/debug/console.rs:23-37 | the stack string built from a line is the line with zero padding, and renders as the line |
| MonitorParse.SplitAtCheckedJoins | src/debug/interactive.rs:33-34 | `split_at_checked` (`SplitAtChecked`) succeeds exactly when `mid` is within the string and on a character boundary, and then gives a prefix of length `mid` and a rest that join back to the string |
| MonitorParse.Field | src/debug/interactive.rs:33-34 | the field is empty past the end and otherwise, on ASCII input, `input[offset..min(offset+len, |input|)]` |
| MonitorParse.TrimStart0xStops | src/debug/interactive.rs:35 | what `trim_start_matches("0x")` keeps does not start with `0x` |
| MonitorParse.TrimStart0xDropsRun | src/debug/interactive.rs:35 | it removes a whole run of leading `0x`, and nothing after it |
| MonitorParse.FromStrRadix | src/debug/interactive.rs:36 | `from_str_radix` fails on the empty string and never yields more than `usize::MAX` |
| MonitorParse.FromStrRadixAccepts | src/debug/interactive.rs:36 | `from_str_radix` succeeds exactly on an optional `+` followed by at least one digit of the radix whose value fits a `usize`, and then yields that value |
| MonitorParse.ParseOr | src/debug/interactive.rs:35-36 | the parse is `default` or a `usize`, and `default` on an empty field |
| MonitorParse.TrimStart0x | src/debug/interactive.rs:35 | `trim_start_matches("0x")` never lengthens the string (what it removes: the next two rows) |
| MonitorParse.HelperParse | src/debug/interactive.rs:32-37 | `helper_parse` returns `default` or a `usize`; `default`, on any input, when the offset is at or past the end or the length is 0 |
| MonitorParse.HelperParseFallsBack | src/debug/interactive.rs:32-37 | `helper_parse` gives `default` when `from_str_radix` rejects the field with its leading `0x`s dropped (`FieldParse`), and otherwise the number the field holds |
| MonitorParse.MalformedFieldDefaults | src/debug/interactive.rs:32-37 | a field holding, after its leading `0x`s, a byte that is not a digit of the radix (a leading `+` aside) parses as `default` |
| MonitorParse.SpacedArgumentDefaults | src/debug/interactive.rs:72-74 | `r 10` reads the default 8 rows: the space makes the field malformed |
| MonitorParse.HelperParseIgnoresCommand | src/debug/interactive.rs:32-37 | parsing at offset 1 ignores the command letter |
| MonitorParse.HexDigit | src/debug/interactive.rs:137 | the `{:x}` digit is ASCII and reads back as its value |
| MonitorParse.LowerHex | src/debug/interactive.rs:137 | `{:x}` gives ASCII hex digits whose value is the number, at most 4 of them for a `usize` |
| MonitorParse.TrimZeroXDigits | src/debug/interactive.rs:35 | after one `0x`, `trim_start_matches` leaves a digit string alone |
| MonitorParse.FromStrRadixDigits | src/debug/interactive.rs:36 | a digit string within range parses as its value |
| MonitorParse.ParsePrintedAddress | src/debug/interactive.rs:32-37 | an address printed as `0x{:x}` after a command letter parses back to itself |
| MonitorSpec.DispatchByFirstBytes | src/debug/interactive.rs:63-127 | `Dispatch`, the first-match guard chain, equals a decision on the first bytes, which is the reference definition |
| MonitorSpec.EnableInterruptsUnreachable | src/debug/interactive.rs:65-71 | the `ena` arm never fires, because `e` captures every line starting with `ena` |
| MonitorSpec.TrimStart | src/debug/interactive.rs:62 | drops leading whitespace only, down to a non-whitespace byte |
| MonitorSpec.TrimEnd | src/debug/interactive.rs:62 | drops trailing whitespace only, down to a non-whitespace byte |
| MonitorSpec.InputOf | src/debug/interactive.rs:61-62 | the trimmed `as_ref` of the line is no longer than the buffer and has no surrounding whitespace |
| MonitorSpec.Trim | src/debug/interactive.rs:62 | `trim` is an infix with no surrounding whitespace, and everything dropped is whitespace |
| MonitorSpec.TrimUntouched | src/debug/interactive.rs:62 | text without surrounding whitespace is left alone |
| MonitorSpec.BacktrackUndoesAdvance | src/debug/interactive.rs:166-172 | `Backtracked(Advanced(pos, n), n) == pos`: `backtrack(n)` after `advance(n)` restores the cursor; an unset cursor stays unset |
| MonitorSpec.Clamp | src/debug/interactive.rs:163 | `try_into().unwrap_or(u8::MAX)`: a value up to 255 is stored as itself, above that as 255 |
| MonitorSpec.ToByte | src/debug/interactive.rs:163 | the stored byte's value is the number converted |
| MonitorSpec.ReadTraceBytes | src/debug/interactive.rs:150-156 | the trace `ReadTrace` of a read prints exactly `mem[at..at+count]`, in order |
| MonitorSpec.ReadTraceAddresses | src/debug/interactive.rs:150-156 | after every eighth byte it prints the next address: `at+8`, `at+16`, and so on |
| MonitorSpec.TokenWidth | src/debug/interactive.rs:80-83 | a `w`/`cw` token is 4 bytes wide after `x` in the buffer, otherwise 2 |
| MonitorSpec.WriteToken | src/debug/interactive.rs:84 | a `w` token parses to a `usize` |
| MonitorSpec.WriteTokenDefaults | src/debug/interactive.rs:84 | a malformed `w` token stores 0, a well-formed one its value |
| MonitorSpec.WriteTokens | src/debug/interactive.rs:77-87 | the `w` loop visits at least one token on a non-empty line and never more than the line's length; each token starts past the loop offset |
| MonitorSpec.WriteValues | src/debug/interactive.rs:77-87 | the `w` values are the tokens parsed in order: one per token, none for an empty line (what a typed line stores: `MonitorCommands.TypedWriteValues`) |
| MonitorSpec.CopyByte | src/debug/interactive.rs:92-96 | the `cw` byte is a `usize`, and 0 when the line holds nothing after `cw` |
| MonitorSpec.CopyByteDefaults | src/debug/interactive.rs:92-96 | a malformed `cw` byte token gives 0, a well-formed one its value |
| MonitorSpec.CopyCount | src/debug/interactive.rs:92-97 | the `cw` count is a `usize`, and 1 when the line ends before the count's field |
| MonitorSpec.CopyCountDefaults | src/debug/interactive.rs:92-97 | a malformed `cw` count gives 1, a well-formed one its value |
| MonitorSpec.WriteProgressStep | src/debug/interactive.rs:78-87 | one turn of the `w` loop stores exactly the next value of the line |
| MonitorSpec.WriteProgressDone | src/debug/interactive.rs:78-87 | when the `w` loop ends it has stored every value of the line |
| MonitorSpec.MarkerListing | src/debug/interactive.rs:173-178 | one line per registered marker, with its index and name, in order |
| MonitorSpec.StepFrame | src/debug/interactive.rs:63-127 | for `Step`, one dispatch: only `w`/`cw` change memory; only `a`, `b`, `m`, `g` move the cursor; only `e`/`j` leave the loop; memory keeps its size |
| MonitorSpec.StepWrite | src/debug/interactive.rs:75-89 | `w` stores the clamped values at consecutive addresses from the cursor, changes nothing else, and restores the cursor |
| MonitorSpec.StepCopyWrite | src/debug/interactive.rs:90-102 | `cw` stores the same clamped byte at `count` addresses from the cursor, changes nothing else, and restores the cursor |
| MonitorSpec.StepReadTrace | src/debug/interactive.rs:72-74 | `r<n>` changes nothing and prints the trace of `8n` bytes from the cursor |
| MonitorSpec.StepRead | src/debug/interactive.rs:145-157 | `r<n>` prints the `8n` bytes from the cursor in order, with the address after each group of eight |
| MonitorSpec.ReadDefaultsToEightRows | src/debug/interactive.rs:72-74 | a bare `r` reads 64 bytes |
| MonitorSpec.AdvanceThenBacktrack | src/debug/interactive.rs:109-112 | `a<n>` then `b<n>` restores the cursor and leaves memory alone |
| MonitorSpec.GotoTarget | src/debug/interactive.rs:117-125 | the `g` target is a parsed `usize` or the previous cursor; a bare `g` gives the previous cursor, or 0 |
| MonitorSpec.GotoTargetDefaults | src/debug/interactive.rs:117-125 | a malformed `g` target keeps the previous cursor (0 without one), a well-formed one is the new cursor |
| MonitorSpec.StepGoto | src/debug/interactive.rs:117-125 | `g` always sets the cursor: to the parsed address, or else to the previous one, or 0 |
| MonitorSpec.GotoPrintedPosition | src/debug/interactive.rs:117-125 | `g` followed by a printed position moves the cursor there |
| MonitorSpec.GotoWithoutAddress | src/debug/interactive.rs:117-125 | a bare `g` keeps the address, or sets 0 when none was set |
| MonitorSpec.StepMarker | src/debug/interactive.rs:179-187 | `m<k>` with `k` past the table leaves the cursor; otherwise it points the cursor at entry `k` and names it |
| MonitorSpec.MarkerAfterRegistration | src/debug/interactive.rs:114-116 | `m0x<k>` right after the `k`-th registration points at that marker |
| MonitorSpec.JumpTargetsCursor | src/debug/interactive.rs:103-108 | `j` leaves the loop for the cursor exactly when one is set; otherwise it does nothing |
| Console.LineRead | src/console.rs:78-96 | the stack string `read_line` returns has `LEN` bytes and renders as the bytes read before the terminator |
| Console.ConsumedWithin | src/console.rs:73-92 | a completed read consumes at least one byte and no more than the stream holds |
| MonitorSpec.TypedLine | src/debug/interactive.rs:61-62 | a typed line followed by CR reaches the dispatch as exactly that text |
| MonitorSpec.PaddedInput | src/debug/interactive.rs:62 | the trimmed `as_ref` of a padded line is its text |
| MonitorSpec.RunTurnSafe | src/debug/interactive.rs:58-62 | in a safe session the next complete line is a safe step |
| MonitorSpec.RunTurn | src/debug/interactive.rs:58-128 | one loop pass of the session `Run` (through `RunLine` and `RunInput`): the status, the step's output, then the rest of the session unless `e` or `j` ended it |
| MonitorSpec.RunKeepsMemorySize | src/debug/interactive.rs:58-128 | a session never resizes memory and always first prints the status |
| MonitorSpec.ExitLine | src/debug/interactive.rs:61-65 | `e` then CR is a complete read whose trimmed input is `e` |
| MonitorSpec.ExitEndsSession | src/debug/interactive.rs:65 | typing `e` ends the session at once, with nothing changed |
| MonitorSpec.ExitRun | src/debug/interactive.rs:65 | a session whose next line is `e` ends on it, with nothing changed |
| MonitorSpec.ExitStep | src/debug/interactive.rs:65 | `e` leaves the loop and changes neither cursor nor memory |
| MonitorCommands.Hex2 | src/debug/interactive.rs:21 | two lower-case hexadecimal digits whose value is the byte |
| MonitorCommands.HexTokenParses | src/debug/interactive.rs:32-37 | a field `0xHH` parses as `0xHH` |
| MonitorCommands.WriteLineToken | src/debug/interactive.rs:21 | in `w0xHH,0xHH,...` value `k`'s token `0xHH` sits at `5k+1` |
| MonitorCommands.WriteLineTokens | src/debug/interactive.rs:77-87 | when every value's token starts with `0x`, the `w` loop never indexes past the buffer and visits one four-byte token per value, at `5k+1` |
| MonitorCommands.WriteLineValue | src/debug/interactive.rs:84 | token `k` of such a line parses as value `k` |
| MonitorCommands.TypedWriteValues | src/debug/interactive.rs:75-89 | the help text's `w0xHH,0xHH,...` (up to 19 values, zero padded) dispatches to `w` and stores exactly the typed values, in order |
| MonitorCommands.TypedWriteStores | src/debug/interactive.rs:75-89 | with the cursor at `p`, that line puts the typed bytes at `p`, `p+1`, ..., and changes no other byte and not the cursor |
| MonitorCommands.TypedCopyArgs | src/debug/interactive.rs:90-102 | the help text's `cw0xHH,0xLL` dispatches to `cw` with byte `0xHH` and count `0xLL`; `cw0xHH` has count 1 |
| MonitorCommands.BinaryLookingToken | src/debug/interactive.rs:75-89 | `w0x41,0b01` stores 0x41, 0x0B and 0x01: the help text's `0b` token is read in hexadecimal |
| MonitorCommands.Decimal | src/debug/interactive.rs:177 | the `{}` text of an index is one or two decimal digits whose decimal value is the index |
| MonitorCommands.DecimalAsHex | src/debug/interactive.rs:115 | read in hexadecimal, a listed index below 10 is itself and one from 10 to 15 is `k+6` |
| MonitorCommands.ListedIndexParse | src/debug/interactive.rs:114-116 | `m` followed by the listed index parses as the index below 10 and as `k+6` from 10 to 15 |
| MonitorCommands.ListedIndexSelects | src/debug/interactive.rs:114-116 | `m` and a one-digit listed index point the cursor at that marker |
| MonitorCommands.ListedIndexAboveNineMisses | src/debug/interactive.rs:179-183 | `m` and a listed index from 10 to 15 report "Marker not found" and leave the cursor |
| Monitor.HallwayMonitor.constructor | src/debug/interactive.rs:41-49 | `new()`/`default()`: no position |
| Monitor.HallwayMonitor.ReadMemory | src/debug/interactive.rs:145-157 | without a cursor it prints nothing; otherwise it prints the read trace of `8 * len` bytes; it changes nothing |
| Monitor.HallwayMonitor.WriteMemory | src/debug/interactive.rs:158-164 | without a cursor nothing changes; otherwise exactly the byte at the cursor becomes the clamped value |
| Monitor.HallwayMonitor.Advance | src/debug/interactive.rs:166-168 | `None` stays `None`, `Some(p)` becomes `Some(p + n)` |
| Monitor.HallwayMonitor.Backtrack | src/debug/interactive.rs:170-172 | `None` stays `None`, `Some(p)` becomes `Some(p - n)` |
| Monitor.HallwayMonitor.ListMarkers | src/debug/interactive.rs:173-178 | prints the marker listing of the registered entries |
| Monitor.HallwayMonitor.Marker | src/debug/interactive.rs:179-187 | an index past `MARKERS.len` leaves the cursor and reports; otherwise the cursor becomes the entry's address |
| Monitor.HallwayMonitor.WriteNext | src/debug/interactive.rs:84-85 | `write_memory` then `advance(1)` extends the written run by one byte |
| Monitor.HallwayMonitor.WrittenIsOverwrite | src/debug/interactive.rs:75-102 | a run written from the cursor is an overwrite of memory there, or nothing without a cursor |
| Monitor.HallwayMonitor.WriteTurn | src/debug/interactive.rs:78-87 | one turn of the `w` loop stores the line's next value and moves the offset forward |
| Monitor.HallwayMonitor.WriteCommand | src/debug/interactive.rs:75-89 | the `w` arm overwrites memory from the cursor with the clamped values of the line and restores the cursor |
| Monitor.HallwayMonitor.CopyWrite | src/debug/interactive.rs:97-101 | the `cw` loop writes the clamped byte `count` times from the cursor and restores the cursor |
| Monitor.HallwayMonitor.Execute | src/debug/interactive.rs:63-127 | one dispatch does exactly what `Step` says to the cursor, the memory, the loop and the output, and leaves the marker table alone |
| Monitor.HallwayMonitor.RunNextLine | src/debug/interactive.rs:61-62 | reading the next line and running it is one `Step` on that line |
| Monitor.HallwayMonitor.Turn | src/debug/interactive.rs:58-127 | one loop pass prints the status and the line's output; the session is that followed by the rest, unless `e`, `j` or a read that never completes ended it |
| Monitor.HallwayMonitor.Interactive | src/debug/interactive.rs:54-130 | the loop greets, then its end, final cursor and memory, and printed trace are exactly those of the session semantics on the stream |

## Left out

- Interrupt masking (`disable_save`, `enable`, `interrupt::free`) and the `Mutex<RefCell<..>>` around the console are hardware and concurrency effects. The `cli` and `ena` arms change nothing in the model.
- MonitorSpec.MarkerListing: its trace keeps each index as a number, not the decimal text `{}` prints. That text is `MonitorCommands.Decimal`, which the lemmas about typing a listed index after `m` use.
- Printing is an abstract trace of `Output` items. The text, the `> ` prompt, the `{:02x}` formatting and the debug console's echo of the line read are left out. The exception is the `{:x}` digits of an address, which the round-trip lemmas need.
- The `j` command ends the session with the cursor as its target. The jump through a transmuted function pointer is not executed.
- `read_line` blocks until a line arrives. A stream that never completes a line ends the model's session as `Blocked`.
- `read_line` panics if no console has been set (`unwrap` on the slot). The model's `ReadLine` takes the byte stream directly.
- Raw-pointer validity is the caller's duty in the source. It becomes preconditions: `StepSafe`, `ReadMemory`'s and `WriteMemory`'s requires, and `RunSafe` for a whole session.
- The out-of-bounds panic of `inner[offset + 1]` in the `w` loop is also a precondition (`WriteLoopSafe`).
- Pointer arithmetic is on unbounded integers. Wrap-around of `ptr.add`/`ptr.sub` and the debug-build overflow panic of `len * 8` are not modelled.
- Strings are bytes. `trim` knows only ASCII whitespace, and `from_utf8_unchecked` is the identity.
- `PStr` is a datatype with two constructors. The source instead scans the union's memory for the string tag.
- `decompose_uninit_array` and the `add_marker!` macro are not modelled. `MARKERS` is a class over `Slot` values.
- The release-build dummy `HallwayMonitor`, whose `interactive` does nothing, is not modelled.
- The `asm!` writes to `SP_L`/`SP_H` are not modelled, only the bytes they would write.
- `src/main.rs`, `src/panic.rs`, `src/utils.rs`, `src/shared.rs`, `src/driver/serial.rs`, `src/module/stdio.rs`, `src/task/scheduler.rs` and `src/task/state.rs` are not part of this model. They cover hardware set-up, raw transmutes, constants and declarations.
- The memory the monitor reads and writes is `ram`, which the model keeps apart from `MARKERS`, from the 96-byte line buffer and from the monitor's own stack frame (`pos`, `original_pos`). In the kernel these all sit in the same data memory, so `g` to the marker table followed by `w`, or a `w` over the monitor's own stack, would change them; the model cannot express that aliasing.
- MonitorParse.SplitAtChecked: its success condition and the halves it returns are stated by `SplitAtCheckedJoins`, not on the function itself, to keep the proofs that unfold `Step` small.
- MonitorParse.FromStrRadix: what it accepts and the value it yields are stated by `FromStrRadixAccepts`, not on the function itself, for the same reason.
- MonitorParse.ParseOr: its value on a malformed and on a well-formed field is stated for `helper_parse` as a whole by `HelperParseFallsBack`.
- MonitorParse.HelperParse: its value on a malformed and on a well-formed field is stated by `HelperParseFallsBack`.
- MonitorSpec.WriteToken: its default is stated by `WriteTokenDefaults`.
- MonitorSpec.CopyByte: its default is stated by `CopyByteDefaults`.
- MonitorSpec.CopyCount: its default is stated by `CopyCountDefaults`.
- MonitorSpec.GotoTarget: its default is stated by `GotoTargetDefaults`.
- MonitorParse.TrimStart0x: its own contract states only that it does not lengthen the string. What it removes is stated by `TrimStart0xStops` and `TrimStart0xDropsRun`.
