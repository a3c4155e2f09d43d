/** What one line typed into the hallway monitor (src/debug/interactive.rs)
    does, as a function of the monitor's state: which command the line
    selects, how it changes the cursor and memory, and what it prints. The
    class in monitor.dfy runs these steps in place and is proved to agree. */
module MonitorSpec {
  import opened Wrappers
  import opened MonitorParse
  import Strings
  import Console
  import Markers

  /** `read_line::<96>()`: the monitor's line buffer. */
  const LINE_LEN: nat := 96

  datatype Command =
    | HelpCmd | ExitCmd | ClearInterruptsCmd | EnableInterruptsCmd
    | ReadCmd | WriteCmd | CopyWriteCmd | JumpCmd | AdvanceCmd
    | BacktrackCmd | ListMarkersCmd | MarkerCmd | GotoCmd

  /** The command a trimmed line selects, `None` for invalid input: the
      guards of the `match` in `interactive`, tried in order, the first that
      accepts the line winning. */
  function Dispatch(input: seq<bv8>): Option<Command>
  {
    if StartsWith(input, [0x68]) then Some(HelpCmd)                            // h
    else if StartsWith(input, [0x65]) then Some(ExitCmd)                       // e
    else if StartsWith(input, [0x63, 0x6C, 0x69]) then Some(ClearInterruptsCmd)   // cli
    else if StartsWith(input, [0x65, 0x6E, 0x61]) then Some(EnableInterruptsCmd)  // ena
    else if StartsWith(input, [0x72]) then Some(ReadCmd)                       // r
    else if StartsWith(input, [0x77]) then Some(WriteCmd)                      // w
    else if StartsWith(input, [0x63, 0x77]) then Some(CopyWriteCmd)            // cw
    else if StartsWith(input, [0x6A]) then Some(JumpCmd)                       // j
    else if StartsWith(input, [0x61]) then Some(AdvanceCmd)                    // a
    else if StartsWith(input, [0x62]) then Some(BacktrackCmd)                  // b
    else if StartsWith(input, [0x6C, 0x6D]) then Some(ListMarkersCmd)          // lm
    else if StartsWith(input, [0x6D]) then Some(MarkerCmd)                     // m
    else if StartsWith(input, [0x67]) then Some(GotoCmd)                       // g
    else None
  }

  /** The same decision read off the first bytes, as a reference. */
  function DecodeCommand(input: seq<bv8>): Option<Command>
  {
    if input == [] then None
    else
      var c := input[0];
      if c == 0x68 then Some(HelpCmd)
      else if c == 0x65 then Some(ExitCmd)
      else if c == 0x72 then Some(ReadCmd)
      else if c == 0x77 then Some(WriteCmd)
      else if c == 0x6A then Some(JumpCmd)
      else if c == 0x61 then Some(AdvanceCmd)
      else if c == 0x62 then Some(BacktrackCmd)
      else if c == 0x6D then Some(MarkerCmd)
      else if c == 0x67 then Some(GotoCmd)
      else if c == 0x63 && |input| >= 3 && input[1] == 0x6C && input[2] == 0x69 then Some(ClearInterruptsCmd)
      else if c == 0x63 && |input| >= 2 && input[1] == 0x77 then Some(CopyWriteCmd)
      else if c == 0x6C && |input| >= 2 && input[1] == 0x6D then Some(ListMarkersCmd)
      else None
  }

  /** First-match dispatch is decided by the first byte, except for `c` and
      `l`, which look at the next ones. */
  lemma DispatchByFirstBytes(input: seq<bv8>)
    ensures Dispatch(input) == DecodeCommand(input)
  {
  }

  /** The `ena` guard never fires: any line starting with `ena` starts with
      `e` and exits instead, so the monitor has no way to enable
      interrupts. */
  lemma EnableInterruptsUnreachable(input: seq<bv8>)
    ensures Dispatch(input) != Some(EnableInterruptsCmd)
    ensures StartsWith(input, [0x65, 0x6E, 0x61]) ==> Dispatch(input) == Some(ExitCmd)
  {
    DispatchByFirstBytes(input);
  }

  /** `char::is_whitespace` restricted to ASCII. */
  predicate IsWhitespace(b: bv8)
  {
    b == 0x20 || 0x09 <= b <= 0x0D
  }

  function TrimStart(s: seq<bv8>): (r: seq<bv8>)
    ensures |r| <= |s| && r == s[|s| - |r|..]
    ensures r == [] || !IsWhitespace(r[0])
    ensures forall i :: 0 <= i < |s| - |r| ==> IsWhitespace(s[i])
  {
    if s != [] && IsWhitespace(s[0]) then TrimStart(s[1..]) else s
  }

  function TrimEnd(s: seq<bv8>): (r: seq<bv8>)
    ensures |r| <= |s| && r == s[..|r|]
    ensures r == [] || !IsWhitespace(r[|r| - 1])
    ensures forall i :: |r| <= i < |s| ==> IsWhitespace(s[i])
  {
    if s != [] && IsWhitespace(s[|s| - 1]) then TrimEnd(s[..|s| - 1]) else s
  }

  /** How many whitespace bytes `trim` drops at the front. */
  function Leading(s: seq<bv8>): nat
  {
    |s| - |TrimStart(s)|
  }

  /** `str::trim`: the infix left after dropping the whitespace at both ends;
      it neither starts nor ends with whitespace, and everything dropped is
      whitespace. */
  function Trim(s: seq<bv8>): (r: seq<bv8>)
    ensures Leading(s) + |r| <= |s| && r == s[Leading(s)..Leading(s) + |r|]
    ensures r == [] || (!IsWhitespace(r[0]) && !IsWhitespace(r[|r| - 1]))
    ensures forall i :: 0 <= i < Leading(s) ==> IsWhitespace(s[i])
    ensures forall i :: Leading(s) + |r| <= i < |s| ==> IsWhitespace(s[i])
  {
    var k := Leading(s);
    var r := TrimEnd(s[k..]);
    WhitespaceTail(s, k, r);
    r
  }

  /** Whitespace after `r` in the suffix of `s` from `k` is whitespace in
      `s`. */
  lemma WhitespaceTail(s: seq<bv8>, k: nat, r: seq<bv8>)
    requires k <= |s| && |r| <= |s| - k && r == s[k..][..|r|]
    requires forall j :: |r| <= j < |s[k..]| ==> IsWhitespace(s[k..][j])
    ensures r == s[k..k + |r|]
    ensures forall i :: k + |r| <= i < |s| ==> IsWhitespace(s[i])
  {
    forall i | k + |r| <= i < |s|
      ensures IsWhitespace(s[i])
    {
      assert s[i] == s[k..][i - k];
    }
  }

  /** `trim` leaves text alone that neither starts nor ends with
      whitespace. */
  lemma TrimUntouched(text: seq<bv8>)
    requires text == [] || (!IsWhitespace(text[0]) && !IsWhitespace(text[|text| - 1]))
    ensures Trim(text) == text
  {
    assert TrimStart(text) == text;
  }

  /** The command text of a line: `input_stack_str.as_ref().trim()`. */
  function InputOf(line: Strings.StackStr): (input: seq<bv8>)
    ensures |input| <= |line.inner|
    ensures input == [] || (!IsWhitespace(input[0]) && !IsWhitespace(input[|input| - 1]))
  {
    Trim(Strings.AsRef(line))
  }

  /** What the monitor prints, one item per `print!`/`println!` it makes. */
  datatype Output =
    | Welcome                                // "Welcome to Hallway Monitor!"
    | HelpText                               // HELP_MESSAGE
    | Status(pos: Option<int>)               // "Position: 0x.." or the hints
    | ByteOut(value: bv8)                    // "0x.. "
    | NextAddress(addr: int)                 // "<-- @0x.."
    | MarkerLine(index: nat, name: string)   // "{idx} --> {name}"
    | PointingTo(name: string)               // "Pointing to marker `..`!"
    | MarkerNotFound
    | InvalidInput(text: seq<bv8>)

  /** How a command leaves the loop: it goes on, `e` breaks out, `j` jumps to
      the cursor and never comes back. */
  datatype Outcome = Proceed | Quit | JumpedTo(target: int)

  /** The monitor's cursor (`pos`) and the memory it looks at. */
  datatype MonitorState = MonitorState(pos: Option<int>, mem: seq<bv8>)

  datatype StepResult = StepResult(state: MonitorState, outcome: Outcome, out: seq<Output>)

  /** `advance(by)`: moves a set cursor forward. */
  function Advanced(pos: Option<int>, amount: nat): Option<int>
  {
    match pos
    case None => None
    case Some(p) => Some(p + amount)
  }

  /** `backtrack(by)`: moves a set cursor back. */
  function Backtracked(pos: Option<int>, amount: nat): Option<int>
  {
    match pos
    case None => None
    case Some(p) => Some(p - amount)
  }

  /** Backtracking by what was advanced restores the cursor, set or not. */
  lemma BacktrackUndoesAdvance(pos: Option<int>, amount: nat)
    ensures Backtracked(Advanced(pos, amount), amount) == pos
    ensures Advanced(pos, amount).Some? <==> pos.Some?
  {
  }

  /** `byte.try_into().unwrap_or(u8::MAX)`: values above a byte saturate. */
  function Clamp(v: nat): (b: bv8)
    ensures v <= 0xFF ==> b as int == v
    ensures v > 0xFF ==> b == 0xFF
  {
    if v > 0xFF then 0xFF else ToByte(v)
  }

  /** The byte whose value is `v`, built bit by bit from the top. */
  function ToByte(v: nat): (b: bv8)
    requires v <= 0xFF
    ensures b as int == v
  {
    if v == 0 then 0
    else
      var half := ToByte(v / 2);
      assert half as int < 0x80;
      if v % 2 == 1 then half * 2 + 1 else half * 2
  }

  function ClampAll(vs: seq<nat>): (bs: seq<bv8>)
    ensures |bs| == |vs| && forall i :: 0 <= i < |vs| ==> bs[i] == Clamp(vs[i])
  {
    seq(|vs|, i requires 0 <= i < |vs| => Clamp(vs[i]))
  }

  /** Memory after storing `bytes` at consecutive addresses from `at`. */
  function Overwrite(mem: seq<bv8>, at: int, bytes: seq<bv8>): (r: seq<bv8>)
    requires 0 <= at && at + |bytes| <= |mem|
    ensures |r| == |mem|
    ensures forall a :: 0 <= a < |mem| && !(at <= a < at + |bytes|) ==> r[a] == mem[a]
    ensures forall a :: at <= a < at + |bytes| ==> r[a] == bytes[a - at]
  {
    mem[..at] + bytes + mem[at + |bytes|..]
  }

  /** `n` copies of `b`. */
  function Repeat(b: bv8, n: nat): (r: seq<bv8>)
    ensures |r| == n && forall i :: 0 <= i < n ==> r[i] == b
  {
    seq(n, _ => b)
  }

  /** What `read_memory` prints for `count` bytes from `at`: each byte, and
      after every eighth one (offset `k` with `k != 0 && (k + 1) % 8 == 0`)
      the address that follows it. */
  function ReadTrace(mem: seq<bv8>, at: int, count: nat): seq<Output>
    requires 0 <= at && at + count <= |mem|
  {
    if count == 0 then []
    else
      var k := count - 1;
      ReadTrace(mem, at, k) + [ByteOut(mem[at + k])]
      + (if k != 0 && (k + 1) % 8 == 0 then [NextAddress(at + k + 1)] else [])
  }

  /** The bytes printed, in order. */
  function BytesOf(out: seq<Output>): seq<bv8>
  {
    if out == [] then []
    else BytesOf(out[..|out| - 1]) + (if out[|out| - 1].ByteOut? then [out[|out| - 1].value] else [])
  }

  /** The addresses printed, in order. */
  function AddressesOf(out: seq<Output>): seq<int>
  {
    if out == [] then []
    else AddressesOf(out[..|out| - 1]) + (if out[|out| - 1].NextAddress? then [out[|out| - 1].addr] else [])
  }

  lemma {:induction false} BytesOfAppend(a: seq<Output>, b: seq<Output>)
    ensures BytesOf(a + b) == BytesOf(a) + BytesOf(b)
    ensures AddressesOf(a + b) == AddressesOf(a) + AddressesOf(b)
    decreases |b|
  {
    if b != [] {
      var b' := b[..|b| - 1];
      assert (a + b)[..|a + b| - 1] == a + b';
      BytesOfAppend(a, b');
    } else {
      assert a + b == a;
    }
  }

  /** What one read step appends for offset `k`. */
  lemma ReadStepOutput(mem: seq<bv8>, at: int, k: nat)
    requires 0 <= at && at + k < |mem|
    ensures var tail := ReadTrace(mem, at, k + 1)[|ReadTrace(mem, at, k)|..];
            BytesOf(tail) == [mem[at + k]]
            && AddressesOf(tail) == (if (k + 1) % 8 == 0 then [at + k + 1] else [])
            && ReadTrace(mem, at, k + 1) == ReadTrace(mem, at, k) + tail
  {
    var one := [ByteOut(mem[at + k])];
    assert BytesOf(one) == [mem[at + k]] && AddressesOf(one) == [] by {
      assert one[..0] == [];
    }
    if k != 0 && (k + 1) % 8 == 0 {
      var tail := one + [NextAddress(at + k + 1)];
      assert tail[..1] == one;
      assert ReadTrace(mem, at, k + 1) == ReadTrace(mem, at, k) + tail;
    } else {
      assert ReadTrace(mem, at, k + 1) == ReadTrace(mem, at, k) + one;
    }
  }

  /** A read prints exactly the bytes `mem[at..at + count]`, in order. */
  lemma {:induction false} ReadTraceBytes(mem: seq<bv8>, at: int, count: nat)
    requires 0 <= at && at + count <= |mem|
    ensures BytesOf(ReadTrace(mem, at, count)) == mem[at..at + count]
  {
    if count != 0 {
      var k := count - 1;
      ReadTraceBytes(mem, at, k);
      ReadStepOutput(mem, at, k);
      var prev := ReadTrace(mem, at, k);
      BytesOfAppend(prev, ReadTrace(mem, at, count)[|prev|..]);
      assert mem[at..at + count] == mem[at..at + k] + [mem[at + k]];
    }
  }

  /** After every full group of eight bytes a read prints the next address:
      `at + 8`, `at + 16`, ... up to `at + count`. */
  lemma {:induction false} ReadTraceAddresses(mem: seq<bv8>, at: int, count: nat)
    requires 0 <= at && at + count <= |mem|
    ensures AddressesOf(ReadTrace(mem, at, count)) == seq(count / 8, j => at + 8 * (j + 1))
  {
    if count != 0 {
      var k := count - 1;
      ReadTraceAddresses(mem, at, k);
      ReadStepOutput(mem, at, k);
      var prev := ReadTrace(mem, at, k);
      BytesOfAppend(prev, ReadTrace(mem, at, count)[|prev|..]);
      if count % 8 == 0 {
        assert count / 8 == k / 8 + 1;
        assert seq(count / 8, j => at + 8 * (j + 1)) == seq(k / 8, j => at + 8 * (j + 1)) + [at + count];
      } else {
        assert count / 8 == k / 8;
      }
    }
  }

  /** The width of a `w` token: `0x..` takes four bytes, anything else two;
      the choice looks at the raw buffer `inner`, not at the trimmed input. */
  function TokenWidth(b: bv8): (w: nat)
    ensures w == 2 || w == 4
  {
    if b == 0x78 then 4 else 2
  }

  /** The `w` loop never indexes `inner` out of bounds (it panics
      otherwise): from every loop offset `o` before the end of the input,
      `inner[o + 2]` exists. */
  predicate WriteLoopSafe(inputLen: nat, raw: seq<bv8>, offset: nat)
    decreases inputLen - offset
  {
    offset < inputLen ==>
      offset + 2 < |raw| && WriteLoopSafe(inputLen, raw, offset + 1 + TokenWidth(raw[offset + 2]))
  }

  /** One `w` token: `helper_parse(input, offset, len, 16, 0)`. */
  function WriteToken(input: seq<bv8>, offset: nat, len: nat): (v: nat)
    ensures v <= USIZE_MAX
  {
    HelperParse(input, offset, len, 16, 0)
  }

  /** A `w` token that is not a hexadecimal number stores 0; one that is
      stores its value. */
  lemma WriteTokenDefaults(input: seq<bv8>, offset: nat, len: nat)
    ensures FieldParse(input, offset, len, 16).None? ==> WriteToken(input, offset, len) == 0
    ensures FieldParse(input, offset, len, 16).Some? ==>
            WriteToken(input, offset, len) == FieldParse(input, offset, len, 16).value
  {
    HelperParseFallsBack(input, offset, len, 16, 0);
  }

  /** The tokens the `w` loop visits, from loop offset `offset` on: each
      turn skips one separator byte, so a token starts one past the offset,
      is as wide as `inner` says, and the next turn starts right after it.
      Each entry is a token's start and width. */
  function WriteTokens(inputLen: nat, raw: seq<bv8>, offset: nat): (ts: seq<(nat, nat)>)
    requires WriteLoopSafe(inputLen, raw, offset)
    ensures offset >= inputLen ==> ts == []
    ensures offset < inputLen ==> 1 <= |ts| <= inputLen - offset
    ensures forall k :: 0 <= k < |ts| ==> offset < ts[k].0 && (ts[k].1 == 2 || ts[k].1 == 4)
    decreases inputLen - offset
  {
    if offset >= inputLen then []
    else
      var w := TokenWidth(raw[offset + 2]);
      [(offset + 1, w)] + WriteTokens(inputLen, raw, offset + 1 + w)
  }

  /** The values the `w` command stores, in order: one per token, each the
      token parsed as hexadecimal. A non-empty line stores at least one value
      and never more than its length. */
  function WriteValues(input: seq<bv8>, raw: seq<bv8>): (vs: seq<nat>)
    requires WriteLoopSafe(|input|, raw, 0)
    ensures input == [] ==> vs == []
    ensures input != [] ==> 1 <= |vs| <= |input|
    ensures var ts := WriteTokens(|input|, raw, 0);
            |vs| == |ts| && forall k :: 0 <= k < |vs| ==> vs[k] == WriteToken(input, ts[k].0, ts[k].1)
  {
    var ts := WriteTokens(|input|, raw, 0);
    seq(|ts|, k requires 0 <= k < |ts| => WriteToken(input, ts[k].0, ts[k].1))
  }

  /** Where the `w` loop stands: at loop offset `offset`, having stored
      `written`, the tokens still ahead are exactly the ones the whole line
      has after the first `|written|`, and `written` is the first `|written|`
      values. */
  ghost predicate WriteProgress(input: seq<bv8>, raw: seq<bv8>, offset: nat, written: seq<nat>)
  {
    WriteLoopSafe(|input|, raw, 0) && WriteLoopSafe(|input|, raw, offset) &&
    var tokens := WriteTokens(|input|, raw, 0);
    |written| <= |tokens| && WriteTokens(|input|, raw, offset) == tokens[|written|..] &&
    written == WriteValues(input, raw)[..|written|]
  }

  /** The `w` loop starts at offset 0 with nothing stored. */
  lemma WriteProgressStart(input: seq<bv8>, raw: seq<bv8>)
    requires WriteLoopSafe(|input|, raw, 0)
    ensures WriteProgress(input, raw, 0, [])
  {
  }

  /** A turn of the `w` loop stores the next value, and there was one
      left to store. */
  lemma WriteProgressStep(input: seq<bv8>, raw: seq<bv8>, offset: nat, written: seq<nat>)
    requires WriteProgress(input, raw, offset, written) && offset < |input|
    ensures var w := TokenWidth(raw[offset + 2]);
            |written| < |WriteValues(input, raw)| &&
            WriteProgress(input, raw, offset + 1 + w, written + [WriteToken(input, offset + 1, w)])
  {
    var tokens := WriteTokens(|input|, raw, 0);
    var values := WriteValues(input, raw);
    var w := TokenWidth(raw[offset + 2]);
    var k := |written|;
    var rest := WriteTokens(|input|, raw, offset + 1 + w);
    assert WriteTokens(|input|, raw, offset) == [(offset + 1, w)] + rest;
    NextTokenAhead(tokens, k, (offset + 1, w), rest);
    assert values[k] == WriteToken(input, offset + 1, w);
    PrefixGrows(values, k);
    assert written + [values[k]] == values[..k + 1];
  }

  /** If the tokens from the `k`-th on are `t` followed by `rest`, then `t`
      is the `k`-th token and `rest` are the ones after it. */
  lemma NextTokenAhead(tokens: seq<(nat, nat)>, k: nat, t: (nat, nat), rest: seq<(nat, nat)>)
    requires k <= |tokens| && tokens[k..] == [t] + rest
    ensures k < |tokens| && tokens[k] == t && tokens[k + 1..] == rest
  {
    assert tokens[k..][0] == t;
    assert tokens[k + 1..] == tokens[k..][1..];
  }

  /** A prefix one longer is the prefix and the next value. */
  lemma PrefixGrows(values: seq<nat>, k: nat)
    requires k < |values|
    ensures values[..k + 1] == values[..k] + [values[k]]
  {
  }

  /** When the `w` loop ends, it has stored every value of the line. */
  lemma WriteProgressDone(input: seq<bv8>, raw: seq<bv8>, offset: nat, written: seq<nat>)
    requires WriteProgress(input, raw, offset, written) && offset >= |input|
    ensures written == WriteValues(input, raw)
  {
  }

  /** The `cw` byte: a token after `cw` whose width `inner[3]` decides. */
  function CopyByte(input: seq<bv8>, raw: seq<bv8>): (b: nat)
    requires |raw| > 3
    ensures b <= USIZE_MAX
    ensures |input| <= 2 ==> b == 0
  {
    HelperParse(input, 2, TokenWidth(raw[3]), 16, 0)
  }

  /** A malformed `cw` byte token gives 0; a well-formed one its value. */
  lemma CopyByteDefaults(input: seq<bv8>, raw: seq<bv8>)
    requires |raw| > 3
    ensures FieldParse(input, 2, TokenWidth(raw[3]), 16).None? ==> CopyByte(input, raw) == 0
    ensures FieldParse(input, 2, TokenWidth(raw[3]), 16).Some? ==>
            CopyByte(input, raw) == FieldParse(input, 2, TokenWidth(raw[3]), 16).value
  {
    HelperParseFallsBack(input, 2, TokenWidth(raw[3]), 16, 0);
  }

  /** The `cw` count: four bytes after the byte token and a separator,
      1 when absent or malformed. */
  function CopyCount(input: seq<bv8>, raw: seq<bv8>): (count: nat)
    requires |raw| > 3
    ensures count <= USIZE_MAX
    ensures |input| <= 1 + TokenWidth(raw[3]) + 2 ==> count == 1
  {
    HelperParse(input, 1 + TokenWidth(raw[3]) + 2, 4, 16, 1)
  }

  /** A malformed `cw` count gives 1; a well-formed one its value. */
  lemma CopyCountDefaults(input: seq<bv8>, raw: seq<bv8>)
    requires |raw| > 3
    ensures var offset := 1 + TokenWidth(raw[3]) + 2;
            (FieldParse(input, offset, 4, 16).None? ==> CopyCount(input, raw) == 1) &&
            (FieldParse(input, offset, 4, 16).Some? ==> CopyCount(input, raw) == FieldParse(input, offset, 4, 16).value)
  {
    HelperParseFallsBack(input, 1 + TokenWidth(raw[3]) + 2, 4, 16, 1);
  }

  /** What `list_markers` prints: one line per registered marker, in index
      order. */
  function MarkerListing(entries: seq<Markers.MarkerEntry>): (out: seq<Output>)
    ensures |out| == |entries|
    ensures forall i :: 0 <= i < |entries| ==> out[i] == MarkerLine(i, entries[i].name)
  {
    seq(|entries|, i requires 0 <= i < |entries| => MarkerLine(i, entries[i].name))
  }

  /** The cursor `g` installs: the parsed address, or the current address
      (0 when unset) when the argument does not parse. */
  function GotoTarget(input: seq<bv8>, pos: Option<int>): (target: int)
    ensures 0 <= target <= USIZE_MAX || (pos.Some? && target == pos.value)
    ensures |input| <= 1 ==> target == (if pos.Some? then pos.value else 0)
  {
    HelperParse(input, 1, 8, 16, match pos case Some(p) => p case None => 0)
  }

  /** A malformed `g` target keeps the previous cursor (0 without one); a
      well-formed one is the target. */
  lemma GotoTargetDefaults(input: seq<bv8>, pos: Option<int>)
    ensures FieldParse(input, 1, 8, 16).None? ==> GotoTarget(input, pos) == (if pos.Some? then pos.value else 0)
    ensures FieldParse(input, 1, 8, 16).Some? ==> GotoTarget(input, pos) == FieldParse(input, 1, 8, 16).value
  {
    HelperParseFallsBack(input, 1, 8, 16, if pos.Some? then pos.value else 0);
  }

  /** The memory accesses a line makes stay inside memory, and the `w` loop
      does not panic. These are the raw-pointer safety conditions the source
      leaves to whoever types at the monitor. `input` is the trimmed text,
      `raw` the line buffer. */
  predicate StepSafe(s: MonitorState, input: seq<bv8>, raw: seq<bv8>)
  {
    |raw| == LINE_LEN &&
    match Dispatch(input)
    case Some(ReadCmd) =>
      s.pos.Some? ==> 0 <= s.pos.value && s.pos.value + 8 * HelperParse(input, 1, 8, 16, 8) <= |s.mem|
    case Some(WriteCmd) =>
      WriteLoopSafe(|input|, raw, 0) &&
      (s.pos.Some? ==> 0 <= s.pos.value && s.pos.value + |WriteValues(input, raw)| <= |s.mem|)
    case Some(CopyWriteCmd) =>
      s.pos.Some? ==> 0 <= s.pos.value && s.pos.value + CopyCount(input, raw) <= |s.mem|
    case _ => true
  }

  /** One pass of the `loop` in `interactive` once the line is read and
      trimmed to `input` (`raw` is the untrimmed buffer, which `w` and `cw`
      index): the new cursor and memory, how the loop continues, and what is
      printed. `entries` are the registered markers. */
  function Step(s: MonitorState, entries: seq<Markers.MarkerEntry>, input: seq<bv8>, raw: seq<bv8>): StepResult
    requires StepSafe(s, input, raw)
  {
    match Dispatch(input)
    case None => StepResult(s, Proceed, [InvalidInput(input)])
    case Some(cmd) =>
      match cmd
      case HelpCmd => StepResult(s, Proceed, [HelpText])
      case ExitCmd => StepResult(s, Quit, [])
      case ClearInterruptsCmd => StepResult(s, Proceed, [])
      case EnableInterruptsCmd => StepResult(s, Proceed, [])
      case ReadCmd =>
        var n := HelperParse(input, 1, 8, 16, 8);
        StepResult(s, Proceed, if s.pos.None? then [] else ReadTrace(s.mem, s.pos.value, 8 * n))
      case WriteCmd =>
        var bytes := ClampAll(WriteValues(input, raw));
        var mem := if s.pos.None? then s.mem else Overwrite(s.mem, s.pos.value, bytes);
        StepResult(s.(mem := mem), Proceed, [])
      case CopyWriteCmd =>
        var bytes := Repeat(Clamp(CopyByte(input, raw)), CopyCount(input, raw));
        var mem := if s.pos.None? then s.mem else Overwrite(s.mem, s.pos.value, bytes);
        StepResult(s.(mem := mem), Proceed, [])
      case JumpCmd =>
        StepResult(s, if s.pos.Some? then JumpedTo(s.pos.value) else Proceed, [])
      case AdvanceCmd =>
        StepResult(s.(pos := Advanced(s.pos, HelperParse(input, 1, 8, 16, 1))), Proceed, [])
      case BacktrackCmd =>
        StepResult(s.(pos := Backtracked(s.pos, HelperParse(input, 1, 8, 16, 1))), Proceed, [])
      case ListMarkersCmd => StepResult(s, Proceed, MarkerListing(entries))
      case MarkerCmd =>
        var idx := HelperParse(input, 1, 8, 16, 0);
        if idx >= |entries| then StepResult(s, Proceed, [MarkerNotFound])
        else StepResult(s.(pos := Some(entries[idx].addr)), Proceed, [PointingTo(entries[idx].name)])
      case GotoCmd => StepResult(s.(pos := Some(GotoTarget(input, s.pos))), Proceed, [])
  }

  /** Only `w` and `cw` change memory, only `a`, `b`, `m` and `g` move the
      cursor, only `e` and `j` leave the loop, and memory keeps its size. */
  lemma StepFrame(s: MonitorState, entries: seq<Markers.MarkerEntry>, input: seq<bv8>, raw: seq<bv8>)
    requires StepSafe(s, input, raw)
    ensures var r := Step(s, entries, input, raw);
            var c := Dispatch(input);
            |r.state.mem| == |s.mem|
            && (r.state.mem != s.mem ==> c == Some(WriteCmd) || c == Some(CopyWriteCmd))
            && (r.state.pos != s.pos ==>
                  c == Some(AdvanceCmd) || c == Some(BacktrackCmd) || c == Some(MarkerCmd) || c == Some(GotoCmd))
            && (r.outcome != Proceed ==> c == Some(ExitCmd) || c == Some(JumpCmd))
  {
    var r := Step(s, entries, input, raw);
    match Dispatch(input)
    case None =>
      assert r.state == s && r.outcome == Proceed;
    case Some(cmd) =>
      if cmd == WriteCmd {
        StepWrite(s, entries, input, raw);
      } else if cmd == CopyWriteCmd {
        StepCopyWrite(s, entries, input, raw);
      } else if cmd == AdvanceCmd || cmd == BacktrackCmd || cmd == MarkerCmd || cmd == GotoCmd {
        assert r.state.mem == s.mem && r.outcome == Proceed;
      } else if cmd == ExitCmd || cmd == JumpCmd {
        assert r.state == s;
      } else {
        assert r.state == s && r.outcome == Proceed;
      }
  }

  /** `w` stores the parsed values, saturated to a byte, at consecutive
      addresses from the cursor, and puts the cursor back where it was. */
  lemma StepWrite(s: MonitorState, entries: seq<Markers.MarkerEntry>, input: seq<bv8>, raw: seq<bv8>)
    requires StepSafe(s, input, raw) && Dispatch(input) == Some(WriteCmd)
    ensures var r := Step(s, entries, input, raw);
            var vs := WriteValues(input, raw);
            r.state.pos == s.pos && r.outcome == Proceed && r.out == []
            && (s.pos.None? ==> r.state.mem == s.mem)
            && (s.pos.Some? ==> forall a :: 0 <= a < |s.mem| ==>
                  r.state.mem[a] == (if s.pos.value <= a < s.pos.value + |vs| then Clamp(vs[a - s.pos.value]) else s.mem[a]))
  {
  }

  /** `cw` stores the same byte at `count` consecutive addresses from the
      cursor, and puts the cursor back where it was. */
  lemma StepCopyWrite(s: MonitorState, entries: seq<Markers.MarkerEntry>, input: seq<bv8>, raw: seq<bv8>)
    requires StepSafe(s, input, raw) && Dispatch(input) == Some(CopyWriteCmd)
    ensures var r := Step(s, entries, input, raw);
            var b := Clamp(CopyByte(input, raw));
            var count := CopyCount(input, raw);
            r.state.pos == s.pos && r.outcome == Proceed && r.out == []
            && (s.pos.None? ==> r.state.mem == s.mem)
            && (s.pos.Some? ==> forall a :: 0 <= a < |s.mem| ==>
                  r.state.mem[a] == (if s.pos.value <= a < s.pos.value + count then b else s.mem[a]))
  {
  }

  /** `r<n>` changes nothing and prints the trace of `8 * n` bytes. */
  lemma StepReadTrace(s: MonitorState, entries: seq<Markers.MarkerEntry>, input: seq<bv8>, raw: seq<bv8>)
    requires StepSafe(s, input, raw) && Dispatch(input) == Some(ReadCmd) && s.pos.Some?
    ensures 0 <= s.pos.value && s.pos.value + 8 * HelperParse(input, 1, 8, 16, 8) <= |s.mem|
    ensures Step(s, entries, input, raw)
            == StepResult(s, Proceed, ReadTrace(s.mem, s.pos.value, 8 * HelperParse(input, 1, 8, 16, 8)))
  {
    var n := HelperParse(input, 1, 8, 16, 8);
    assert StepSafe(s, input, raw) ==> 0 <= s.pos.value && s.pos.value + 8 * n <= |s.mem|;
  }

  /** `r<n>` changes nothing and prints the `8 * n` bytes from the cursor, in
      order, with the address after each group of eight. */
  lemma StepRead(s: MonitorState, entries: seq<Markers.MarkerEntry>, input: seq<bv8>, raw: seq<bv8>)
    requires StepSafe(s, input, raw) && Dispatch(input) == Some(ReadCmd) && s.pos.Some?
    ensures var r := Step(s, entries, input, raw);
            var p := s.pos.value;
            var n := HelperParse(input, 1, 8, 16, 8);
            r.state == s && r.outcome == Proceed
            && BytesOf(r.out) == s.mem[p..p + 8 * n]
            && AddressesOf(r.out) == seq(n, j => p + 8 * (j + 1))
  {
    StepReadTrace(s, entries, input, raw);
    ReadRows(s.mem, s.pos.value, HelperParse(input, 1, 8, 16, 8));
  }

  /** The trace of `n` rows of eight bytes: the bytes, and an address after
      each row. */
  lemma ReadRows(mem: seq<bv8>, p: int, n: nat)
    requires 0 <= p && p + 8 * n <= |mem|
    ensures BytesOf(ReadTrace(mem, p, 8 * n)) == mem[p..p + 8 * n]
    ensures AddressesOf(ReadTrace(mem, p, 8 * n)) == seq(n, j => p + 8 * (j + 1))
  {
    ReadTraceBytes(mem, p, 8 * n);
    ReadTraceAddresses(mem, p, 8 * n);
    assert 8 * n / 8 == n;
  }

  /** A bare `r` reads the default eight rows: 64 bytes. */
  lemma ReadDefaultsToEightRows(s: MonitorState, entries: seq<Markers.MarkerEntry>, raw: seq<bv8>)
    requires |raw| == LINE_LEN
    requires s.pos.Some? && 0 <= s.pos.value && s.pos.value + 64 <= |s.mem|
    ensures StepSafe(s, [0x72], raw)
    ensures BytesOf(Step(s, entries, [0x72], raw).out) == s.mem[s.pos.value..s.pos.value + 64]
  {
    assert Dispatch([0x72]) == Some(ReadCmd) by {
      DispatchByFirstBytes([0x72]);
    }
    assert HelperParse([0x72], 1, 8, 16, 8) == 8 by {
      assert Field([0x72], 1, 8) == [];
    }
    StepRead(s, entries, [0x72], raw);
  }

  /** `a<n>` followed by `b<n>` with the same argument puts the cursor back
      and leaves memory alone. */
  lemma AdvanceThenBacktrack(s: MonitorState, entries: seq<Markers.MarkerEntry>, arg: seq<bv8>, raw1: seq<bv8>, raw2: seq<bv8>)
    requires |raw1| == LINE_LEN && |raw2| == LINE_LEN
    ensures StepSafe(s, [0x61] + arg, raw1)
    ensures StepSafe(Step(s, entries, [0x61] + arg, raw1).state, [0x62] + arg, raw2)
    ensures Step(Step(s, entries, [0x61] + arg, raw1).state, entries, [0x62] + arg, raw2).state == s
  {
    var forward := [0x61] + arg;
    var back := [0x62] + arg;
    assert Dispatch(forward) == Some(AdvanceCmd) by {
      DispatchByFirstBytes(forward);
    }
    assert Dispatch(back) == Some(BacktrackCmd) by {
      DispatchByFirstBytes(back);
    }
    var n := HelperParse(forward, 1, 8, 16, 1);
    assert HelperParse(back, 1, 8, 16, 1) == n by {
      HelperParseIgnoresCommand(0x61, 0x62, arg, 8, 16, 1);
    }
    var mid := Step(s, entries, forward, raw1).state;
    assert mid == s.(pos := Advanced(s.pos, n));
    assert Step(mid, entries, back, raw2).state == s.(pos := Backtracked(Advanced(s.pos, n), n));
    BacktrackUndoesAdvance(s.pos, n);
  }

  /** `g` sets the cursor to its target and changes nothing else. */
  lemma StepGoto(s: MonitorState, entries: seq<Markers.MarkerEntry>, input: seq<bv8>, raw: seq<bv8>)
    requires |raw| == LINE_LEN && Dispatch(input) == Some(GotoCmd)
    ensures StepSafe(s, input, raw)
    ensures Step(s, entries, input, raw) == StepResult(s.(pos := Some(GotoTarget(input, s.pos))), Proceed, [])
  {
  }

  /** `m<k>` points the cursor at the `k`-th marker when there is one, and
      only reports otherwise. */
  lemma StepMarker(s: MonitorState, entries: seq<Markers.MarkerEntry>, input: seq<bv8>, raw: seq<bv8>)
    requires |raw| == LINE_LEN && Dispatch(input) == Some(MarkerCmd)
    ensures StepSafe(s, input, raw)
    ensures var idx := HelperParse(input, 1, 8, 16, 0);
            Step(s, entries, input, raw)
            == if idx < |entries| then StepResult(s.(pos := Some(entries[idx].addr)), Proceed, [PointingTo(entries[idx].name)])
               else StepResult(s, Proceed, [MarkerNotFound])
  {
  }

  /** `g` followed by the position the status line prints (`0x{:x}`) moves
      the cursor there, from anywhere. */
  lemma GotoPrintedPosition(s: MonitorState, entries: seq<Markers.MarkerEntry>, p: nat, raw: seq<bv8>)
    requires |raw| == LINE_LEN && p <= USIZE_MAX
    ensures StepSafe(s, [0x67] + ZERO_X + LowerHex(p), raw)
    ensures Step(s, entries, [0x67] + ZERO_X + LowerHex(p), raw) == StepResult(s.(pos := Some(p)), Proceed, [])
  {
    var input := [0x67] + ZERO_X + LowerHex(p);
    assert Dispatch(input) == Some(GotoCmd) by {
      DispatchByFirstBytes(input);
    }
    assert GotoTarget(input, s.pos) == p by {
      ParsePrintedAddress(0x67, p, match s.pos case Some(q) => q case None => 0);
    }
    StepGoto(s, entries, input, raw);
  }

  /** A bare `g` still sets the cursor: to where it was, or to 0. */
  lemma GotoWithoutAddress(s: MonitorState, entries: seq<Markers.MarkerEntry>, raw: seq<bv8>)
    requires |raw| == LINE_LEN
    ensures StepSafe(s, [0x67], raw)
    ensures Step(s, entries, [0x67], raw).state.pos == Some(if s.pos.Some? then s.pos.value else 0)
  {
    assert Field([0x67], 1, 8) == [];
  }

  /** Any line starting with `m` selects the marker command. */
  lemma DispatchMarker(t: seq<bv8>)
    ensures Dispatch([0x6D] + t) == Some(MarkerCmd)
  {
    DispatchByFirstBytes([0x6D] + t);
  }

  /** `m0x<k>` right after the `k`-th marker was registered points the
      cursor at that marker and names it. */
  lemma MarkerAfterRegistration(s: MonitorState, entries: seq<Markers.MarkerEntry>,
                                e: Markers.MarkerEntry, raw: seq<bv8>)
    requires |entries| < Markers.NUM_MARKERS && |raw| == LINE_LEN
    ensures StepSafe(s, [0x6D] + ZERO_X + LowerHex(|entries|), raw)
    ensures Step(s, Markers.Registered(entries, Markers.NUM_MARKERS, e), [0x6D] + ZERO_X + LowerHex(|entries|), raw)
            == StepResult(s.(pos := Some(e.addr)), Proceed, [PointingTo(e.name)])
  {
    var input := [0x6D] + ZERO_X + LowerHex(|entries|);
    assert Dispatch(input) == Some(MarkerCmd) by {
      DispatchMarker(ZERO_X + LowerHex(|entries|));
      assert input == [0x6D] + (ZERO_X + LowerHex(|entries|));
    }
    assert HelperParse(input, 1, 8, 16, 0) == |entries| by {
      ParsePrintedAddress(0x6D, |entries|, 0);
    }
    var registered := Markers.Registered(entries, Markers.NUM_MARKERS, e);
    assert |registered| == |entries| + 1 && registered[|entries|] == e;
    assert Step(s, registered, input, raw) == StepResult(s.(pos := Some(e.addr)), Proceed, [PointingTo(e.name)]) by {
      StepMarker(s, registered, input, raw);
    }
  }

  /** `j` leaves the loop for the cursor's address when it is set, and does
      nothing otherwise. */
  lemma JumpTargetsCursor(s: MonitorState, entries: seq<Markers.MarkerEntry>, input: seq<bv8>, raw: seq<bv8>)
    requires |raw| == LINE_LEN && Dispatch(input) == Some(JumpCmd)
    ensures var r := Step(s, entries, input, raw);
            r.state == s && r.out == []
            && (r.outcome.JumpedTo? <==> s.pos.Some?)
            && (s.pos.Some? ==> r.outcome.target == s.pos.value)
  {
  }

  /** Typing `text` and Enter gives the monitor exactly `text` as its input
      when `text` fits, holds no terminator and has no surrounding
      whitespace. */
  lemma TypedLine(text: seq<bv8>, rest: seq<bv8>)
    requires |text| < LINE_LEN
    requires forall i :: 0 <= i < |text| ==> !Console.IsTerminator(text[i])
    requires text == [] || (!IsWhitespace(text[0]) && !IsWhitespace(text[|text| - 1]))
    ensures var stream := text + [0x0D] + rest;
            Console.ReadCompletes(stream, LINE_LEN)
            && Console.Consumed(stream, LINE_LEN) == |text| + 1
            && Console.LineRead(stream, LINE_LEN).inner == text + Strings.Zeros(LINE_LEN - |text|)
            && InputOf(Console.LineRead(stream, LINE_LEN)) == text
  {
    Console.TerminatedLine(text, rest, LINE_LEN);
    PaddedInput(text);
  }

  /** The command text of a stack string holding `text` and zero padding is
      `text`, when `text` has no zero byte and no surrounding whitespace. */
  lemma PaddedInput(text: seq<bv8>)
    requires |text| < LINE_LEN
    requires forall i :: 0 <= i < |text| ==> !Console.IsTerminator(text[i])
    requires text == [] || (!IsWhitespace(text[0]) && !IsWhitespace(text[|text| - 1]))
    ensures InputOf(Strings.StackStr(Strings.STR_MAGIC, text + Strings.Zeros(LINE_LEN - |text|), 0)) == text
  {
    Strings.TrimTrailingNulPadding(text, LINE_LEN - |text|);
    Strings.TrimTrailingNulNoZeros(text);
    TrimUntouched(text);
  }

  /** How a session ends: `e`, a jump, or a read that never completes
      because the stream runs dry. */
  datatype SessionEnd = Exited | Jumped(target: int) | Blocked

  datatype Session = Session(end: SessionEnd, state: MonitorState, out: seq<Output>)

  /** Every line the session reads before it ends is a safe step. */
  predicate RunSafe(s: MonitorState, entries: seq<Markers.MarkerEntry>, stream: seq<bv8>)
    decreases |stream|, 2
  {
    Console.ReadCompletes(stream, LINE_LEN) ==> LineSafe(s, entries, stream)
  }

  /** The next line of the stream, which is complete, is a safe step, and
      so is every line after it that the session reads. */
  predicate LineSafe(s: MonitorState, entries: seq<Markers.MarkerEntry>, stream: seq<bv8>)
    requires Console.ReadCompletes(stream, LINE_LEN)
    decreases |stream|, 1
  {
    var line := Console.LineRead(stream, LINE_LEN);
    InputSafe(s, entries, stream, InputOf(line), line.inner)
  }

  /** `input` (read from `raw`) is a safe step, and so is every line the
      session reads after it from the stream. */
  predicate InputSafe(s: MonitorState, entries: seq<Markers.MarkerEntry>, stream: seq<bv8>,
                      input: seq<bv8>, raw: seq<bv8>)
    requires Console.ReadCompletes(stream, LINE_LEN)
    decreases |stream|, 0
  {
    StepSafe(s, input, raw) &&
    var r := Step(s, entries, input, raw);
    Console.ConsumedWithin(stream, LINE_LEN);
    (r.outcome == Proceed ==> RunSafe(r.state, entries, stream[Console.Consumed(stream, LINE_LEN)..]))
  }

  /** The `loop` of `interactive`: print the status, read a line from the
      stream, run it, and go on until `e`, a jump, or the end of the
      stream. */
  function Run(s: MonitorState, entries: seq<Markers.MarkerEntry>, stream: seq<bv8>): Session
    requires RunSafe(s, entries, stream)
    decreases |stream|, 2
  {
    if !Console.ReadCompletes(stream, LINE_LEN) then Session(Blocked, s, [Status(s.pos)])
    else RunLine(s, entries, stream)
  }

  /** A pass of the loop once a whole line is available: read it. */
  function RunLine(s: MonitorState, entries: seq<Markers.MarkerEntry>, stream: seq<bv8>): Session
    requires Console.ReadCompletes(stream, LINE_LEN) && LineSafe(s, entries, stream)
    decreases |stream|, 1
  {
    var line := Console.LineRead(stream, LINE_LEN);
    RunInput(s, entries, stream, InputOf(line), line.inner)
  }

  /** The rest of the pass: run the line after the status, then go on with
      the stream after it unless the line ended the session. */
  function RunInput(s: MonitorState, entries: seq<Markers.MarkerEntry>, stream: seq<bv8>,
                    input: seq<bv8>, raw: seq<bv8>): Session
    requires Console.ReadCompletes(stream, LINE_LEN) && InputSafe(s, entries, stream, input, raw)
    decreases |stream|, 0
  {
    var status := [Status(s.pos)];
    var r := Step(s, entries, input, raw);
    match r.outcome
    case Quit => Session(Exited, r.state, status + r.out)
    case JumpedTo(t) => Session(Jumped(t), r.state, status + r.out)
    case Proceed =>
      Console.ConsumedWithin(stream, LINE_LEN);
      var next := Run(r.state, entries, stream[Console.Consumed(stream, LINE_LEN)..]);
      Session(next.end, next.state, status + r.out + next.out)
  }

  /** A session that is safe to run makes its next complete line a safe
      step. */
  lemma RunTurnSafe(s: MonitorState, entries: seq<Markers.MarkerEntry>, stream: seq<bv8>)
    requires RunSafe(s, entries, stream) && Console.ReadCompletes(stream, LINE_LEN)
    ensures StepSafe(s, InputOf(Console.LineRead(stream, LINE_LEN)), Console.LineRead(stream, LINE_LEN).inner)
  {
    var line := Console.LineRead(stream, LINE_LEN);
    assert LineSafe(s, entries, stream);
    assert InputSafe(s, entries, stream, InputOf(line), line.inner);
  }

  /** One pass of the loop on a stream whose next line is complete, given
      the result `r` of that line's step: the session is the status and the
      step's output followed, unless the step ended the session, by the
      session on the rest of the stream. */
  lemma RunTurn(s: MonitorState, entries: seq<Markers.MarkerEntry>, stream: seq<bv8>, r: StepResult)
    requires RunSafe(s, entries, stream) && Console.ReadCompletes(stream, LINE_LEN)
    requires StepSafe(s, InputOf(Console.LineRead(stream, LINE_LEN)), Console.LineRead(stream, LINE_LEN).inner)
    requires r == Step(s, entries, InputOf(Console.LineRead(stream, LINE_LEN)), Console.LineRead(stream, LINE_LEN).inner)
    ensures r.outcome == Quit ==> Run(s, entries, stream) == Session(Exited, r.state, [Status(s.pos)] + r.out)
    ensures r.outcome.JumpedTo? ==>
              Run(s, entries, stream) == Session(Jumped(r.outcome.target), r.state, [Status(s.pos)] + r.out)
    ensures r.outcome == Proceed ==>
              var used := Console.Consumed(stream, LINE_LEN);
              1 <= used <= |stream| && RunSafe(r.state, entries, stream[used..]) &&
              var next := Run(r.state, entries, stream[used..]);
              Run(s, entries, stream) == Session(next.end, next.state, [Status(s.pos)] + r.out + next.out)
  {
    var line := Console.LineRead(stream, LINE_LEN);
    assert LineSafe(s, entries, stream);
    assert InputSafe(s, entries, stream, InputOf(line), line.inner);
    assert Run(s, entries, stream) == RunLine(s, entries, stream);
    assert RunLine(s, entries, stream) == RunInput(s, entries, stream, InputOf(line), line.inner);
    Console.ConsumedWithin(stream, LINE_LEN);
  }

  /** A session never resizes memory, and it always starts by printing the
      status. */
  lemma {:induction false} RunKeepsMemorySize(s: MonitorState, entries: seq<Markers.MarkerEntry>, stream: seq<bv8>)
    requires RunSafe(s, entries, stream)
    ensures |Run(s, entries, stream).state.mem| == |s.mem|
    ensures |Run(s, entries, stream).out| >= 1 && Run(s, entries, stream).out[0] == Status(s.pos)
    decreases |stream|
  {
    if Console.ReadCompletes(stream, LINE_LEN) {
      RunTurnSafe(s, entries, stream);
      var line := Console.LineRead(stream, LINE_LEN);
      var r := Step(s, entries, InputOf(line), line.inner);
      RunTurn(s, entries, stream, r);
      StepFrame(s, entries, InputOf(line), line.inner);
      if r.outcome == Proceed {
        RunKeepsMemorySize(r.state, entries, stream[Console.Consumed(stream, LINE_LEN)..]);
      }
    }
  }

  /** The line `e` typed with a carriage return reaches the dispatch as
      `e`. */
  lemma ExitLine(rest: seq<bv8>)
    ensures var stream := [0x65, 0x0D] + rest;
            Console.ReadCompletes(stream, LINE_LEN) && InputOf(Console.LineRead(stream, LINE_LEN)) == [0x65]
  {
    var stream := [0x65, 0x0D] + rest;
    assert stream == [0x65] + [0x0D] + rest;
    assert Console.ReadCompletes(stream, LINE_LEN) && InputOf(Console.LineRead(stream, LINE_LEN)) == [0x65] by {
      TypedLine([0x65], rest);
    }
  }

  /** Typing `e` ends the session at once, with nothing changed. */
  lemma ExitEndsSession(s: MonitorState, entries: seq<Markers.MarkerEntry>, rest: seq<bv8>)
    ensures RunSafe(s, entries, [0x65, 0x0D] + rest)
    ensures Run(s, entries, [0x65, 0x0D] + rest) == Session(Exited, s, [Status(s.pos)])
  {
    ExitLine(rest);
    ExitRun(s, entries, [0x65, 0x0D] + rest);
  }

  /** A session whose next line is `e` ends on it. */
  lemma ExitRun(s: MonitorState, entries: seq<Markers.MarkerEntry>, stream: seq<bv8>)
    requires Console.ReadCompletes(stream, LINE_LEN) && InputOf(Console.LineRead(stream, LINE_LEN)) == [0x65]
    ensures RunSafe(s, entries, stream)
    ensures Run(s, entries, stream) == Session(Exited, s, [Status(s.pos)])
  {
    var line := Console.LineRead(stream, LINE_LEN);
    ExitStep(s, entries, line.inner);
    assert InputSafe(s, entries, stream, [0x65], line.inner);
    assert LineSafe(s, entries, stream);
    assert RunInput(s, entries, stream, [0x65], line.inner) == Session(Exited, s, [Status(s.pos)] + []);
    assert Run(s, entries, stream) == RunLine(s, entries, stream);
  }

  /** `e` quits and changes nothing. */
  lemma ExitStep(s: MonitorState, entries: seq<Markers.MarkerEntry>, raw: seq<bv8>)
    requires |raw| == LINE_LEN
    ensures StepSafe(s, [0x65], raw)
    ensures Step(s, entries, [0x65], raw) == StepResult(s, Quit, [])
  {
    assert Dispatch([0x65]) == Some(ExitCmd) by { DispatchByFirstBytes([0x65]); }
  }
}
