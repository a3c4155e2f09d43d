/** `HallwayMonitor` (src/debug/interactive.rs) as an object: its cursor
    `pos` changes in place, and its commands read and write the memory it
    points into. That memory and the global marker table `MARKERS` are the
    other objects the methods touch; they are held here as `ram` and
    `markers`. Every method is proved against the step semantics of
    `MonitorSpec`. */
module Monitor {
  import opened Wrappers
  import opened MonitorParse
  import opened MonitorSpec
  import Console
  import Markers
  import StackArray

  class HallwayMonitor {
    /** The cursor, `None` until a marker or `g` sets it. */
    var pos: Option<int>
    /** The data memory the raw pointers address, from address 0. */
    const ram: array<bv8>
    /** The global marker table. */
    const markers: StackArray.StackArr<Markers.MarkerEntry>

    /** The marker table keeps its contract. In the kernel `MARKERS`, the
        line buffer and the monitor's own stack frame all live in the data
        memory the raw pointers reach; the model takes `ram` to be disjoint
        from the marker table (and leaves the line buffer and the stack out
        of it), so a `w` or `cw` never changes them. */
    ghost predicate Valid()
      reads this, markers, markers.inner
    {
      markers.Valid() && ram as object != markers.inner as object
    }

    /** The cursor and the memory, as the step semantics sees them. */
    function State(): (st: MonitorState)
      reads this, ram
      ensures st.pos == pos && |st.mem| == ram.Length
    {
      MonitorState(pos, ram[..])
    }

    /** `HallwayMonitor::new()`, i.e. `Default`: no position yet. */
    constructor (ram: array<bv8>, markers: StackArray.StackArr<Markers.MarkerEntry>)
      ensures pos == None && this.ram == ram && this.markers == markers
    {
      pos := None;
      this.ram := ram;
      this.markers := markers;
    }

    /** `read_memory(len)`: nothing without a cursor; otherwise prints the
        `len * 8` bytes from the cursor, and after every eighth one the
        address that follows it. */
    method ReadMemory(len: nat) returns (out: seq<Output>)
      requires pos.Some? ==> 0 <= pos.value && pos.value + 8 * len <= ram.Length
      ensures pos.None? ==> out == []
      ensures pos.Some? ==> out == ReadTrace(ram[..], pos.value, 8 * len)
    {
      out := [];
      if pos.None? {
        return;
      }
      var ptr := pos.value;
      for offset := 0 to 8 * len
        invariant out == ReadTrace(ram[..], ptr, offset)
      {
        out := out + [ByteOut(ram[ptr + offset])];
        if offset != 0 && (offset + 1) % 8 == 0 {
          out := out + [NextAddress(ptr + offset + 1)];
        }
      }
    }

    /** `write_memory(byte)`: stores the byte, saturated at 255, under a set
        cursor; does nothing without one. */
    method WriteMemory(byte: nat)
      requires pos.Some? ==> 0 <= pos.value < ram.Length
      modifies ram
      ensures pos.None? ==> unchanged(ram)
      ensures pos.Some? ==> ram[pos.value] == Clamp(byte)
      ensures forall a :: 0 <= a < ram.Length && pos != Some(a) ==> ram[a] == old(ram[a])
    {
      if pos.None? {
        return;
      }
      ram[pos.value] := Clamp(byte);
    }

    /** `advance(by)`. */
    method Advance(amount: nat)
      modifies this`pos
      ensures pos == Advanced(old(pos), amount)
    {
      pos := match pos case None => None case Some(p) => Some(p + amount);
    }

    /** `backtrack(by)`. */
    method Backtrack(amount: nat)
      modifies this`pos
      ensures pos == Backtracked(old(pos), amount)
    {
      pos := match pos case None => None case Some(p) => Some(p - amount);
    }

    /** `list_markers`: one line per registered marker, with its index. */
    method ListMarkers() returns (out: seq<Output>)
      requires markers.Valid()
      ensures out == MarkerListing(markers.Elements())
    {
      out := [];
      for idx := 0 to markers.len
        invariant |out| == idx
        invariant forall i :: 0 <= i < idx ==> out[i] == MarkerLine(i, markers.Elements()[i].name)
      {
        var entry := markers.inner[idx].value;
        out := out + [MarkerLine(idx, entry.name)];
      }
    }

    /** `marker(idx)`: points the cursor at marker `idx` and names it, or
        reports that there is no such marker and leaves the cursor. */
    method Marker(idx: nat) returns (out: seq<Output>)
      requires markers.Valid()
      modifies this`pos
      ensures idx >= markers.len ==> pos == old(pos) && out == [MarkerNotFound]
      ensures idx < markers.len ==>
                pos == Some(markers.Elements()[idx].addr)
                && out == [PointingTo(markers.Elements()[idx].name)]
    {
      if idx >= markers.len {
        return [MarkerNotFound];
      }
      var entry := markers.inner[idx].value;
      out := [PointingTo(entry.name)];
      pos := Some(entry.addr);
    }

    /** After writing `written` from `start` one byte at a time, advancing
        each time: the cursor has moved past them, and memory holds them
        (saturated) there and `before` everywhere else. */
    ghost predicate WrittenFrom(start: Option<int>, written: seq<nat>, before: seq<bv8>)
      reads this, ram
    {
      pos == Advanced(start, |written|) && |before| == ram.Length &&
      forall a :: 0 <= a < ram.Length ==>
        ram[a] == if start.Some? && start.value <= a < start.value + |written|
                  then Clamp(written[a - start.value]) else before[a]
    }

    /** `write_memory(value)` then `advance(1)`, as the `w` and `cw` loops
        do. */
    method WriteNext(value: nat, ghost start: Option<int>, ghost written: seq<nat>, ghost before: seq<bv8>)
      requires WrittenFrom(start, written, before)
      requires start.Some? ==> 0 <= start.value && start.value + |written| < ram.Length
      modifies this`pos, ram
      ensures WrittenFrom(start, written + [value], before)
    {
      WriteMemory(value);
      Advance(1);
    }

    /** What the loops leave once the cursor is restored: memory overwritten
        from the cursor, or untouched without one. */
    lemma WrittenIsOverwrite(start: Option<int>, written: seq<nat>, before: seq<bv8>)
      requires WrittenFrom(start, written, before)
      requires start.Some? ==> 0 <= start.value && start.value + |written| <= ram.Length
      ensures start.None? ==> ram[..] == before
      ensures start.Some? ==> ram[..] == Overwrite(before, start.value, ClampAll(written))
    {
      if start.Some? {
        assert ram[..] == Overwrite(before, start.value, ClampAll(written));
      } else {
        assert ram[..] == before;
      }
    }

    /** One turn of the `w` loop: parse the next token, store it at the
        cursor and advance; `next` is the offset after the token. */
    method WriteTurn(input: seq<bv8>, raw: seq<bv8>, offset: nat,
                     ghost start: Option<int>, ghost written: seq<nat>, ghost before: seq<bv8>)
      returns (next: nat, value: nat)
      requires WriteProgress(input, raw, offset, written) && offset < |input|
      requires WrittenFrom(start, written, before)
      requires start.Some? ==> 0 <= start.value && start.value + |WriteValues(input, raw)| <= ram.Length
      modifies this`pos, ram
      ensures WriteProgress(input, raw, next, written + [value]) && offset < next
      ensures WrittenFrom(start, written + [value], before)
    {
      var len := TokenWidth(raw[offset + 2]);
      value := WriteToken(input, offset + 1, len);
      WriteProgressStep(input, raw, offset, written);
      WriteNext(value, start, written, before);
      next := offset + 1 + len;
    }

    /** The `w` arm: from offset 0, skip a separator byte, parse a token as
        wide as `inner` says, write it and advance; the cursor is restored
        afterwards. */
    method WriteCommand(input: seq<bv8>, raw: seq<bv8>)
      requires WriteLoopSafe(|input|, raw, 0)
      requires pos.Some? ==> 0 <= pos.value && pos.value + |WriteValues(input, raw)| <= ram.Length
      modifies this`pos, ram
      ensures pos == old(pos)
      ensures pos.None? ==> ram[..] == old(ram[..])
      ensures pos.Some? ==> ram[..] == Overwrite(old(ram[..]), pos.value, ClampAll(WriteValues(input, raw)))
    {
      var originalPos := pos;
      var offset := 0;
      ghost var written: seq<nat> := [];
      WriteProgressStart(input, raw);
      while offset < |input|
        invariant WriteProgress(input, raw, offset, written)
        invariant WrittenFrom(originalPos, written, old(ram[..]))
        decreases |input| - offset
      {
        var value;
        offset, value := WriteTurn(input, raw, offset, originalPos, written, old(ram[..]));
        written := written + [value];
      }
      WriteProgressDone(input, raw, offset, written);
      WrittenIsOverwrite(originalPos, written, old(ram[..]));
      pos := originalPos;
    }

    /** The `cw` loop: writes `byte` `count` times from the cursor, then
        restores the cursor. */
    method CopyWrite(byte: nat, count: nat)
      requires pos.Some? ==> 0 <= pos.value && pos.value + count <= ram.Length
      modifies this`pos, ram
      ensures pos == old(pos)
      ensures pos.None? ==> ram[..] == old(ram[..])
      ensures pos.Some? ==> ram[..] == Overwrite(old(ram[..]), pos.value, Repeat(Clamp(byte), count))
    {
      var originalPos := pos;
      ghost var written: seq<nat> := [];
      for i := 0 to count
        invariant written == seq(i, _ => byte)
        invariant WrittenFrom(originalPos, written, old(ram[..]))
      {
        WriteNext(byte, originalPos, written, old(ram[..]));
        written := written + [byte];
      }
      WrittenIsOverwrite(originalPos, written, old(ram[..]));
      assert ClampAll(written) == Repeat(Clamp(byte), count);
      pos := originalPos;
    }

    /** One pass of the `interactive` loop on the trimmed `input` (with `raw`
        the line buffer): exactly what the step semantics says, for the
        cursor, the memory, the loop's continuation and the output. */
    method Execute(input: seq<bv8>, raw: seq<bv8>) returns (outcome: Outcome, out: seq<Output>)
      requires Valid() && StepSafe(State(), input, raw)
      modifies this`pos, ram
      ensures Valid() && markers.Elements() == old(markers.Elements())
      ensures StepResult(State(), outcome, out) == Step(old(State()), markers.Elements(), input, raw)
    {
      outcome, out := Proceed, [];
      match Dispatch(input)
      case None =>
        out := [InvalidInput(input)];
      case Some(cmd) =>
        match cmd
        case HelpCmd =>
          out := [HelpText];
        case ExitCmd =>
          outcome := Quit;
        case ClearInterruptsCmd =>
        case EnableInterruptsCmd =>
        case ReadCmd =>
          out := ReadMemory(HelperParse(input, 1, 8, 16, 8));
        case WriteCmd =>
          WriteCommand(input, raw);
        case CopyWriteCmd =>
          CopyWrite(CopyByte(input, raw), CopyCount(input, raw));
        case JumpCmd =>
          if pos.Some? {
            outcome := JumpedTo(pos.value);
          }
        case AdvanceCmd =>
          Advance(HelperParse(input, 1, 8, 16, 1));
        case BacktrackCmd =>
          Backtrack(HelperParse(input, 1, 8, 16, 1));
        case ListMarkersCmd =>
          out := ListMarkers();
        case MarkerCmd =>
          out := Marker(HelperParse(input, 1, 8, 16, 0));
        case GotoCmd =>
          pos := Some(HelperParse(input, 1, 8, 16, match pos case Some(p) => p case None => 0));
    }

    /** Read the next line of the stream into a stack string and run it:
        one step of the semantics on that line. */
    method RunNextLine(rest: seq<bv8>) returns (outcome: Outcome, out: seq<Output>, consumed: nat)
      requires Valid() && Console.ReadCompletes(rest, LINE_LEN)
      requires StepSafe(State(), InputOf(Console.LineRead(rest, LINE_LEN)), Console.LineRead(rest, LINE_LEN).inner)
      modifies this`pos, ram
      ensures Valid() && markers.Elements() == old(markers.Elements())
      ensures consumed == Console.Consumed(rest, LINE_LEN)
      ensures StepResult(State(), outcome, out) ==
              Step(old(State()), markers.Elements(), InputOf(Console.LineRead(rest, LINE_LEN)), Console.LineRead(rest, LINE_LEN).inner)
    {
      var line;
      line, consumed := Console.ReadLine(LINE_LEN, rest);
      outcome, out := Execute(InputOf(line), line.inner);
    }

    /** One pass of the `loop`: print the status, read a line into a stack
        string and run it. The session from here is what the pass printed
        followed, unless the pass ended the session (`done`), by the session
        on the rest of the stream. A read that never completes blocks the
        session for good. */
    method Turn(rest: seq<bv8>, ghost entries: seq<Markers.MarkerEntry>, ghost s: MonitorState)
      returns (done: Option<SessionEnd>, printed: seq<Output>, consumed: nat)
      requires Valid() && markers.Elements() == entries && State() == s
      requires RunSafe(s, entries, rest)
      modifies this`pos, ram
      ensures Valid() && markers.Elements() == entries
      ensures done.Some? ==> Run(s, entries, rest) == Session(done.value, State(), printed)
      ensures done.None? ==>
                1 <= consumed <= |rest| && RunSafe(State(), entries, rest[consumed..]) &&
                var next := Run(State(), entries, rest[consumed..]);
                Run(s, entries, rest) == Session(next.end, next.state, printed + next.out)
    {
      printed := [Status(pos)];
      consumed := 0;
      if !Console.ReadCompletes(rest, LINE_LEN) {
        done := Some(Blocked);
        return;
      }
      RunTurnSafe(s, entries, rest);
      var outcome, out;
      outcome, out, consumed := RunNextLine(rest);
      RunTurn(s, entries, rest, StepResult(State(), outcome, out));
      printed := printed + out;
      done := match outcome
        case Quit => Some(Exited)
        case JumpedTo(target) => Some(Jumped(target))
        case Proceed => None;
    }

    /** `interactive`: greet, then loop printing the status, reading a line
        and running it, until `e`, a jump, or a read that never completes.
        The stream is every byte the serial port delivers. */
    method Interactive(stream: seq<bv8>) returns (end: SessionEnd, out: seq<Output>)
      requires Valid() && RunSafe(State(), markers.Elements(), stream)
      modifies this`pos, ram
      ensures Valid()
      ensures var run := Run(old(State()), markers.Elements(), stream);
              end == run.end && State() == run.state && out == [Welcome, HelpText] + run.out
    {
      ghost var entries := markers.Elements();
      ghost var s := State();
      ghost var whole := Run(s, entries, stream);
      out := [Welcome, HelpText];
      var rest := stream;
      while true
        invariant Valid() && markers.Elements() == entries && State() == s
        invariant RunSafe(s, entries, rest)
        invariant Run(s, entries, rest).end == whole.end && Run(s, entries, rest).state == whole.state
        invariant out + Run(s, entries, rest).out == [Welcome, HelpText] + whole.out
        decreases |rest|
      {
        ghost var before := out;
        var done, printed, consumed := Turn(rest, entries, s);
        out := out + printed;
        if done.Some? {
          end := done.value;
          return;
        }
        rest := rest[consumed..];
        s := State();
        AppendRegroup(before, printed, Run(s, entries, rest).out);
      }
    }
  }

  /** Regrouping the pieces of the session's output. */
  lemma AppendRegroup<T>(a: seq<T>, b: seq<T>, c: seq<T>)
    ensures a + b + c == a + (b + c)
  {
  }
}
