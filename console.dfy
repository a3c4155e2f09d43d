/** The console of src/console.rs: the interrupt-guarded slot holding the
    serial handle, and `read_line`, which fills a stack string from the serial
    byte stream. The byte stream is the sequence of bytes the serial port will
    deliver; critical sections are not modelled. */
module Console {
  import opened Wrappers
  import Strings

  /** The `CONSOLE` slot: `Mutex<RefCell<Option<UsbSerial>>>`. */
  class ConsoleCell<H> {
    var slot: Option<H>

    /** The static starts empty. */
    constructor ()
      ensures slot == None
    {
      slot := None;
    }

    /** `set_console`: replaces the slot's contents, whatever they were. */
    method SetConsole(console: H)
      modifies this
      ensures slot == Some(console)
    {
      slot := Some(console);
    }
  }

  /** A line ends at CR, LF, EOF (0x04) or NUL. */
  predicate IsTerminator(b: bv8)
  {
    b == 0x0D || b == 0x0A || b == 0x04 || b == 0x00
  }

  /** The bytes a `read_line::<cap>` stores: the stream up to its first
      terminator, at most `cap` of them. */
  function LineBytes(input: seq<bv8>, cap: nat): (line: seq<bv8>)
    ensures |line| <= cap && |line| <= |input| && line == input[..|line|]
    ensures forall i :: 0 <= i < |line| ==> !IsTerminator(line[i])
    ensures |line| == cap || |line| == |input| || IsTerminator(input[|line|])
  {
    if cap == 0 || input == [] || IsTerminator(input[0]) then []
    else [input[0]] + LineBytes(input[1..], cap - 1)
  }

  /** Any prefix length that stops where `read_line` stops is the one
      `LineBytes` picks. */
  lemma LineBytesUnique(input: seq<bv8>, cap: nat, k: nat)
    requires k <= cap && k <= |input|
    requires forall i :: 0 <= i < k ==> !IsTerminator(input[i])
    requires k == cap || (k < |input| && IsTerminator(input[k]))
    ensures LineBytes(input, cap) == input[..k]
  {
    var line := LineBytes(input, cap);
    assert |line| == k;
  }

  /** The stream delivers enough bytes for the read to finish: the cap is
      reached, or a terminator arrives first. Otherwise the source blocks for
      ever. */
  predicate ReadCompletes(input: seq<bv8>, cap: nat)
  {
    ReadCompletesFrom(input, cap, 0)
  }

  /** Having read `i` bytes, none of them a terminator, the read finishes. */
  predicate ReadCompletesFrom(input: seq<bv8>, cap: nat, i: nat)
    decreases cap - i
  {
    i >= cap || (i < |input| && (IsTerminator(input[i]) || ReadCompletesFrom(input, cap, i + 1)))
  }

  /** A read completes exactly when the stream holds `cap` bytes or a
      terminator somewhere. */
  lemma ReadCompletesIff(input: seq<bv8>, cap: nat)
    ensures ReadCompletes(input, cap) <==>
            cap <= |input| || exists i :: 0 <= i < |input| && IsTerminator(input[i])
  {
    if exists i :: 0 <= i < |input| && IsTerminator(input[i]) {
      var i :| 0 <= i < |input| && IsTerminator(input[i]);
      ReadCompletesFromAt(input, cap, 0, i);
    } else if cap <= |input| {
      ReadCompletesFromAt(input, cap, 0, cap);
    } else {
      ReadCompletesFromNever(input, cap, 0);
    }
  }

  /** From `j`, a read reaches the cap or the terminator at `k`, whichever
      comes first, as long as the stream lasts that long. */
  lemma {:induction false} ReadCompletesFromAt(input: seq<bv8>, cap: nat, j: nat, k: nat)
    requires j <= k && (k == cap || (k < |input| && IsTerminator(input[k])))
    requires k <= |input| || k == cap
    requires k < |input| || cap <= |input|
    ensures ReadCompletesFrom(input, cap, j)
    decreases k - j
  {
    if j < k && j < cap {
      ReadCompletesFromAt(input, cap, j + 1, k);
    }
  }

  /** A stream shorter than the cap and without a terminator never lets the
      read finish. */
  lemma {:induction false} ReadCompletesFromNever(input: seq<bv8>, cap: nat, j: nat)
    requires |input| < cap && j <= |input|
    requires forall i :: 0 <= i < |input| ==> !IsTerminator(input[i])
    ensures !ReadCompletesFrom(input, cap, j)
    decreases |input| - j
  {
    if j < |input| {
      ReadCompletesFromNever(input, cap, j + 1);
    }
  }

  /** While no terminator has arrived, a read that completes has more bytes
      to deliver before its cap. */
  lemma ReadCompletesMore(input: seq<bv8>, cap: nat, i: nat)
    requires ReadCompletes(input, cap) && i < cap
    requires forall j :: 0 <= j < i && j < |input| ==> !IsTerminator(input[j])
    ensures i < |input|
  {
    if i >= |input| {
      ReadCompletesFromNever(input, cap, 0);
    }
  }

  /** A line typed with a carriage return after it: the read completes,
      stores exactly the typed bytes and takes the return as well. */
  lemma TerminatedLine(text: seq<bv8>, rest: seq<bv8>, cap: nat)
    requires |text| < cap
    requires forall i :: 0 <= i < |text| ==> !IsTerminator(text[i])
    ensures var stream := text + [0x0D] + rest;
            ReadCompletes(stream, cap) && LineBytes(stream, cap) == text &&
            Consumed(stream, cap) == |text| + 1
  {
    var stream := text + [0x0D] + rest;
    assert IsTerminator(stream[|text|]);
    ReadCompletesIff(stream, cap);
    LineBytesUnique(stream, cap, |text|);
    assert stream[..|text|] == text;
  }

  /** How many bytes a read takes from the stream: the stored ones, plus the
      terminator when it stopped at one. */
  function Consumed(input: seq<bv8>, cap: nat): nat
  {
    var k := |LineBytes(input, cap)|;
    if k == cap then k else k + 1
  }

  /** A read that completes takes at least one byte, when the buffer has
      room for one, and never more than the stream holds. */
  lemma ConsumedWithin(input: seq<bv8>, cap: nat)
    requires ReadCompletes(input, cap) && cap > 0
    ensures 1 <= Consumed(input, cap) <= |input|
  {
    var k := |LineBytes(input, cap)|;
    if k < cap && k == |input| {
      ReadCompletesFromNever(input, cap, 0);
    }
  }

  /** The stack string `read_line::<cap>()` returns for the stream: the
      string tag, the line read and zero padding, `initial_len` left at 0.
      It renders as the line. */
  function LineRead(input: seq<bv8>, cap: nat): (line: Strings.StackStr)
    ensures |line.inner| == cap
    ensures Strings.AsRef(line) == LineBytes(input, cap)
  {
    ReadLineAsRef(input, cap);
    var bytes := LineBytes(input, cap);
    Strings.StackStr(Strings.STR_MAGIC, bytes + Strings.Zeros(cap - |bytes|), 0)
  }

  /** `read_line::<cap>()`: starting from `PStackStr::from_str("")`, stores
      each byte read until a terminator (read but not stored) or until the
      buffer is full. It never touches `initial_len`, which stays 0. */
  method ReadLine(cap: nat, input: seq<bv8>) returns (line: Strings.StackStr, consumed: nat)
    requires ReadCompletes(input, cap)
    ensures consumed == Consumed(input, cap) && consumed <= |input|
    ensures line == LineRead(input, cap)
  {
    var ret := Strings.FromStr(cap, []);
    var inner := new bv8[cap](_ => 0);
    var i := 0;
    consumed := 0;
    while i < cap
      invariant i <= cap && i <= |input| && consumed == i
      invariant inner[..i] == input[..i]
      invariant forall j :: i <= j < cap ==> inner[j] == 0
      invariant forall j :: 0 <= j < i ==> !IsTerminator(input[j])
    {
      ReadCompletesMore(input, cap, i);
      var read := input[consumed];
      consumed := consumed + 1;
      if IsTerminator(read) {
        break;
      }
      inner[i] := read;
      i := i + 1;
    }
    StoppedRead(input, cap, i, inner[..]);
    line := ret.(inner := inner[..]);
  }

  /** Where the read loop stops, its buffer holds the line and zero
      padding. */
  lemma StoppedRead(input: seq<bv8>, cap: nat, i: nat, inner: seq<bv8>)
    requires i <= cap && i <= |input| && |inner| == cap
    requires inner[..i] == input[..i] && forall j :: i <= j < cap ==> inner[j] == 0
    requires forall j :: 0 <= j < i ==> !IsTerminator(input[j])
    requires i == cap || (i < |input| && IsTerminator(input[i]))
    ensures |LineBytes(input, cap)| == i
    ensures inner == LineBytes(input, cap) + Strings.Zeros(cap - i)
  {
    LineBytesUnique(input, cap, i);
    assert inner == input[..i] + Strings.Zeros(cap - i);
  }

  /** The rendered line (`as_ref`) is exactly the bytes read before the
      terminator: they contain no zero byte, so only the padding is dropped. */
  lemma ReadLineAsRef(input: seq<bv8>, cap: nat)
    ensures var line := LineBytes(input, cap);
            Strings.TrimTrailingNul(line + Strings.Zeros(cap - |line|)) == line
  {
    var line := LineBytes(input, cap);
    Strings.TrimTrailingNulPadding(line, cap - |line|);
    Strings.TrimTrailingNulNoZeros(line);
  }
}
