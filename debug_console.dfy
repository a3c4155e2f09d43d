/** The debug console of src/debug/console.rs: the same slot and
    `read_line`, except that the loop also counts the stored bytes in the
    string's length field (`ret.len`, declared as `initial_len`). */
module DebugConsole {
  import Strings
  import Console

  /** `read_line::<cap>()` of the debug console: the stored bytes, in order,
      then zeros, with the length field counting exactly the stored bytes, so
      the result is the stack string built from the line. */
  method ReadLine(cap: nat, input: seq<bv8>) returns (line: Strings.StackStr, consumed: nat)
    requires Console.ReadCompletes(input, cap)
    ensures consumed == Console.Consumed(input, cap) && consumed <= |input|
    ensures line == Strings.FromStr(cap, Console.LineBytes(input, cap))
    ensures Strings.AsRef(line) == Console.LineBytes(input, cap)
  {
    var ret := Strings.FromStr(cap, []);
    var inner := new bv8[cap](_ => 0);
    var len := ret.initialLen;
    var i := 0;
    consumed := 0;
    while i < cap
      invariant i <= cap && i <= |input| && consumed == i && len == i
      invariant inner[..i] == input[..i]
      invariant forall j :: i <= j < cap ==> inner[j] == 0
      invariant forall j :: 0 <= j < i ==> !Console.IsTerminator(input[j])
    {
      Console.ReadCompletesMore(input, cap, i);
      var read := input[consumed];
      consumed := consumed + 1;
      if Console.IsTerminator(read) {
        break;
      }
      inner[i] := read;
      len := len + 1;
      i := i + 1;
    }
    StoppedLine(input, cap, i, inner[..]);
    line := ret.(inner := inner[..], initialLen := len);
  }

  /** Where the loop stops, its buffer and count are the stack string built
      from the line. */
  lemma StoppedLine(input: seq<bv8>, cap: nat, i: nat, inner: seq<bv8>)
    requires i <= cap && i <= |input| && |inner| == cap
    requires inner[..i] == input[..i] && forall j :: i <= j < cap ==> inner[j] == 0
    requires forall j :: 0 <= j < i ==> !Console.IsTerminator(input[j])
    requires i == cap || (i < |input| && Console.IsTerminator(input[i]))
    ensures Strings.FromStr(cap, Console.LineBytes(input, cap)) == Strings.StackStr(Strings.STR_MAGIC, inner, i)
    ensures Strings.AsRef(Strings.StackStr(Strings.STR_MAGIC, inner, i)) == Console.LineBytes(input, cap)
  {
    Console.StoppedRead(input, cap, i, inner);
    FromStrOfLine(input, cap);
  }

  /** A stack string built from a line is the line followed by zero padding. */
  lemma FromStrOfLine(input: seq<bv8>, cap: nat)
    ensures var bytes := Console.LineBytes(input, cap);
            var str := Strings.FromStr(cap, bytes);
            str == Strings.StackStr(Strings.STR_MAGIC, bytes + Strings.Zeros(cap - |bytes|), |bytes|)
            && Strings.AsRef(str) == bytes
  {
    var bytes := Console.LineBytes(input, cap);
    assert bytes[..|bytes|] == bytes;
    Console.ReadLineAsRef(input, cap);
  }
}
