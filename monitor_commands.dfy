/** The command syntax the hallway monitor's help text advertises
    (src/debug/interactive.rs), and what the monitor makes of lines typed in
    it: `w0xHH,0xHH,...` stores exactly those bytes, `cw0xHH,0xLL` copies
    `0xHH` `0xLL` times, and the marker indices `lm` lists in decimal are
    read back by `m` in hexadecimal. */
module MonitorCommands {
  import opened Wrappers
  import opened MonitorParse
  import opened MonitorSpec
  import Strings
  import Markers

  /** A byte value as two lower-case hexadecimal digits. */
  function Hex2(b: nat): (h: seq<bv8>)
    requires b < 256
    ensures |h| == 2 && AllDigits(h, 16) && IsAscii(h)
    ensures DigitsValue(h, 16) == b
  {
    var h := [HexDigit(b / 16), HexDigit(b % 16)];
    assert h[..1] == [h[0]] && h[..1][..0] == [];
    assert DigitsValue(h[..1], 16) == b / 16;
    h
  }

  /** `"0x"` and the two digits: a token as the help text writes it. */
  function HexToken(b: nat): (t: seq<bv8>)
    requires b < 256
    ensures |t| == 4 && IsAscii(t) && t[1] == 0x78
  {
    ZERO_X + Hex2(b)
  }

  /** A token field that reads `0xHH` parses as the value `0xHH`. */
  lemma HexTokenParses(b: nat, default: int)
    requires b < 256
    ensures ParseOr(HexToken(b), 16, default) == b
  {
    TrimZeroXDigits(Hex2(b));
    FromStrRadixDigits(Hex2(b), 16);
  }

  predicate AllBytes(bs: seq<nat>)
  {
    forall k :: 0 <= k < |bs| ==> bs[k] < 256
  }

  /** The line `w0xHH,0xHH,...` for the values `bs`: five bytes per value,
      a separator (`w` for the first value, `,` for the others) and the
      value's token. */
  function WriteLine(bs: seq<nat>): (line: seq<bv8>)
    requires AllBytes(bs)
    ensures |line| == 5 * |bs|
  {
    seq(5 * |bs|, i requires 0 <= i < 5 * |bs| =>
      var k, j := i / 5, i % 5;
      if j == 0 then (if k == 0 then 0x77 else 0x2C) else HexToken(bs[k])[j - 1])
  }

  /** Byte `j` of value `k`'s token. */
  lemma WriteLineByte(bs: seq<nat>, k: nat, j: nat)
    requires AllBytes(bs) && k < |bs| && j < 4
    ensures WriteLine(bs)[5 * k + 1 + j] == HexToken(bs[k])[j]
  {
    var i := 5 * k + 1 + j;
    assert i / 5 == k && i % 5 == j + 1;
  }

  /** Value `k` of a write line sits at `5k + 1`, after its separator. */
  lemma WriteLineToken(bs: seq<nat>, k: nat)
    requires AllBytes(bs) && k < |bs|
    ensures WriteLine(bs)[5 * k + 1..5 * k + 5] == HexToken(bs[k])
  {
    forall j | 0 <= j < 4
      ensures WriteLine(bs)[5 * k + 1 + j] == HexToken(bs[k])[j]
    {
      WriteLineByte(bs, k, j);
    }
  }

  /** A write line is ASCII and starts with `w`. */
  lemma WriteLineShape(bs: seq<nat>)
    requires AllBytes(bs) && bs != []
    ensures IsAscii(WriteLine(bs)) && WriteLine(bs)[0] == 0x77
  {
    var line := WriteLine(bs);
    forall i | 0 <= i < |line|
      ensures line[i] < 0x80
    {
      var k, j := i / 5, i % 5;
      if j != 0 {
        assert line[i] == HexToken(bs[k])[j - 1];
      }
    }
  }

  /** The buffer holds the `x` of a `0x` where value `k`'s token starts. */
  predicate TokenMarkAt(raw: seq<bv8>, k: nat)
  {
    5 * k + 2 < |raw| && raw[5 * k + 2] == 0x78
  }

  /** From the start of value `k` on, the `w` loop over a line of `n` values
      whose tokens all start with `0x` visits one four-byte token per value,
      each one past its separator. */
  lemma {:induction false} WriteLineTokens(n: nat, raw: seq<bv8>, k: nat)
    requires k <= n && forall j :: k <= j < n ==> TokenMarkAt(raw, j)
    ensures WriteLoopSafe(5 * n, raw, 5 * k)
    ensures var ts := WriteTokens(5 * n, raw, 5 * k);
            |ts| == n - k && forall j :: 0 <= j < |ts| ==> ts[j] == (5 * (k + j) + 1, 4)
    decreases n - k
  {
    if k < n {
      assert TokenMarkAt(raw, k);
      assert 5 * k + 1 + TokenWidth(raw[5 * k + 2]) == 5 * (k + 1);
      WriteLineTokens(n, raw, k + 1);
    }
  }

  /** Value `k` of a write line parses back to itself. */
  lemma WriteLineValue(bs: seq<nat>, k: nat)
    requires AllBytes(bs) && k < |bs|
    ensures WriteToken(WriteLine(bs), 5 * k + 1, 4) == bs[k]
  {
    WriteLineShape(bs);
    WriteLineToken(bs, k);
    assert Field(WriteLine(bs), 5 * k + 1, 4) == HexToken(bs[k]);
    HexTokenParses(bs[k], 0);
  }

  /** The tokens at `5k + 1` of a write line parse as its values. */
  lemma WriteLineTokenValues(bs: seq<nat>, ts: seq<(nat, nat)>)
    requires AllBytes(bs) && |ts| == |bs|
    requires forall j :: 0 <= j < |ts| ==> ts[j] == (5 * j + 1, 4)
    ensures forall k :: 0 <= k < |ts| ==> bs[k] == WriteToken(WriteLine(bs), ts[k].0, ts[k].1)
  {
    forall k | 0 <= k < |ts|
      ensures bs[k] == WriteToken(WriteLine(bs), ts[k].0, ts[k].1)
    {
      WriteLineValue(bs, k);
    }
  }

  /** Every token of a write line starts with `0x`. */
  lemma WriteLineMarks(bs: seq<nat>, raw: seq<bv8>)
    requires AllBytes(bs) && 5 * |bs| <= |raw| && raw[..5 * |bs|] == WriteLine(bs)
    ensures forall j :: 0 <= j < |bs| ==> TokenMarkAt(raw, j)
  {
    forall j | 0 <= j < |bs|
      ensures TokenMarkAt(raw, j)
    {
      WriteLineToken(bs, j);
      assert raw[5 * j + 2] == WriteLine(bs)[5 * j + 2] == HexToken(bs[j])[1];
    }
  }

  /** From the start of the line, the `w` loop visits token `j` at `5j + 1`. */
  lemma WriteLineWalk(n: nat, raw: seq<bv8>)
    requires forall j :: 0 <= j < n ==> TokenMarkAt(raw, j)
    ensures WriteLoopSafe(5 * n, raw, 0)
    ensures var ts := WriteTokens(5 * n, raw, 0);
            |ts| == n && forall j :: 0 <= j < |ts| ==> ts[j] == (5 * j + 1, 4)
  {
    WriteLineTokens(n, raw, 0);
    var ts := WriteTokens(5 * n, raw, 0);
    forall j | 0 <= j < |ts|
      ensures ts[j] == (5 * j + 1, 4)
    {
      assert 5 * (0 + j) + 1 == 5 * j + 1;
    }
  }

  /** `w0xHH,0xHH,...` stores exactly the values typed, in order. */
  lemma TypedWriteValues(bs: seq<nat>, raw: seq<bv8>)
    requires AllBytes(bs) && bs != [] && 5 * |bs| <= LINE_LEN
    requires raw == WriteLine(bs) + Strings.Zeros(LINE_LEN - 5 * |bs|)
    ensures Dispatch(WriteLine(bs)) == Some(WriteCmd)
    ensures WriteLoopSafe(|WriteLine(bs)|, raw, 0)
    ensures WriteValues(WriteLine(bs), raw) == bs
  {
    var line := WriteLine(bs);
    assert Dispatch(line) == Some(WriteCmd) by {
      WriteLineShape(bs);
      DispatchByFirstBytes(line);
    }
    assert raw[..5 * |bs|] == line;
    WriteLineMarks(bs, raw);
    WriteLineWalk(|bs|, raw);
    var ts := WriteTokens(|line|, raw, 0);
    WriteLineTokenValues(bs, ts);
    WriteValuesOfTokens(line, raw, ts, bs);
  }

  /** With the cursor at `p`, `w0xHH,0xHH,...` stores the typed bytes at
      `p`, `p + 1`, ... and changes nothing else. */
  lemma TypedWriteStores(s: MonitorState, entries: seq<Markers.MarkerEntry>, bs: seq<nat>, raw: seq<bv8>)
    requires AllBytes(bs) && bs != [] && 5 * |bs| <= LINE_LEN
    requires raw == WriteLine(bs) + Strings.Zeros(LINE_LEN - 5 * |bs|)
    requires s.pos.Some? && 0 <= s.pos.value && s.pos.value + |bs| <= |s.mem|
    ensures StepSafe(s, WriteLine(bs), raw)
    ensures var r := Step(s, entries, WriteLine(bs), raw);
            var p := s.pos.value;
            r.state.pos == s.pos && |r.state.mem| == |s.mem|
            && forall a :: 0 <= a < |s.mem| ==>
                 r.state.mem[a] as int == if p <= a < p + |bs| then bs[a - p] else s.mem[a] as int
  {
    TypedWriteValues(bs, raw);
    StepWrite(s, entries, WriteLine(bs), raw);
  }

  /** The line `cw0xHH` followed, when a count is typed, by `,0xLL`. */
  function CopyLine(b: nat, count: nat, typed: bool): (line: seq<bv8>)
    requires b < 256 && count < 256
    ensures |line| == if typed then 11 else 6
  {
    [0x63, 0x77] + HexToken(b) + (if typed then [0x2C] + HexToken(count) else [])
  }

  /** Where the parts of a copy line sit. */
  lemma CopyLineShape(b: nat, count: nat, typed: bool)
    requires b < 256 && count < 256
    ensures var line := CopyLine(b, count, typed);
            IsAscii(line) && line[0] == 0x63 && line[1] == 0x77 && line[3] == 0x78
            && line[2..6] == HexToken(b) && (typed ==> line[7..11] == HexToken(count))
  {
    var line := CopyLine(b, count, typed);
    forall i | 0 <= i < |line|
      ensures line[i] < 0x80
    {
      if 2 <= i < 6 {
        assert line[i] == HexToken(b)[i - 2];
      } else if 7 <= i {
        assert line[i] == HexToken(count)[i - 7];
      }
    }
  }

  /** `cw0xHH,0xLL` copies the byte `0xHH`, `0xLL` times; `cw0xHH` copies it
      once. */
  lemma TypedCopyArgs(b: nat, count: nat, typed: bool, raw: seq<bv8>)
    requires b < 256 && count < 256
    requires raw == CopyLine(b, count, typed) + Strings.Zeros(LINE_LEN - |CopyLine(b, count, typed)|)
    ensures Dispatch(CopyLine(b, count, typed)) == Some(CopyWriteCmd)
    ensures |raw| == LINE_LEN && CopyByte(CopyLine(b, count, typed), raw) == b
    ensures CopyCount(CopyLine(b, count, typed), raw) == if typed then count else 1
  {
    var line := CopyLine(b, count, typed);
    CopyLineShape(b, count, typed);
    assert Dispatch(line) == Some(CopyWriteCmd) by {
      DispatchByFirstBytes(line);
    }
    assert raw[3] == 0x78;
    assert CopyByte(line, raw) == b by {
      assert Field(line, 2, 4) == HexToken(b);
      HexTokenParses(b, 0);
    }
    if typed {
      assert Field(line, 7, 4) == HexToken(count);
      HexTokenParses(count, 1);
    }
  }

  /** The bytes of `w0x41,0b01`. */
  const BINARY_LOOKING: seq<bv8> := [0x77, 0x30, 0x78, 0x34, 0x31, 0x2C, 0x30, 0x62, 0x30, 0x31]

  /** The `w` loop over `w0x41,0b01` visits `0x41`, then `0b` (two bytes,
      since no `x` follows its `0`), then the `1` left before the end. */
  lemma BinaryLookingTokens(raw: seq<bv8>)
    requires raw == BINARY_LOOKING + Strings.Zeros(LINE_LEN - 10)
    ensures WriteLoopSafe(10, raw, 0)
    ensures WriteTokens(10, raw, 0) == [(1, 4), (6, 2), (9, 2)]
  {
    assert raw[2] == 0x78 && raw[7] == 0x62 && raw[10] == 0;
    assert WriteTokens(10, raw, 8) == [(9, 2)];
    assert WriteTokens(10, raw, 5) == [(6, 2), (9, 2)];
  }

  /** The line is ASCII, so its fields are plain slices. */
  lemma BinaryLookingFields()
    ensures Field(BINARY_LOOKING, 1, 4) == HexToken(0x41)
    ensures Field(BINARY_LOOKING, 6, 2) == [0x30, 0x62]
    ensures Field(BINARY_LOOKING, 9, 2) == [0x31]
  {
    assert IsAscii(BINARY_LOOKING);
  }

  /** `0b` is two hexadecimal digits, worth 0x0B. */
  lemma ZeroBIsHex()
    ensures ParseOr([0x30, 0x62], 16, 0) == 0x0B
  {
    var zeroB: seq<bv8> := [0x30, 0x62];
    assert zeroB[..1] == [0x30] && [0x30][..0] == [];
    FromStrRadixDigits(zeroB, 16);
  }

  /** `1` is worth 1. */
  lemma OneIsHex()
    ensures ParseOr([0x31], 16, 0) == 0x01
  {
    var one: seq<bv8> := [0x31];
    assert one[..0] == [];
    FromStrRadixDigits(one, 16);
  }

  /** `0x41` reads as 0x41, `0b` as 0x0B, and `1` as 1. */
  lemma BinaryLookingValues()
    ensures WriteToken(BINARY_LOOKING, 1, 4) == 0x41
    ensures WriteToken(BINARY_LOOKING, 6, 2) == 0x0B
    ensures WriteToken(BINARY_LOOKING, 9, 2) == 0x01
  {
    BinaryLookingFields();
    HexTokenParses(0x41, 0);
    ZeroBIsHex();
    OneIsHex();
  }

  /** The values the `w` loop stores are those of the tokens it visits. */
  lemma WriteValuesOfTokens(input: seq<bv8>, raw: seq<bv8>, ts: seq<(nat, nat)>, vs: seq<nat>)
    requires WriteLoopSafe(|input|, raw, 0) && WriteTokens(|input|, raw, 0) == ts
    requires |vs| == |ts| && forall k :: 0 <= k < |ts| ==> vs[k] == WriteToken(input, ts[k].0, ts[k].1)
    ensures WriteValues(input, raw) == vs
  {
  }

  /** The same, for a line of three tokens. */
  lemma WriteValuesOfThreeTokens(input: seq<bv8>, raw: seq<bv8>, t0: (nat, nat), t1: (nat, nat), t2: (nat, nat), v0: nat, v1: nat, v2: nat)
    requires WriteLoopSafe(|input|, raw, 0) && WriteTokens(|input|, raw, 0) == [t0, t1, t2]
    requires v0 == WriteToken(input, t0.0, t0.1)
    requires v1 == WriteToken(input, t1.0, t1.1)
    requires v2 == WriteToken(input, t2.0, t2.1)
    ensures WriteValues(input, raw) == [v0, v1, v2]
  {
    var ts, vs := [t0, t1, t2], [v0, v1, v2];
    forall k | 0 <= k < |ts|
      ensures vs[k] == WriteToken(input, ts[k].0, ts[k].1)
    {
      if k == 0 {
      } else if k == 1 {
      } else {
      }
    }
    WriteValuesOfTokens(input, raw, ts, vs);
  }

  /** The help text writes the extra `w` tokens as `<0bBYTE>`, but every
      token is read in hexadecimal: `w0x41,0b01` stores 0x41, then `0b`
      read as 0x0B, then the `1` left over. */
  lemma BinaryLookingToken(raw: seq<bv8>)
    requires raw == BINARY_LOOKING + Strings.Zeros(LINE_LEN - 10)
    ensures Dispatch(BINARY_LOOKING) == Some(WriteCmd) && WriteLoopSafe(10, raw, 0)
    ensures WriteValues(BINARY_LOOKING, raw) == [0x41, 0x0B, 0x01]
  {
    assert Dispatch(BINARY_LOOKING) == Some(WriteCmd) by {
      DispatchByFirstBytes(BINARY_LOOKING);
    }
    BinaryLookingTokens(raw);
    BinaryLookingValues();
    assert |BINARY_LOOKING| == 10;
    WriteValuesOfThreeTokens(BINARY_LOOKING, raw, (1, 4), (6, 2), (9, 2), 0x41, 0x0B, 0x01);
  }

  /** The text `{}` prints for a marker index below 100. */
  function Decimal(k: nat): (d: seq<bv8>)
    requires k < 100
    ensures 1 <= |d| <= 2 && IsAscii(d) && AllDigits(d, 10)
    ensures DigitsValue(d, 10) == k
  {
    if k < 10 then
      var d := [HexDigit(k)];
      assert d[..0] == [];
      d
    else
      var d := [HexDigit(k / 10), HexDigit(k % 10)];
      assert d[..1] == [d[0]] && d[..1][..0] == [];
      assert DigitsValue(d[..1], 10) == k / 10;
      d
  }

  /** Decimal digits read in hexadecimal: a one-digit index reads as
      itself, and the indices 10 to 15 read as `k + 6`. */
  lemma DecimalAsHex(k: nat)
    requires k < Markers.NUM_MARKERS
    ensures AllDigits(Decimal(k), 16)
    ensures DigitsValue(Decimal(k), 16) == if k < 10 then k else k + 6
  {
    var d := Decimal(k);
    if k < 10 {
      assert d[..0] == [];
    } else {
      assert d[..1] == [d[0]] && d[..1][..0] == [];
      assert DigitsValue(d[..1], 16) == 1;
    }
  }

  /** `m` followed by an index as `lm` lists it reads that index back when it
      is a single digit, and reads `k + 6` for the indices 10 to 15. */
  lemma ListedIndexParse(k: nat)
    requires k < Markers.NUM_MARKERS
    ensures HelperParse([0x6D] + Decimal(k), 1, 8, 16, 0) == if k < 10 then k else k + 6
  {
    var d := Decimal(k);
    var input := [0x6D] + d;
    assert IsAscii(input) by {
      forall i | 0 <= i < |input| ensures input[i] < 0x80 {
        if i > 0 { assert input[i] == d[i - 1]; }
      }
    }
    assert Field(input, 1, 8) == d;
    DecimalAsHex(k);
    FromStrRadixDigits(d, 16);
    assert TrimStart0x(d) == d by {
      assert |d| < 2 || DigitValue(d[1]) >= 0;
    }
  }

  /** Typing `m` and a single-digit index from the listing points the cursor
      at that marker. */
  lemma ListedIndexSelects(s: MonitorState, entries: seq<Markers.MarkerEntry>, k: nat, raw: seq<bv8>)
    requires k < 10 && k < |entries| && |raw| == LINE_LEN
    ensures Dispatch([0x6D] + Decimal(k)) == Some(MarkerCmd)
    ensures Step(s, entries, [0x6D] + Decimal(k), raw)
            == StepResult(s.(pos := Some(entries[k].addr)), Proceed, [PointingTo(entries[k].name)])
  {
    DispatchMarker(Decimal(k));
    ListedIndexParse(k);
    StepMarker(s, entries, [0x6D] + Decimal(k), raw);
  }

  /** Typing `m` and a listed index from 10 to 15 never selects it: the
      decimal digits are read as hexadecimal, past the end of the table. */
  lemma ListedIndexAboveNineMisses(s: MonitorState, entries: seq<Markers.MarkerEntry>, k: nat, raw: seq<bv8>)
    requires 10 <= k < Markers.NUM_MARKERS && |entries| <= Markers.NUM_MARKERS && |raw| == LINE_LEN
    ensures Dispatch([0x6D] + Decimal(k)) == Some(MarkerCmd)
    ensures Step(s, entries, [0x6D] + Decimal(k), raw) == StepResult(s, Proceed, [MarkerNotFound])
  {
    DispatchMarker(Decimal(k));
    ListedIndexParse(k);
    StepMarker(s, entries, [0x6D] + Decimal(k), raw);
  }
}
