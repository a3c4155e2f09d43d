/** Number parsing of the hallway monitor (src/debug/interactive.rs):
    `helper_parse` and the pieces of Rust's `str` and `usize` it relies on.
    A `&str` is its UTF-8 bytes. The kernel runs on a 16-bit AVR, so `usize`
    is 16 bits wide. */
module MonitorParse {
  import opened Wrappers

  /** `usize::MAX` on the 16-bit target. */
  const USIZE_MAX: nat := 0xFFFF

  /** The bytes of `"0x"`. */
  const ZERO_X: seq<bv8> := [0x30, 0x78]

  /** `str::starts_with` for an ASCII pattern. */
  predicate StartsWith(s: seq<bv8>, prefix: seq<bv8>)
  {
    |prefix| <= |s| && forall i :: 0 <= i < |prefix| ==> s[i] == prefix[i]
  }

  /** `str::is_char_boundary(i)`: the ends of the string, or a byte that is
      not a UTF-8 continuation byte. */
  predicate IsCharBoundary(s: seq<bv8>, i: nat)
  {
    i == 0 || i == |s| || (i < |s| && (s[i] < 0x80 || s[i] >= 0xC0))
  }

  /** `str::split_at_checked(mid)`: `None` past the end or inside a
      character. */
  function SplitAtChecked(s: seq<bv8>, mid: nat): (r: Option<(seq<bv8>, seq<bv8>)>)
  {
    if mid <= |s| && IsCharBoundary(s, mid) then Some((s[..mid], s[mid..])) else None
  }

  /** The split succeeds exactly at a character boundary within `s`, and
      then cuts `s` at `mid`: the halves put back together are `s`. */
  lemma SplitAtCheckedJoins(s: seq<bv8>, mid: nat)
    ensures SplitAtChecked(s, mid).Some? <==> mid <= |s| && IsCharBoundary(s, mid)
    ensures SplitAtChecked(s, mid).Some? ==>
            var halves := SplitAtChecked(s, mid).value;
            |halves.0| == mid && halves.0 + halves.1 == s
  {
  }

  /** `m` copies of `"0x"`. */
  function ZeroXs(m: nat): (z: seq<bv8>)
    ensures |z| == 2 * m
  {
    if m == 0 then [] else ZERO_X + ZeroXs(m - 1)
  }

  /** `trim_start_matches("0x")`: removes leading `"0x"`s. */
  function TrimStart0x(s: seq<bv8>): (r: seq<bv8>)
    ensures |r| <= |s|
    decreases |s|
  {
    if StartsWith(s, ZERO_X) then TrimStart0x(s[2..]) else s
  }

  /** What `trim_start_matches("0x")` keeps does not start with `"0x"`. */
  lemma {:induction false} TrimStart0xStops(s: seq<bv8>)
    ensures !StartsWith(TrimStart0x(s), ZERO_X)
    decreases |s|
  {
    if StartsWith(s, ZERO_X) {
      TrimStart0xStops(s[2..]);
    }
  }

  /** `trim_start_matches("0x")` removes a whole run of leading `"0x"`s and
      nothing after it. */
  lemma {:induction false} TrimStart0xDropsRun(m: nat, r: seq<bv8>)
    requires !StartsWith(r, ZERO_X)
    ensures TrimStart0x(ZeroXs(m) + r) == r
  {
    if m > 0 {
      var rest := ZeroXs(m - 1) + r;
      assert ZeroXs(m) + r == ZERO_X + rest;
      assert (ZERO_X + rest)[2..] == rest;
      TrimStart0xDropsRun(m - 1, r);
    }
  }

  /** `char::to_digit(36)` on a byte: the digit's value, or -1. */
  function DigitValue(c: bv8): int
  {
    if 0x30 <= c <= 0x39 then (c - 0x30) as int
    else if 0x61 <= c <= 0x7A then (c - 0x61) as int + 10
    else if 0x41 <= c <= 0x5A then (c - 0x41) as int + 10
    else -1
  }

  predicate AllDigits(ds: seq<bv8>, radix: nat)
  {
    forall i :: 0 <= i < |ds| ==> 0 <= DigitValue(ds[i]) < radix
  }

  /** The value of a digit string, most significant digit first. */
  function DigitsValue(ds: seq<bv8>, radix: nat): nat
    requires AllDigits(ds, radix)
  {
    if ds == [] then 0
    else DigitsValue(ds[..|ds| - 1], radix) * radix + DigitValue(ds[|ds| - 1])
  }

  /** `usize::from_str_radix(s, radix)`: an optional `+`, then at least one
      digit of the radix; `None` on anything else and on a value above
      `usize::MAX`. */
  function FromStrRadix(s: seq<bv8>, radix: nat): (r: Option<nat>)
    requires 2 <= radix <= 36
    ensures r.Some? ==> r.value <= USIZE_MAX
    ensures s == [] ==> r == None
  {
    if s == [] then None
    else
      var ds := if s[0] == 0x2B then s[1..] else s;
      if ds != [] && AllDigits(ds, radix) && DigitsValue(ds, radix) <= USIZE_MAX
      then Some(DigitsValue(ds, radix))
      else None
  }

  predicate IsAscii(s: seq<bv8>)
  {
    forall i :: 0 <= i < |s| ==> s[i] < 0x80
  }

  /** The field `helper_parse` looks at: `split_at_checked(offset)` (the empty
      string when that fails), then the first `len` bytes of the rest (all of
      it when that split fails). On ASCII input this is the slice
      `input[offset..min(offset + len, |input|)]`. */
  function Field(input: seq<bv8>, offset: nat, len: nat): (f: seq<bv8>)
    ensures offset > |input| ==> f == []
    ensures offset <= |input| && IsAscii(input) ==>
              f == input[offset..Min(offset + len, |input|)]
  {
    var rest := match SplitAtChecked(input, offset)
      case Some(halves) => halves.1
      case None => [];
    match SplitAtChecked(rest, len)
    case Some(halves) => halves.0
    case None => rest
  }

  /** The parse of a field: leading `"0x"`s dropped, then `from_str_radix`,
      with `default` on failure. */
  function ParseOr(field: seq<bv8>, radix: nat, default: int): (r: int)
    requires 2 <= radix <= 36
    ensures r == default || 0 <= r <= USIZE_MAX
    ensures field == [] ==> r == default
  {
    match FromStrRadix(TrimStart0x(field), radix)
    case Some(v) => v
    case None => default
  }

  /** What `from_str_radix` makes of a field once its leading `"0x"`s are
      dropped: `None` when it is malformed. */
  function FieldParse(input: seq<bv8>, offset: nat, len: nat, radix: nat): Option<nat>
    requires 2 <= radix <= 36
  {
    FromStrRadix(TrimStart0x(Field(input, offset, len)), radix)
  }

  /** `helper_parse(input, offset, len, radix, default)`. */
  function HelperParse(input: seq<bv8>, offset: nat, len: nat, radix: nat, default: int): (r: int)
    requires 2 <= radix <= 36
    ensures r == default || 0 <= r <= USIZE_MAX
    ensures offset > |input| ==> r == default
    ensures len == 0 || offset >= |input| ==> r == default
  {
    assert offset == |input| ==> input[..offset] == input && input[offset..] == [];
    ParseOr(Field(input, offset, len), radix, default)
  }

  /** `helper_parse` gives the number the field holds, and `default`
      exactly when `from_str_radix` fails on it. */
  lemma HelperParseFallsBack(input: seq<bv8>, offset: nat, len: nat, radix: nat, default: int)
    requires 2 <= radix <= 36
    ensures FieldParse(input, offset, len, radix).None? ==> HelperParse(input, offset, len, radix, default) == default
    ensures FieldParse(input, offset, len, radix).Some? ==>
            HelperParse(input, offset, len, radix, default) == FieldParse(input, offset, len, radix).value
  {
  }

  /** A field that, after its leading `"0x"`s, holds a byte that is not a
      digit of the radix (other than a leading `+`) parses as `default`. */
  lemma MalformedFieldDefaults(input: seq<bv8>, offset: nat, len: nat, radix: nat, default: int, i: nat)
    requires 2 <= radix <= 36
    requires var t := TrimStart0x(Field(input, offset, len));
             i < |t| && !(0 <= DigitValue(t[i]) < radix) && (i > 0 || t[0] != 0x2B)
    ensures HelperParse(input, offset, len, radix, default) == default
  {
    var t := TrimStart0x(Field(input, offset, len));
    if t[0] == 0x2B {
      assert t[1..][i - 1] == t[i];
    }
    FromStrRadixAccepts(t, radix);
    HelperParseFallsBack(input, offset, len, radix, default);
  }

  /** `r 10`: the space makes the field malformed, so the read falls back to
      its default of 8 rows. */
  lemma SpacedArgumentDefaults()
    ensures HelperParse([0x72, 0x20, 0x31, 0x30], 1, 8, 16, 8) == 8
  {
    var input: seq<bv8> := [0x72, 0x20, 0x31, 0x30];
    assert IsAscii(input);
    assert Field(input, 1, 8) == [0x20, 0x31, 0x30];
    MalformedFieldDefaults(input, 1, 8, 16, 8, 0);
  }

  /** `helper_parse` at offset 1 ignores the command letter before it. */
  lemma HelperParseIgnoresCommand(c1: bv8, c2: bv8, t: seq<bv8>, len: nat, radix: nat, default: int)
    requires 2 <= radix <= 36
    ensures HelperParse([c1] + t, 1, len, radix, default) == HelperParse([c2] + t, 1, len, radix, default)
  {
    assert ([c1] + t)[1..] == t && ([c2] + t)[1..] == t;
    assert IsCharBoundary([c1] + t, 1) == IsCharBoundary([c2] + t, 1);
  }

  /** A hexadecimal digit as `{:x}` prints it. */
  function HexDigit(d: nat): (c: bv8)
    requires d < 16
    ensures DigitValue(c) == d as int && c < 0x80
  {
    if d < 10 then 0x30 + d as bv8 else 0x57 + d as bv8
  }

  /** `{:x}`: lower-case hexadecimal without leading zeros. */
  function LowerHex(n: nat): (s: seq<bv8>)
    ensures 1 <= |s| && AllDigits(s, 16) && IsAscii(s)
    ensures DigitsValue(s, 16) == n
    ensures n < 0x10 ==> |s| == 1
    ensures n < 0x100 ==> |s| <= 2
    ensures n < 0x1000 ==> |s| <= 3
    ensures n < 0x1_0000 ==> |s| <= 4
  {
    if n < 16 then [HexDigit(n)]
    else
      var s := LowerHex(n / 16) + [HexDigit(n % 16)];
      assert s[..|s| - 1] == LowerHex(n / 16);
      s
  }

  /** A digit string never starts with `"0x"`, so `trim_start_matches`
      removes exactly one `"0x"` in front of it. */
  lemma TrimZeroXDigits(ds: seq<bv8>)
    requires AllDigits(ds, 16)
    ensures TrimStart0x(ZERO_X + ds) == ds
  {
    assert (ZERO_X + ds)[2..] == ds;
    if |ds| >= 2 {
      assert DigitValue(ds[1]) < 16;
    }
  }

  /** `from_str_radix` reads a non-empty digit string within range as its
      value. */
  lemma FromStrRadixDigits(ds: seq<bv8>, radix: nat)
    requires 2 <= radix <= 36 && ds != [] && AllDigits(ds, radix)
    requires DigitsValue(ds, radix) <= USIZE_MAX
    ensures FromStrRadix(ds, radix) == Some(DigitsValue(ds, radix))
  {
    assert DigitValue(ds[0]) >= 0;
  }

  /** `from_str_radix` succeeds exactly on an optional `+` followed by at
      least one digit of the radix whose value fits a `usize`, and then
      yields that value. */
  lemma FromStrRadixAccepts(s: seq<bv8>, radix: nat)
    requires 2 <= radix <= 36
    ensures var ds := if s != [] && s[0] == 0x2B then s[1..] else s;
            (FromStrRadix(s, radix).Some? <==> ds != [] && AllDigits(ds, radix) && DigitsValue(ds, radix) <= USIZE_MAX) &&
            (FromStrRadix(s, radix).Some? ==> AllDigits(ds, radix) && FromStrRadix(s, radix).value == DigitsValue(ds, radix))
  {
  }

  /** Round trip: an address printed as `0x{:x}` after a command letter parses
      back to itself. */
  lemma ParsePrintedAddress(c: bv8, n: nat, default: int)
    requires c < 0x80 && n <= USIZE_MAX
    ensures HelperParse([c] + ZERO_X + LowerHex(n), 1, 8, 16, default) == n
  {
    var hex := LowerHex(n);
    var input := [c] + ZERO_X + hex;
    assert IsAscii(input) by {
      forall i | 0 <= i < |input| ensures input[i] < 0x80 {
        if i >= 3 { assert input[i] == hex[i - 3]; }
      }
    }
    assert |input| <= 7 && Min(9, |input|) == |input|;
    assert Field(input, 1, 8) == ZERO_X + hex;
    TrimZeroXDigits(hex);
    FromStrRadixDigits(hex, 16);
  }
}
