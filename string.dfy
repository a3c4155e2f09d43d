/** String types of src/types/string.rs: the fixed-capacity, zero-padded
    `PStackStr<LEN>` and the borrowed-or-owned `PStr`. Strings are their
    UTF-8 bytes. */
module Strings {
  import opened Wrappers
  import Magic

  /** `MAGIC = [u8::MAX, b's', b't', b'r']`. */
  const STR_MAGIC: seq<bv8> := [0xFF, 0x73, 0x74, 0x72]

  /** `PStackStr<LEN>`: tag, the `LEN`-byte buffer and `initial_len`. */
  datatype StackStr = StackStr(magic: seq<bv8>, inner: seq<bv8>, initialLen: nat)

  function Zeros(n: nat): (z: seq<bv8>)
    ensures |z| == n && forall i :: 0 <= i < n ==> z[i] == 0
  {
    seq(n, _ => 0)
  }

  /** `PStackStr::<cap>::from_str(s)`: copies the first `min(|s|, cap)` bytes
      (cutting at a byte, not at a character) into a zeroed buffer. Its error
      type is `!`, so it cannot fail. */
  function FromStr(cap: nat, s: seq<bv8>): (r: StackStr)
    ensures r.magic == STR_MAGIC && Magic.IsMagic(r.magic, 0, STR_MAGIC)
    ensures |r.inner| == cap && r.initialLen == Min(|s|, cap)
    ensures r.inner[..r.initialLen] == s[..r.initialLen]
    ensures forall i :: r.initialLen <= i < cap ==> r.inner[i] == 0
  {
    var len := if |s| > cap then cap else |s|;
    StackStr(STR_MAGIC, s[..len] + Zeros(cap - len), len)
  }

  /** `trim_end_matches('\0')`: drops the trailing zero bytes, and only those. */
  function TrimTrailingNul(s: seq<bv8>): (r: seq<bv8>)
    ensures |r| <= |s| && r == s[..|r|]
    ensures |r| == 0 || r[|r| - 1] != 0
    ensures forall i :: |r| <= i < |s| ==> s[i] == 0
  {
    if s == [] then []
    else if s[|s| - 1] == 0 then TrimTrailingNul(s[..|s| - 1])
    else s
  }

  /** `as_ref` of a stack string. */
  function AsRef(str: StackStr): (r: seq<bv8>)
    ensures |r| <= |str.inner| && r == str.inner[..|r|]
    ensures |r| == 0 || r[|r| - 1] != 0
    ensures forall i :: |r| <= i < |str.inner| ==> str.inner[i] == 0
  {
    TrimTrailingNul(str.inner)
  }

  /** Zero padding does not change what is rendered. */
  lemma {:induction false} TrimTrailingNulPadding(x: seq<bv8>, n: nat)
    ensures TrimTrailingNul(x + Zeros(n)) == TrimTrailingNul(x)
  {
    if n > 0 {
      assert (x + Zeros(n))[..|x| + n - 1] == x + Zeros(n - 1);
      TrimTrailingNulPadding(x, n - 1);
    } else {
      assert x + Zeros(0) == x;
    }
  }

  /** A string without zero bytes renders as itself. */
  lemma TrimTrailingNulNoZeros(s: seq<bv8>)
    requires forall i :: 0 <= i < |s| ==> s[i] != 0
    ensures TrimTrailingNul(s) == s
  {
  }

  /** Rendering a stack string built from `s` gives the stored prefix of `s`
      with its trailing zeros removed. */
  lemma FromStrAsRef(cap: nat, s: seq<bv8>)
    ensures AsRef(FromStr(cap, s)) == TrimTrailingNul(s[..Min(|s|, cap)])
  {
    var k := Min(|s|, cap);
    assert FromStr(cap, s).inner == s[..k] + Zeros(cap - k);
    TrimTrailingNulPadding(s[..k], cap - k);
  }

  /** Round trip: a string that fits and does not end in a zero byte comes back
      unchanged. */
  lemma FromStrRoundTrip(cap: nat, s: seq<bv8>)
    requires |s| <= cap
    requires s == [] || s[|s| - 1] != 0
    ensures AsRef(FromStr(cap, s)) == s
  {
    FromStrAsRef(cap, s);
    assert s[..|s|] == s;
  }

  /** An oversized string renders as its first `cap` bytes (less any zeros they
      end with), cut at the byte level. */
  lemma FromStrTruncates(cap: nat, s: seq<bv8>)
    requires |s| > cap
    ensures AsRef(FromStr(cap, s)) == TrimTrailingNul(s[..cap])
    ensures s[..cap] == [] || s[cap - 1] != 0 ==> AsRef(FromStr(cap, s)) == s[..cap]
  {
    FromStrAsRef(cap, s);
  }

  /** `PStr`: a borrowed slice or an owned stack string. The source tells the
      two apart by looking for `STR_MAGIC` in the union's memory; here the
      constructor is the tag. */
  datatype PStr = Borrowed(slice: seq<bv8>) | Owned(stack: StackStr)

  /** `PStr::as_ref`: the owned string's rendering or the borrowed slice. */
  function PStrAsRef(p: PStr): seq<bv8>
  {
    match p
    case Owned(stack) => AsRef(stack)
    case Borrowed(slice) => slice
  }

  /** `PStr::from_str(s)` borrows `s`, and renders as `s`. */
  function PStrFromStr(s: seq<bv8>): (p: PStr)
    ensures PStrAsRef(p) == s
  {
    Borrowed(s)
  }

  /** `From<PStackStr>`: owns the string, renders as its `as_ref`, and carries
      the tag that the source's check looks for when built by `from_str`. */
  function PStrFromStack(value: StackStr): (p: PStr)
    ensures PStrAsRef(p) == AsRef(value)
    ensures value.magic == STR_MAGIC ==>
              p.Owned? && |p.stack.magic| == 4 && Magic.IsMagic(p.stack.magic, 0, STR_MAGIC)
  {
    Owned(value)
  }
}
