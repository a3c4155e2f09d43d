/** Tags ("magic numbers") packed into the first bytes of a structure so that
    the kind of value at an address can be recognised at run time
    (src/types/magic.rs). Memory is a byte sequence indexed by address. */
module Magic {

  /** Whether `magic[idx..]` is found at `mem[ptr + idx..]`. Like the
      `iter().enumerate().all(..)` of the source it compares one byte at a
      time, in increasing order, and stops at the first mismatch. */
  function MatchesFrom(mem: seq<bv8>, ptr: nat, magic: seq<bv8>, idx: nat): (r: bool)
    requires idx <= |magic| && ptr + |magic| <= |mem|
    ensures r <==> forall i :: idx <= i < |magic| ==> mem[ptr + i] == magic[i]
    decreases |magic| - idx
  {
    idx == |magic| || (mem[ptr + idx] == magic[idx] && MatchesFrom(mem, ptr, magic, idx + 1))
  }

  /** `is_magic(ptr, magic)`: the bytes at `[ptr, ptr + |magic|)` are the tag.
      The source only reads that window, which the precondition keeps inside
      memory. */
  function IsMagic(mem: seq<bv8>, ptr: nat, magic: seq<bv8>): (r: bool)
    requires ptr + |magic| <= |mem|
    ensures r <==> mem[ptr..ptr + |magic|] == magic
  {
    var r := MatchesFrom(mem, ptr, magic, 0);
    assert r ==> mem[ptr..ptr + |magic|] == magic;
    r
  }

  /** `Magic::is_magic(s)`: the tag check at the address of the structure. */
  function StructIsMagic(mem: seq<bv8>, addr: nat, magic: seq<bv8>): (r: bool)
    requires addr + |magic| <= |mem|
    ensures r <==> mem[addr..addr + |magic|] == magic
  {
    IsMagic(mem, addr, magic)
  }

  /** The trait relies on the first field of the structure being its tag: a
      structure laid out at `addr` whose tag field is `field` passes the check
      exactly when that field holds the type's tag. */
  lemma StructIsMagicIffTagField(mem: seq<bv8>, addr: nat, field: seq<bv8>, magic: seq<bv8>)
    requires |field| == |magic| && addr + |field| <= |mem|
    requires mem[addr..addr + |field|] == field
    ensures StructIsMagic(mem, addr, magic) <==> field == magic
  {
  }

  /** The check depends on nothing outside `[ptr, ptr + |magic|)`. */
  lemma IsMagicReadsOnlyWindow(mem1: seq<bv8>, mem2: seq<bv8>, ptr: nat, magic: seq<bv8>)
    requires ptr + |magic| <= |mem1| && ptr + |magic| <= |mem2|
    requires mem1[ptr..ptr + |magic|] == mem2[ptr..ptr + |magic|]
    ensures IsMagic(mem1, ptr, magic) == IsMagic(mem2, ptr, magic)
  {
  }

  /** A zero-filled window never carries a tag that has a non-zero byte. */
  lemma ZeroWindowNotTagged(mem: seq<bv8>, ptr: nat, magic: seq<bv8>, k: nat)
    requires ptr + |magic| <= |mem|
    requires forall i :: ptr <= i < ptr + |magic| ==> mem[i] == 0
    requires k < |magic| && magic[k] != 0
    ensures !IsMagic(mem, ptr, magic)
  {
    assert mem[ptr..ptr + |magic|][k] == mem[ptr + k];
  }
}
