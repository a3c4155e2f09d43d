/** The address arithmetic of `jump_to_stack` (src/task/stack.rs): the target
    address is split into the two bytes written to the AVR stack pointer
    registers `SP_L` and `SP_H`. The register writes themselves are not
    modelled. */
module TaskStack {

  const STACK_LEN: nat := 512

  /** Rust's `i8`. */
  newtype int8 = x: int | -128 <= x < 128

  /** `x as i8` for an unsigned value: keep the low 8 bits and read them in
      two's complement. */
  function AsI8(x: nat): (r: int8)
    ensures (r as int - x) % 256 == 0
    ensures x % 256 < 128 <==> r >= 0
  {
    var b := x % 256;
    if b < 128 then b as int8 else (b - 256) as int8
  }

  /** The bit pattern of an `i8`, as the `out` instruction writes it. */
  function AsU8(x: int8): (b: nat)
    ensures b < 256 && (b - x as int) % 256 == 0
    ensures x >= 0 ==> b == x as int
    ensures b == (x as int) % 256
  {
    if x >= 0 then x as nat else (x as int + 256) as nat
  }

  /** `location.addr() as u32`: keeps the low 32 bits. */
  function AddrU32(location: nat): (a: nat)
    ensures a < 0x1_0000_0000 && (a - location) % 0x1_0000_0000 == 0
  {
    location % 0x1_0000_0000
  }

  /** The two stack-pointer bytes of `jump_to_stack(location)`: `SP_L` is
      `addr & u8::MAX` and `SP_H` is `addr >> 8`, each cast to `i8`. Read as
      unsigned bytes they are the low and the second-lowest byte of the
      address. */
  function StackPointerBytes(location: nat): (r: (int8, int8))
    ensures AsU8(r.0) == location % 256
    ensures AsU8(r.1) == (location / 256) % 256
  {
    var addr := AddrU32(location);
    LowBytesSurviveU32(location);
    (AsI8(addr % 256), AsI8(addr / 256))
  }

  /** Truncating to 32 bits keeps the two low bytes. */
  lemma LowBytesSurviveU32(location: nat)
    ensures AddrU32(location) % 256 == location % 256
    ensures (AddrU32(location) / 256) % 256 == (location / 256) % 256
  {
    var q := location / 0x1_0000_0000;
    assert location == 0x1_0000_0000 * q + AddrU32(location);
    LowBytesOfSum(location, q, AddrU32(location));
  }

  /** Adding a multiple of 2^32 changes neither of the two low bytes. */
  lemma LowBytesOfSum(location: nat, q: nat, addr: nat)
    requires location == 0x1_0000_0000 * q + addr
    ensures addr % 256 == location % 256
    ensures (addr / 256) % 256 == (location / 256) % 256
  {
    var h, l := addr / 256, addr % 256;
    assert addr == 256 * h + l;
    assert location == 256 * (0x100_0000 * q + h) + l;
    assert location / 256 == 0x100_0000 * q + h && location % 256 == l;
    assert h == 256 * (h / 256) + h % 256;
    assert location / 256 == 256 * (0x1_0000 * q + h / 256) + h % 256;
  }

  /** The split loses exactly the bits from 16 up: the two bytes recombine to
      the address modulo 2^16. */
  lemma StackPointerRecombines(location: nat)
    ensures AsU8(StackPointerBytes(location).0) + 256 * AsU8(StackPointerBytes(location).1)
            == location % 0x1_0000
  {
    var r := StackPointerBytes(location);
    var a := location / 256;
    var lo, hi, b := location % 256, a % 256, a / 256;
    assert AsU8(r.0) == lo && AsU8(r.1) == hi;
    assert location == 256 * a + lo && a == 256 * b + hi;
    assert location == 0x1_0000 * b + (256 * hi + lo);
    assert 0 <= 256 * hi + lo < 0x1_0000;
    assert location / 0x1_0000 == b;
  }
}
