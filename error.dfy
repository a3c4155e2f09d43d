/** The kernel's error value `PError` (src/types/error.rs): a tag, an error
    kind and a borrowed-or-owned context message. */
module Errors {
  import Magic
  import Strings

  /** `MAGIC = [b'e', b'r', b'r', b'!']`. */
  const ERROR_MAGIC: seq<bv8> := [0x65, 0x72, 0x72, 0x21]

  /** Capacity of an owned context message (`PStr<'static, 64>`). */
  const CONTEXT_LEN: nat := 64

  /** `PErrorVariant`, a `#[repr(u8)]` enumeration. */
  datatype ErrorVariant = Unknown

  /** The `u8` discriminant of a variant. */
  function VariantCode(v: ErrorVariant): bv8
  {
    match v
    case Unknown => 0
  }

  datatype PError = PError(magic: seq<bv8>, variant: ErrorVariant, context: Strings.PStr)

  /** `PError::new(variant, context)`: stamps the error tag and keeps both
      arguments as given. */
  function NewError(variant: ErrorVariant, context: Strings.PStr): (e: PError)
    ensures |e.magic| == 4 && Magic.IsMagic(e.magic, 0, ERROR_MAGIC)
    ensures e.variant == variant && e.context == context
    ensures Strings.PStrAsRef(e.context) == Strings.PStrAsRef(context)
  {
    PError(ERROR_MAGIC, variant, context)
  }

  /** `Magic::is_magic` on a freshly built error, wherever it is laid out (its
      tag is its first field), is true. */
  lemma NewErrorIsMagic(variant: ErrorVariant, context: Strings.PStr, mem: seq<bv8>, addr: nat)
    requires addr + 4 <= |mem|
    requires mem[addr..addr + 4] == NewError(variant, context).magic
    ensures Magic.StructIsMagic(mem, addr, ERROR_MAGIC)
  {
    Magic.StructIsMagicIffTagField(mem, addr, NewError(variant, context).magic, ERROR_MAGIC);
  }
}
