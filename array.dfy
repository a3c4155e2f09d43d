/** `PStackArrUnchecked<T, LEN>` (src/types/array.rs): a tagged, fixed-capacity
    array whose slots `[0, len)` hold valid elements. The global marker table
    is such an array updated in place, so it is a class here. */
module StackArray {
  import Magic

  /** A `MaybeUninit<T>` slot. */
  datatype Slot<T> = Uninit | Init(value: T)

  /** `MAGIC = [u8::MAX, b'a', b'r', b'y']`. */
  const ARRAY_MAGIC: seq<bv8> := [0xFF, 0x61, 0x72, 0x79]

  class StackArr<T> {
    /** The `_magic` field; `new` leaves it zero, not `ARRAY_MAGIC`. */
    const magic: seq<bv8>
    var len: nat
    const inner: array<Slot<T>>

    /** The contract of the type: `len <= LEN` and `inner[0..len]` valid. */
    ghost predicate Valid()
      reads this, inner
    {
      len <= inner.Length && forall i :: 0 <= i < len ==> inner[i].Init?
    }

    /** The valid elements, in index order. */
    function Elements(): (es: seq<T>)
      reads this, inner
      requires Valid()
      ensures |es| == len
      ensures forall i :: 0 <= i < len ==> inner[i] == Init(es[i])
    {
      var slots := inner[..len];
      seq(|slots|, i requires 0 <= i < |slots| && slots[i].Init? => slots[i].value)
    }

    /** `PStackArrUnchecked::new()`: empty, untagged, no slot initialised. */
    constructor New(cap: nat)
      ensures Valid() && fresh(inner)
      ensures len == 0 && Elements() == [] && inner.Length == cap
      ensures forall i :: 0 <= i < cap ==> inner[i] == Uninit
      ensures magic == [0, 0, 0, 0] && !Magic.IsMagic(magic, 0, ARRAY_MAGIC)
    {
      magic := [0, 0, 0, 0];
      len := 0;
      inner := new Slot<T>[cap](_ => Uninit);
    }

    /** `Default::default()`, which calls `new()`: the same state. */
    constructor Default(cap: nat)
      ensures Valid() && fresh(inner)
      ensures len == 0 && Elements() == [] && inner.Length == cap
      ensures forall i :: 0 <= i < cap ==> inner[i] == Uninit
      ensures magic == [0, 0, 0, 0] && !Magic.IsMagic(magic, 0, ARRAY_MAGIC)
    {
      magic := [0, 0, 0, 0];
      len := 0;
      inner := new Slot<T>[cap](_ => Uninit);
    }
  }
}
