/** The global marker table `MARKERS` (src/debug/memory.rs): named addresses
    that the monitor can point at, kept in a fixed-capacity array. */
module Markers {
  import StackArray

  /** `MarkerEntry = (&'static str, *const u8)`. */
  datatype MarkerEntry = MarkerEntry(name: string, addr: nat)

  /** `NUM_MARKERS` in debug builds. */
  const NUM_MARKERS: nat := 16
  /** `NUM_MARKERS` in release builds. */
  const NUM_MARKERS_RELEASE: nat := 0

  /** The entries after one registration into a table of capacity `cap`:
      appended when there is room, otherwise left alone. */
  function Registered(entries: seq<MarkerEntry>, cap: nat, e: MarkerEntry): seq<MarkerEntry>
  {
    if |entries| >= cap then entries else entries + [e]
  }

  /** The entries after registering `es` one after the other. */
  function RegisteredAll(entries: seq<MarkerEntry>, cap: nat, es: seq<MarkerEntry>): seq<MarkerEntry>
    decreases |es|
  {
    if es == [] then entries
    else RegisteredAll(Registered(entries, cap, es[0]), cap, es[1..])
  }

  /** One registration never exceeds the capacity, never evicts and never
      reorders: the old entries stay a prefix. */
  lemma RegisteredKeepsBound(entries: seq<MarkerEntry>, cap: nat, e: MarkerEntry)
    requires |entries| <= cap
    ensures |Registered(entries, cap, e)| <= cap
    ensures Registered(entries, cap, e)[..|entries|] == entries
  {
  }

  /** Registering a run of entries into a table that holds at most `cap`
      keeps exactly the first ones that fit, in order. */
  lemma {:induction false} RegisteredAllKeepsFirst(entries: seq<MarkerEntry>, cap: nat, es: seq<MarkerEntry>)
    requires |entries| <= cap
    ensures var n := if |entries| + |es| <= cap then |entries| + |es| else cap;
            RegisteredAll(entries, cap, es) == (entries + es)[..n]
    decreases |es|
  {
    if es == [] {
      assert (entries + es)[..|entries|] == entries;
    } else if |entries| == cap {
      RegisteredAllKeepsFirst(entries, cap, es[1..]);
      assert (entries + es)[..cap] == entries;
    } else {
      var next := entries + [es[0]];
      RegisteredAllKeepsFirst(next, cap, es[1..]);
      assert next + es[1..] == entries + es;
    }
  }

  /** Registering `cap + m` entries into an empty table of capacity `cap`
      leaves exactly the first `cap`, in order. */
  lemma RegisteringPastCapacity(cap: nat, es: seq<MarkerEntry>)
    requires |es| >= cap
    ensures RegisteredAll([], cap, es) == es[..cap]
  {
    RegisteredAllKeepsFirst([], cap, es);
    assert [] + es == es;
  }

  /** `add_marker_manual` in debug builds: when `len >= NUM_MARKERS` nothing
      happens; otherwise the entry is written at index `len`, then `len` grows
      by one. */
  method AddMarkerManual(markers: StackArray.StackArr<MarkerEntry>, name: string, ptr: nat)
    requires markers.Valid() && markers.inner.Length == NUM_MARKERS
    modifies markers, markers.inner
    ensures markers.Valid()
    ensures old(markers.len) <= NUM_MARKERS ==> markers.len <= NUM_MARKERS
    ensures markers.Elements() == Registered(old(markers.Elements()), NUM_MARKERS, MarkerEntry(name, ptr))
    ensures old(markers.len) >= NUM_MARKERS ==>
              markers.len == old(markers.len) && markers.inner[..] == old(markers.inner[..])
    ensures old(markers.len) < NUM_MARKERS ==>
              markers.len == old(markers.len) + 1 && markers.inner[old(markers.len)] == StackArray.Init(MarkerEntry(name, ptr))
    ensures forall i :: 0 <= i < old(markers.len) ==> markers.inner[i] == old(markers.inner[i])
    ensures forall i :: old(markers.len) < i < markers.inner.Length ==> markers.inner[i] == old(markers.inner[i])
  {
    if markers.len >= NUM_MARKERS {
      return;
    }
    markers.inner[markers.len] := StackArray.Init(MarkerEntry(name, ptr));
    markers.len := markers.len + 1;
  }

  /** `add_marker_manual` in release builds: does nothing. */
  method AddMarkerManualRelease(markers: StackArray.StackArr<MarkerEntry>, name: string, ptr: nat)
    ensures unchanged(markers) && unchanged(markers.inner)
  {
  }

  /** With the release capacity, registration is a no-op as well. */
  lemma ReleaseRegistrationIsNoOp(entries: seq<MarkerEntry>, e: MarkerEntry)
    requires |entries| <= NUM_MARKERS_RELEASE
    ensures Registered(entries, NUM_MARKERS_RELEASE, e) == entries
  {
  }
}
