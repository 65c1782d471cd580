/** What several components need. */
module Wrappers {
  datatype Option<T> = None | Some(value: T)

  type Bits = seq<bool>

  /** Memory and messages of the device, byte by byte. */
  type Bytes = seq<bv8>

  /** The difference of two uint32_t millisecond counts. */
  function Elapsed(now: nat, start: nat): nat {
    (now - start) % 0x1_0000_0000
  }

  /** The counts wrap around, the difference does not. */
  lemma ElapsedWraps(start: nat, ms: nat)
    requires start < 0x1_0000_0000 && ms < 0x1_0000_0000
    ensures Elapsed((start + ms) % 0x1_0000_0000, start) == ms
  {}

  lemma Regroup<T>(a: seq<T>, b: seq<T>, c: seq<T>)
    ensures (a + b) + c == a + (b + c)
  {}
}
