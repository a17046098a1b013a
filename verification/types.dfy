/** Shared vocabulary: optional values, bytes, keys and duplicate-free sequences. */
module Types {

  /** The conventional Some/None datatype, standing in for Go's nil. */
  datatype Option<+T> = None | Some(value: T)

  /** One byte of a Go byte slice or string. */
  type byte = x: int | 0 <= x < 256

  /** A storage key or conflict key: an immutable byte string. */
  type Key = seq<byte>

  /** Go's `uint64`, the width of a fingerprint. */
  type uint64 = x: int | 0 <= x < 0x1_0000_0000_0000_0000

  /** No element of `s` occurs twice. */
  predicate NoDup<T(==)>(s: seq<T>) {
    forall i, j | 0 <= i < j < |s| :: s[i] != s[j]
  }

  /** `s` lists every element of `xs` exactly once: one iteration over a set. */
  predicate Enumerates<T(==)>(s: seq<T>, xs: set<T>) {
    && NoDup(s)
    && (forall i | 0 <= i < |s| :: s[i] in xs)
    && (forall x | x in xs :: x in s)
  }
}
