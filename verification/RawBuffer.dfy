/** Raw copies inside a buffer. */
module RawBuffer {
  import opened Base

  /** Moves `n` bytes between possibly overlapping places of one buffer. */
  method MoveBytes(bytes: array<byte>, to: nat, from: nat, n: nat)
    requires to + n <= bytes.Length && from + n <= bytes.Length
    modifies bytes
    ensures bytes[to..to + n] == old(bytes[from..from + n])
    ensures forall k :: 0 <= k < bytes.Length && !(to <= k < to + n) ==> bytes[k] == old(bytes[k])
  {
    forall k | 0 <= k < n {
      bytes[to + k] := bytes[from + k];
    }
  }
}
