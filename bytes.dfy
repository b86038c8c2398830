/** Byte buffers: the `toBuffer` copy from an `ArrayBuffer` into a Node `Buffer`. */
module Bytes {

  newtype byte = x: int | 0 <= x < 256

  /**
   * Allocates a buffer of the input's byte length and copies the input into it
   * one byte at a time (src/utils/pdf.ts:26-33, duplicated at src/backup.ts:25-32).
   * The input `ArrayBuffer` is read through a `Uint8Array` view of the same length.
   */
  method ToBuffer(view: seq<byte>) returns (buf: array<byte>)
    ensures fresh(buf)
    ensures buf.Length == |view|
    ensures forall i :: 0 <= i < buf.Length ==> buf[i] == view[i]
    ensures buf[..] == view
  {
    buf := new byte[|view|];
    var i := 0;
    while i < buf.Length
      invariant 0 <= i <= buf.Length
      invariant forall k :: 0 <= k < i ==> buf[k] == view[k]
    {
      buf[i] := view[i];
      i := i + 1;
    }
  }
}
