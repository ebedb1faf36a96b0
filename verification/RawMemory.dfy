/** Bytes, and writing a run of them into memory. */
module RawMemory {

  type Byte = b: int | 0 <= b < 256

  function WriteAt(mem: seq<Byte>, at: nat, bytes: seq<Byte>): (r: seq<Byte>)
    requires at + |bytes| <= |mem|
    ensures |r| == |mem|
  {
    mem[..at] + bytes + mem[at + |bytes|..]
  }
}
