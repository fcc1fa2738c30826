/** The growable byte buffer a connection decodes from (`bytes::BytesMut`),
    reduced to the operations the codec and its callers use. */
module BytesBuf {
  import opened Basics

  class BytesMut {
    /** The buffered bytes, front first. */
    var data: seq<byte>

    /** `BytesMut::new`: an empty buffer. */
    constructor ()
      ensures data == []
    {
      data := [];
    }

    /** `extend_from_slice`: append bytes that arrived. */
    method ExtendFromSlice(s: seq<byte>)
      modifies this
      ensures data == old(data) + s
    {
      data := data + s;
    }

    /** `put_bytes`: append `n` copies of `b`. */
    method PutBytes(b: byte, n: nat)
      modifies this
      ensures |data| == |old(data)| + n
      ensures data[..|old(data)|] == old(data)
      ensures forall i :: |old(data)| <= i < |data| ==> data[i] == b
    {
      data := data + seq(n, _ => b);
    }

    /** `split_to`: take the first `at` bytes out of the buffer and keep the
        rest, in order. Panics in Rust when `at` exceeds the length. */
    method SplitTo(at: nat) returns (head: seq<byte>)
      requires at <= |data|
      modifies this
      ensures head == old(data)[..at] && data == old(data)[at..]
      ensures head + data == old(data)
    {
      head := data[..at];
      data := data[at..];
    }
  }
}
