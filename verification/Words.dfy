/** Machine words and byte buffers. */
module Words {

  /** 2^64: addresses are below it. */
  const WORD: nat := 0x1_0000_0000_0000_0000

  type Byte = n: nat | n < 256

  /** memcpy of `bytes` to offset `o` of a buffer. */
  function Spliced(s: seq<Byte>, o: nat, bytes: seq<Byte>): (r: seq<Byte>)
    requires o + |bytes| <= |s|
    ensures |r| == |s|
  {
    s[..o] + bytes + s[o + |bytes|..]
  }
}
