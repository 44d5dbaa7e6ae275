/** 32-bit words and their big-endian bytes. */
module Words {
  import opened Bytes

  type word = bv32

  function GetWord(b: seq<byte>): word
    requires |b| == 4
  {
    (b[0] as word << 24) | (b[1] as word << 16) | (b[2] as word << 8) | (b[3] as word)
  }

  function PutWord(w: word): (r: seq<byte>)
    ensures |r| == 4
  {
    [((w >> 24) & 0xff) as byte, ((w >> 16) & 0xff) as byte, ((w >> 8) & 0xff) as byte, (w & 0xff) as byte]
  }

  lemma GetPut(w: word)
    ensures GetWord(PutWord(w)) == w
  {
  }

  lemma PutGet(b: seq<byte>)
    requires |b| == 4
    ensures PutWord(GetWord(b)) == b
  {
  }
}
