/** Whole messages through the streaming context, and the standard they must match. */
module GcmMessages {
  import opened Bytes
  import opened GcmSpec
  import opened GcmStream

  lemma SealParts(k: Key, nonce: seq<byte>, aad: seq<byte>, hashed: seq<byte>, p: seq<byte>, last: seq<byte>,
                  tagLen: nat)
    requires tagLen <= 16 && Pad(hashed) == Pad(aad)
    ensures k.Tag(nonce, hashed, |aad|, k.Crypt(k.FirstCounter(nonce), 0, p + last), tagLen)
         == k.Seal(nonce, aad, p + last, tagLen).1
    ensures k.Crypt(k.FirstCounter(nonce), 0, p) + k.Crypt(k.FirstCounter(nonce), |p|, last)
         == k.Seal(nonce, aad, p + last, tagLen).0
  {
    hide Pad, k.Ghash, k.FirstCounter, k.J0;
    k.CryptAppend(k.FirstCounter(nonce), 0, p, last);
  }

  /** Encrypts a message handed over in any chunks. */
  method SealChunks(enc: Block -> Block, tableBased: bool, nonce: seq<byte>, aad: seq<Chunk>,
                    payload: seq<seq<byte>>, last: seq<byte>, tagLen: nat)
      returns (ciphertext: seq<byte>, tag: seq<byte>)
    requires tagLen <= 16
    ensures (ciphertext, tag) == MakeKey(enc).Seal(nonce, JoinAad(aad), Join(payload) + last, tagLen)
  {
    hide *;
    var ctx := new Context(enc, tableBased, Encrypt, nonce, tagLen);
    FeedAad(ctx, aad);
    var out := FeedPayload(ctx, payload);
    ctx.FirstCounterHere();
    SealParts(ctx.k, nonce, JoinAad(aad), ctx.hashed, Join(payload), last, tagLen);
    var res, more;
    res, more, tag := ctx.EncFinal(last, tagLen);
    ciphertext := out + more;
  }

  lemma OpenParts(k: Key, nonce: seq<byte>, aad: seq<byte>, hashed: seq<byte>, p: seq<byte>, last: seq<byte>,
                  tagLen: nat)
    requires tagLen <= 16 && Pad(hashed) == Pad(aad)
    ensures k.Tag(nonce, hashed, |aad|, p + last, tagLen) == k.Tag(nonce, aad, |aad|, p + last, tagLen)
    ensures k.Crypt(k.FirstCounter(nonce), 0, p) + k.Crypt(k.FirstCounter(nonce), |p|, last)
         == k.Crypt(k.FirstCounter(nonce), 0, p + last)
  {
    hide Pad, k.Ghash, k.FirstCounter, k.J0;
    k.CryptAppend(k.FirstCounter(nonce), 0, p, last);
  }

  /** Decrypts a ciphertext handed over in any chunks and says whether its tag is right. */
  method OpenChunks(enc: Block -> Block, tableBased: bool, nonce: seq<byte>, aad: seq<Chunk>,
                    payload: seq<seq<byte>>, last: seq<byte>, tag: seq<byte>)
      returns (plaintext: seq<byte>, accepted: bool)
    requires |tag| <= 16
    ensures plaintext == MakeKey(enc).Crypt(MakeKey(enc).FirstCounter(nonce), 0, Join(payload) + last)
    ensures accepted <==> tag == MakeKey(enc).Tag(nonce, JoinAad(aad), |JoinAad(aad)|, Join(payload) + last, |tag|)
  {
    hide *;
    var ctx := new Context(enc, tableBased, Decrypt, nonce, |tag|);
    FeedAad(ctx, aad);
    var out := FeedPayload(ctx, payload);
    ctx.FirstCounterHere();
    OpenParts(ctx.k, nonce, JoinAad(aad), ctx.hashed, Join(payload), last, |tag|);
    var res, more := ctx.DecFinal(last, tag);
    plaintext := out + more;
    accepted := res == Success;
  }

  /** What sealing produced opens to the plaintext and carries the right tag. */
  lemma OpenSeal(k: Key, nonce: seq<byte>, aad: seq<byte>, plaintext: seq<byte>, tagLen: nat)
    requires tagLen <= 16
    ensures var (c, t) := k.Seal(nonce, aad, plaintext, tagLen);
            |c| == |plaintext| && |t| == tagLen
            && k.Crypt(k.FirstCounter(nonce), 0, c) == plaintext && t == k.Tag(nonce, aad, |aad|, c, tagLen)
  {
    hide Pad, k.Ghash, k.FirstCounter, k.J0;
    k.CryptInvolution(k.FirstCounter(nonce), 0, plaintext);
  }

  /** Encryption and decryption with independent builds, chunkings and buffer addresses. */
  method RoundTrip(enc: Block -> Block, tableA: bool, tableB: bool, nonce: seq<byte>,
                   aadA: seq<Chunk>, aadB: seq<Chunk>,
                   payload: seq<seq<byte>>, last: seq<byte>, sizes: seq<nat>, tagLen: nat)
      returns (plaintext: seq<byte>, accepted: bool)
    requires tagLen <= 16
    requires JoinAad(aadA) == JoinAad(aadB)
    ensures plaintext == Join(payload) + last && accepted
  {
    hide *;
    var c, t := SealChunks(enc, tableA, nonce, aadA, payload, last, tagLen);
    OpenSeal(MakeKey(enc), nonce, JoinAad(aadA), Join(payload) + last, tagLen);
    var chunks, rest := Cut(c, sizes);
    plaintext, accepted := OpenChunks(enc, tableB, nonce, aadB, chunks, rest, t);
  }
}
