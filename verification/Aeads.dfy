/**
 Authenticated encryption, as the framing code sees Go's cipher.AEAD: sealing lengthens a message by
 a fixed overhead, and opening with the same nonce gives it back.
 */
module Aeads {
  import opened Wrappers
  import opened Bytes

  datatype Aead = Aead(
    nonceSize: nat,
    overhead: nat,
    seal: (seq<byte>, seq<byte>) -> seq<byte>,
    open: (seq<byte>, seq<byte>) -> Option<seq<byte>>)
  {
    ghost predicate Correct() {
      && (forall nonce, m {:trigger seal(nonce, m)} ::
         |seal(nonce, m)| == |m| + overhead && open(nonce, seal(nonce, m)) == Some(m))
      && (forall nonce, c {:trigger open(nonce, c)} :: open(nonce, c).Some? ==>
         |open(nonce, c).value| + overhead == |c|)
    }
  }

  lemma SealedOpens(a: Aead, nonce: seq<byte>, m: seq<byte>)
    requires a.Correct()
    ensures |a.seal(nonce, m)| == |m| + a.overhead && a.open(nonce, a.seal(nonce, m)) == Some(m)
  {
  }
}
