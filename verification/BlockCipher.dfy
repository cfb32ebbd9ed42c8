/** A block cipher under one key, as the pair of functions it applies to blocks. */
module BlockCipher {
  import opened Bytes
  import opened AesSteps
  import opened KeySchedule
  import Aes

  datatype Cipher = Cipher(enc: Block -> Block, dec: Block -> Block)

  ghost predicate Inverse(c: Cipher) {
    && (forall b: Block :: c.dec(c.enc(b)) == b)
    && (forall b: Block :: c.enc(c.dec(b)) == b)
  }

  function WithRoundKey(rk: seq<byte>): Cipher
    requires |rk| == ROUND_KEY_LEN
  {
    Cipher((b: Block) => Aes.Encrypt(rk, b), (b: Block) => Aes.Decrypt(rk, b))
  }

  function Aes128(key: seq<byte>): Cipher
    requires |key| >= KEY_LEN
  {
    WithRoundKey(Expand(key))
  }

  /** AES under any array of round keys, expanded from a key or not, is a permutation of the blocks. */
  lemma WithRoundKeyInverse(rk: seq<byte>)
    requires |rk| == ROUND_KEY_LEN
    ensures Inverse(WithRoundKey(rk))
  {
    var c := WithRoundKey(rk);
    forall b: Block ensures c.dec(c.enc(b)) == b && c.enc(c.dec(b)) == b {
      Aes.DecryptOfEncrypt(rk, b);
      Aes.EncryptOfDecrypt(rk, b);
    }
  }

  lemma Aes128Inverse(key: seq<byte>)
    requires |key| >= KEY_LEN
    ensures Inverse(Aes128(key))
  {
    WithRoundKeyInverse(Expand(key));
  }

  /** struct AES_ctx: the expanded key and the running IV. */
  class Context {
    const roundKey: array<byte>
    const iv: array<byte>

    ghost predicate Valid() {
      roundKey.Length == ROUND_KEY_LEN && iv.Length == BLOCK_LEN && roundKey != iv
    }

    ghost function Cipher(): Cipher
      requires Valid()
      reads roundKey
    {
      WithRoundKey(roundKey[..])
    }

    /** AES_init_ctx, with the IV array left as allocated. */
    constructor (key: seq<byte>)
      requires |key| >= KEY_LEN
      ensures Valid() && fresh(roundKey) && fresh(iv)
      ensures Cipher() == Aes128(key)
    {
      roundKey := new byte[ROUND_KEY_LEN];
      iv := new byte[BLOCK_LEN];
      new;
      KeyExpansion(roundKey, key);
    }

    /** AES_ctx_set_iv. */
    method SetIv(value: seq<byte>)
      requires Valid() && |value| >= BLOCK_LEN
      modifies iv
      ensures iv[..] == value[..BLOCK_LEN]
    {
      CopyBlock(iv, value);
    }

    /** AES_ECB_encrypt on the block at `at`. */
    method EcbEncrypt(buf: array<byte>, at: nat)
      requires Valid() && at + BLOCK_LEN <= buf.Length && buf != roundKey
      modifies buf
      ensures buf[..] == Put(old(buf[..]), at, Cipher().enc(old(buf[at..at + BLOCK_LEN])))
    {
      hide Aes.Encrypt;
      Aes.CipherInPlace(buf, at, roundKey);
    }

    /** AES_ECB_decrypt on the block at `at`. */
    method EcbDecrypt(buf: array<byte>, at: nat)
      requires Valid() && at + BLOCK_LEN <= buf.Length && buf != roundKey
      modifies buf
      ensures buf[..] == Put(old(buf[..]), at, Cipher().dec(old(buf[at..at + BLOCK_LEN])))
    {
      hide Aes.Decrypt;
      Aes.InvCipherInPlace(buf, at, roundKey);
    }
  }

  /** memcpy of one block. */
  method CopyBlock(to: array<byte>, from: seq<byte>)
    requires to.Length == BLOCK_LEN && |from| >= BLOCK_LEN
    modifies to
    ensures to[..] == from[..BLOCK_LEN]
  {
    for i := 0 to BLOCK_LEN
      invariant to[..i] == from[..i]
    {
      to[i] := from[i];
    }
  }

  /** `buf[at..] ^= other[from..]` over sixteen bytes; the two blocks may lie in one array but not overlap. */
  method XorInPlace(buf: array<byte>, at: nat, other: array<byte>, from: nat)
    requires at + BLOCK_LEN <= buf.Length && from + BLOCK_LEN <= other.Length
    requires buf != other || from + BLOCK_LEN <= at || at + BLOCK_LEN <= from
    modifies buf
    ensures buf[..] == Put(old(buf[..]), at,
                           XorBlock(old(buf[at..at + BLOCK_LEN]), old(other[from..from + BLOCK_LEN])))
  {
    hide Xor;
    ghost var was, b := buf[..], other[from..from + BLOCK_LEN];
    for i := 0 to BLOCK_LEN
      invariant forall k :: 0 <= k < |was| ==> buf[k] == if at <= k < at + i then Xor(was[k], b[k - at]) else was[k]
      invariant other[from..from + BLOCK_LEN] == b
    {
      assert other[from + i] == b[i];
      buf[at + i] := Xor(buf[at + i], other[from + i]);
    }
    assert buf[..] == Put(was, at, XorBlock(was[at..at + BLOCK_LEN], b));
  }
}
