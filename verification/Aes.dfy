/** The AES-128 block cipher: the two round loops of aes.c, and that they undo each other for every key array. */
module Aes {
  import opened Bytes
  import opened AesSteps

  function EncryptRound(rk: seq<byte>, round: nat, s: Block): Block
    requires |rk| == ROUND_KEY_LEN && round <= NR
  {
    AddRoundKey(rk, round, MixColumns(ShiftRows(SubBytes(s))))
  }

  /** The state after the initial key addition and rounds 1 to `n`. */
  function Rounds(rk: seq<byte>, s: Block, n: nat): Block
    requires |rk| == ROUND_KEY_LEN && n < NR
  {
    if n == 0 then AddRoundKey(rk, 0, s) else EncryptRound(rk, n, Rounds(rk, s, n - 1))
  }

  /** FIPS 197 section 5.1. */
  function Encrypt(rk: seq<byte>, s: Block): Block
    requires |rk| == ROUND_KEY_LEN
  {
    AddRoundKey(rk, NR, ShiftRows(SubBytes(Rounds(rk, s, NR - 1))))
  }

  function DecryptRound(rk: seq<byte>, round: nat, s: Block): Block
    requires |rk| == ROUND_KEY_LEN && round <= NR
  {
    InvMixColumns(AddRoundKey(rk, round, InvSubBytes(InvShiftRows(s))))
  }

  /** The state after the initial key addition and the rounds from NR - 1 down to `n`. */
  function InvRounds(rk: seq<byte>, s: Block, n: nat): Block
    requires |rk| == ROUND_KEY_LEN && 0 < n <= NR
    decreases NR - n
  {
    if n == NR then AddRoundKey(rk, NR, s) else DecryptRound(rk, n, InvRounds(rk, s, n + 1))
  }

  /** FIPS 197 section 5.3. */
  function Decrypt(rk: seq<byte>, s: Block): Block
    requires |rk| == ROUND_KEY_LEN
  {
    AddRoundKey(rk, 0, InvSubBytes(InvShiftRows(InvRounds(rk, s, 1))))
  }

  lemma AddRoundKeyTwice(rk: seq<byte>, round: nat, s: Block)
    requires |rk| == ROUND_KEY_LEN && round <= NR
    ensures AddRoundKey(rk, round, AddRoundKey(rk, round, s)) == s
  {
    XorBlockCancels(s, BlockAt(rk, round));
  }

  /** Descending from the ciphertext meets, before each round, the state the ascending loop passed through. */
  lemma {:induction false} DescendingMeetsAscending(rk: seq<byte>, s: Block, n: nat)
    requires |rk| == ROUND_KEY_LEN && 0 < n <= NR
    ensures InvRounds(rk, Encrypt(rk, s), n) == ShiftRows(SubBytes(Rounds(rk, s, n - 1)))
    decreases NR - n
  {
    hide AddRoundKey, MixColumns, InvMixColumns, ShiftRows, InvShiftRows, SubBytes, InvSubBytes;
    if n == NR {
      AddRoundKeyTwice(rk, NR, ShiftRows(SubBytes(Rounds(rk, s, NR - 1))));
    } else {
      DescendingMeetsAscending(rk, s, n + 1);
      ShiftRowsInverse(SubBytes(Rounds(rk, s, n)));
      SubBytesInverse(Rounds(rk, s, n));
      var mixed := ShiftRows(SubBytes(Rounds(rk, s, n - 1)));
      AddRoundKeyTwice(rk, n, MixColumns(mixed));
      MixColumnsInverse(mixed);
    }
  }

  lemma DecryptOfEncrypt(rk: seq<byte>, s: Block)
    requires |rk| == ROUND_KEY_LEN
    ensures Decrypt(rk, Encrypt(rk, s)) == s
  {
    DescendingMeetsAscending(rk, s, 1);
    hide AddRoundKey, ShiftRows, InvShiftRows, SubBytes, InvSubBytes, Encrypt;
    ShiftRowsInverse(SubBytes(Rounds(rk, s, 0)));
    SubBytesInverse(Rounds(rk, s, 0));
    AddRoundKeyTwice(rk, 0, s);
  }

  /** Ascending from the decrypted block meets the states of the descending loop in reverse. */
  lemma {:induction false} AscendingMeetsDescending(rk: seq<byte>, s: Block, n: nat)
    requires |rk| == ROUND_KEY_LEN && n < NR
    ensures Rounds(rk, Decrypt(rk, s), n) == InvSubBytes(InvShiftRows(InvRounds(rk, s, n + 1)))
  {
    hide AddRoundKey, MixColumns, InvMixColumns, ShiftRows, InvShiftRows, SubBytes, InvSubBytes;
    if n == 0 {
      AddRoundKeyTwice(rk, 0, InvSubBytes(InvShiftRows(InvRounds(rk, s, 1))));
    } else {
      AscendingMeetsDescending(rk, s, n - 1);
      var below := InvRounds(rk, s, n);
      SubBytesInverse(InvShiftRows(below));
      ShiftRowsInverse(below);
      var unmixed := AddRoundKey(rk, n, InvSubBytes(InvShiftRows(InvRounds(rk, s, n + 1))));
      MixColumnsInverse(unmixed);
      AddRoundKeyTwice(rk, n, InvSubBytes(InvShiftRows(InvRounds(rk, s, n + 1))));
    }
  }

  lemma EncryptOfDecrypt(rk: seq<byte>, s: Block)
    requires |rk| == ROUND_KEY_LEN
    ensures Encrypt(rk, Decrypt(rk, s)) == s
  {
    AscendingMeetsDescending(rk, s, NR - 1);
    hide AddRoundKey, ShiftRows, InvShiftRows, SubBytes, InvSubBytes, Decrypt;
    SubBytesInverse(InvShiftRows(InvRounds(rk, s, NR)));
    ShiftRowsInverse(InvRounds(rk, s, NR));
    AddRoundKeyTwice(rk, NR, s);
  }

  // ---- the first and the last round key ----

  lemma RoundKeyAfterPut(rk: seq<byte>, n: nat, round: nat, s: Block)
    requires |rk| == ROUND_KEY_LEN && n <= NR && round <= NR && n != round
    ensures AddRoundKey(Put(rk, BLOCK_LEN * n, ZERO_BLOCK), round, s) == AddRoundKey(rk, round, s)
  {
    hide XorBlock, Put;
    BlockOfPut(rk, n, ZERO_BLOCK, round);
  }

  lemma ZeroRoundKey(rk: seq<byte>, n: nat, s: Block)
    requires |rk| == ROUND_KEY_LEN && n <= NR
    ensures AddRoundKey(Put(rk, BLOCK_LEN * n, ZERO_BLOCK), n, s) == s
  {
    hide XorBlock, Put;
    BlockOfPut(rk, n, ZERO_BLOCK, n);
    XorBlockZero(s, s);
  }

  lemma {:induction false} RoundsFromFirstKey(rk: seq<byte>, s: Block, n: nat)
    requires |rk| == ROUND_KEY_LEN && n < NR
    ensures Rounds(Put(rk, 0, ZERO_BLOCK), XorBlock(s, BlockAt(rk, 0)), n) == Rounds(rk, s, n)
  {
    hide AddRoundKey, MixColumns, ShiftRows, SubBytes, XorBlock, BlockAt, Put;
    if n == 0 {
      ZeroRoundKey(rk, 0, XorBlock(s, BlockAt(rk, 0)));
      AddsBlock(rk, 0, s);
    } else {
      RoundsFromFirstKey(rk, s, n - 1);
      RoundKeyAfterPut(rk, 0, n, MixColumns(ShiftRows(SubBytes(Rounds(rk, s, n - 1)))));
    }
  }

  lemma AddsBlock(rk: seq<byte>, round: nat, s: Block)
    requires |rk| == ROUND_KEY_LEN && round <= NR
    ensures AddRoundKey(rk, round, s) == XorBlock(s, BlockAt(rk, round))
  { }

  /** The cipher begins by adding the first round key to the block: it can as well be added before. */
  lemma FirstKeyAdded(rk: seq<byte>, s: Block)
    requires |rk| == ROUND_KEY_LEN
    ensures Encrypt(rk, s) == Encrypt(Put(rk, 0, ZERO_BLOCK), XorBlock(s, BlockAt(rk, 0)))
  {
    RoundsFromFirstKey(rk, s, NR - 1);
    hide AddRoundKey, MixColumns, ShiftRows, SubBytes, XorBlock, BlockAt, Put, Rounds;
    RoundKeyAfterPut(rk, 0, NR, ShiftRows(SubBytes(Rounds(rk, s, NR - 1))));
  }

  lemma {:induction false} RoundsBeforeLastKey(rk: seq<byte>, s: Block, n: nat)
    requires |rk| == ROUND_KEY_LEN && n < NR
    ensures Rounds(Put(rk, BLOCK_LEN * NR, ZERO_BLOCK), s, n) == Rounds(rk, s, n)
  {
    hide AddRoundKey, MixColumns, ShiftRows, SubBytes, Put;
    if n == 0 {
      RoundKeyAfterPut(rk, NR, 0, s);
    } else {
      RoundsBeforeLastKey(rk, s, n - 1);
      RoundKeyAfterPut(rk, NR, n, MixColumns(ShiftRows(SubBytes(Rounds(rk, s, n - 1)))));
    }
  }

  /** And ends by adding the last one: it can as well be added after. */
  lemma LastKeyAdded(rk: seq<byte>, s: Block)
    requires |rk| == ROUND_KEY_LEN
    ensures Encrypt(rk, s) == XorBlock(Encrypt(Put(rk, BLOCK_LEN * NR, ZERO_BLOCK), s), BlockAt(rk, NR))
  {
    RoundsBeforeLastKey(rk, s, NR - 1);
    hide AddRoundKey, MixColumns, ShiftRows, SubBytes, XorBlock, BlockAt, Put, Rounds;
    var t := ShiftRows(SubBytes(Rounds(rk, s, NR - 1)));
    ZeroRoundKey(rk, NR, t);
    AddsBlock(rk, NR, t);
  }

  // ---- the in-place procedures ----

  method CipherInPlace(state: array<byte>, at: nat, roundKey: array<byte>)
    requires at + BLOCK_LEN <= state.Length && roundKey.Length == ROUND_KEY_LEN && state != roundKey
    modifies state
    ensures state[..] == Put(old(state[..]), at, Encrypt(roundKey[..], old(state[at..at + BLOCK_LEN])))
  {
    hide AddRoundKey, MixColumns, ShiftRows, SubBytes, Put;
    ghost var was, rk := state[..], roundKey[..];
    ghost var s: Block := was[at..at + BLOCK_LEN];
    AddRoundKeyInPlace(0, state, at, roundKey);
    for round := 1 to NR
      invariant state[..] == Put(was, at, Rounds(rk, s, round - 1))
    {
      ghost var r := Rounds(rk, s, round - 1);
      PutInArray(state, was, at, r);
      SubBytesInPlace(state, at);
      PutInArray(state, was, at, SubBytes(r));
      ShiftRowsInPlace(state, at);
      PutInArray(state, was, at, ShiftRows(SubBytes(r)));
      MixColumnsInPlace(state, at);
      PutInArray(state, was, at, MixColumns(ShiftRows(SubBytes(r))));
      AddRoundKeyInPlace(round, state, at, roundKey);
    }
    ghost var r := Rounds(rk, s, NR - 1);
    PutInArray(state, was, at, r);
    SubBytesInPlace(state, at);
    PutInArray(state, was, at, SubBytes(r));
    ShiftRowsInPlace(state, at);
    PutInArray(state, was, at, ShiftRows(SubBytes(r)));
    AddRoundKeyInPlace(NR, state, at, roundKey);
  }

  method InvCipherInPlace(state: array<byte>, at: nat, roundKey: array<byte>)
    requires at + BLOCK_LEN <= state.Length && roundKey.Length == ROUND_KEY_LEN && state != roundKey
    modifies state
    ensures state[..] == Put(old(state[..]), at, Decrypt(roundKey[..], old(state[at..at + BLOCK_LEN])))
  {
    hide AddRoundKey, InvMixColumns, InvShiftRows, InvSubBytes, Put;
    ghost var was, rk := state[..], roundKey[..];
    ghost var s: Block := was[at..at + BLOCK_LEN];
    AddRoundKeyInPlace(NR, state, at, roundKey);
    var round := NR - 1;
    while round > 0
      invariant 0 <= round < NR
      invariant state[..] == Put(was, at, InvRounds(rk, s, round + 1))
    {
      ghost var r := InvRounds(rk, s, round + 1);
      PutInArray(state, was, at, r);
      InvShiftRowsInPlace(state, at);
      PutInArray(state, was, at, InvShiftRows(r));
      InvSubBytesInPlace(state, at);
      PutInArray(state, was, at, InvSubBytes(InvShiftRows(r)));
      AddRoundKeyInPlace(round, state, at, roundKey);
      PutInArray(state, was, at, AddRoundKey(rk, round, InvSubBytes(InvShiftRows(r))));
      InvMixColumnsInPlace(state, at);
      round := round - 1;
    }
    ghost var r := InvRounds(rk, s, 1);
    PutInArray(state, was, at, r);
    InvShiftRowsInPlace(state, at);
    PutInArray(state, was, at, InvShiftRows(r));
    InvSubBytesInPlace(state, at);
    PutInArray(state, was, at, InvSubBytes(InvShiftRows(r)));
    AddRoundKeyInPlace(0, state, at, roundKey);
  }
}
