/**
 The four round transformations of aes.c on one 16-byte state, their inverses, and the in-place
 procedures that compute them. A state_t pointer is an array and an index: byte `at + 4 * c + r` is
 row r of column c.
 */
module AesSteps {
  import opened Bytes
  import Division
  import opened GaloisField
  import opened MixRows
  import opened AesTables

  const NR: nat := 10
  const ROUND_KEY_LEN: nat := 176

  // ---- the transformations as functions, FIPS 197 sections 5.1 and 5.3 ----

  function AddRoundKey(rk: seq<byte>, round: nat, s: Block): Block
    requires |rk| == ROUND_KEY_LEN && round <= NR
  {
    XorBlock(s, BlockAt(rk, round))
  }

  function SubBytes(s: Block): Block {
    seq(BLOCK_LEN, i requires 0 <= i < BLOCK_LEN => Sbox(s[i]))
  }

  function InvSubBytes(s: Block): Block {
    seq(BLOCK_LEN, i requires 0 <= i < BLOCK_LEN => InvSbox(s[i]))
  }

  /** Row r of the result is row r of the argument, rotated left by r columns. */
  function ShiftRows(s: Block): Block {
    seq(BLOCK_LEN, i requires 0 <= i < BLOCK_LEN => s[(i + 4 * (i % 4)) % BLOCK_LEN])
  }

  /** Row r rotated right by r columns. */
  function InvShiftRows(s: Block): Block {
    seq(BLOCK_LEN, i requires 0 <= i < BLOCK_LEN => s[(i + 16 - 4 * (i % 4)) % BLOCK_LEN])
  }

  /** Index `i` moved by `n` places within its column. */
  function Along(i: nat, n: nat): (j: nat)
    requires i < BLOCK_LEN
    ensures j < BLOCK_LEN
  {
    4 * (i / 4) + (i + n) % 4
  }

  function MixColumns(s: Block): Block {
    seq(BLOCK_LEN, i requires 0 <= i < BLOCK_LEN =>
      MixRow(s[i], s[Along(i, 1)], s[Along(i, 2)], s[Along(i, 3)]))
  }

  function InvMixColumns(s: Block): Block {
    seq(BLOCK_LEN, i requires 0 <= i < BLOCK_LEN =>
      InvMixRow(s[i], s[Along(i, 1)], s[Along(i, 2)], s[Along(i, 3)]))
  }

  // ---- each transformation and its inverse ----

  lemma SubBytesInverse(s: Block)
    ensures InvSubBytes(SubBytes(s)) == s && SubBytes(InvSubBytes(s)) == s
  {
    hide Sbox, InvSbox;
    forall i | 0 <= i < BLOCK_LEN
      ensures InvSubBytes(SubBytes(s))[i] == s[i] && SubBytes(InvSubBytes(s))[i] == s[i]
    {
      InvSboxOfSbox(s[i]);
      SboxOfInvSbox(s[i]);
    }
  }

  /** The shifted state written out, entry by entry. */
  lemma ShiftRowsEntries(s: Block)
    ensures ShiftRows(s) == [s[0], s[5], s[10], s[15], s[4], s[9], s[14], s[3],
                             s[8], s[13], s[2], s[7], s[12], s[1], s[6], s[11]]
    ensures InvShiftRows(s) == [s[0], s[13], s[10], s[7], s[4], s[1], s[14], s[11],
                                s[8], s[5], s[2], s[15], s[12], s[9], s[6], s[3]]
  { }

  lemma ShiftRowsInverse(s: Block)
    ensures InvShiftRows(ShiftRows(s)) == s && ShiftRows(InvShiftRows(s)) == s
  {
    hide ShiftRows, InvShiftRows;
    ShiftRowsEntries(s);
    ShiftRowsEntries(ShiftRows(s));
    ShiftRowsEntries(InvShiftRows(s));
    assert s == [s[0], s[1], s[2], s[3], s[4], s[5], s[6], s[7],
                 s[8], s[9], s[10], s[11], s[12], s[13], s[14], s[15]];
  }

  lemma AlongTwice(i: nat, n: nat, m: nat)
    requires i < BLOCK_LEN
    ensures Along(Along(i, n), m) == Along(i, n + m) && Along(i, n + 4) == Along(i, n) && Along(i, 0) == i
  {
    var j, p, r := Along(i, n), (i + n) / 4, (i + n) % 4;
    var q, t := (r + m) / 4, (r + m) % 4;
    Division.DivUnique(j, 4, i / 4, r);
    Division.DivUnique(j + m, 4, i / 4 + q, t);
    Division.DivUnique(i + n + m, 4, p + q, t);
    Division.DivUnique(i + n + 4, 4, p + 1, r);
  }

  lemma MixColumnsAlong(s: Block, i: nat, n: nat)
    requires i < BLOCK_LEN
    ensures var j := Along(i, n);
            && MixColumns(s)[j] == MixRow(s[j], s[Along(i, n + 1)], s[Along(i, n + 2)], s[Along(i, n + 3)])
            && InvMixColumns(s)[j] == InvMixRow(s[j], s[Along(i, n + 1)], s[Along(i, n + 2)], s[Along(i, n + 3)])
  {
    hide MixRow, InvMixRow, Along;
    AlongTwice(i, n, 0);
    AlongTwice(i, n, 1);
    AlongTwice(i, n, 2);
    AlongTwice(i, n, 3);
    AlongTwice(Along(i, n), 0, 0);
  }

  lemma MixColumnsInverse(s: Block)
    ensures InvMixColumns(MixColumns(s)) == s && MixColumns(InvMixColumns(s)) == s
  {
    forall i | 0 <= i < BLOCK_LEN
      ensures InvMixColumns(MixColumns(s))[i] == s[i] && MixColumns(InvMixColumns(s))[i] == s[i]
    {
      MixColumnsInverseAt(s, i);
    }
  }

  lemma MixColumnsInverseAt(s: Block, i: nat)
    requires i < BLOCK_LEN
    ensures InvMixColumns(MixColumns(s))[i] == s[i] && MixColumns(InvMixColumns(s))[i] == s[i]
  {
    hide MixRow, InvMixRow, Along, MixColumns, InvMixColumns;
    var m, v := MixColumns(s), InvMixColumns(s);
    AlongTwice(i, 0, 0);
    AlongTwice(i, 1, 0);
    AlongTwice(i, 2, 0);
    MixColumnsAlong(m, i, 0);
    MixColumnsAlong(v, i, 0);
    MixColumnsAlong(s, i, 0);
    MixColumnsAlong(s, i, 1);
    MixColumnsAlong(s, i, 2);
    MixColumnsAlong(s, i, 3);
    assert Along(i, 4) == i && Along(i, 5) == Along(i, 1) && Along(i, 6) == Along(i, 2);
    var a, b, c, d := s[i], s[Along(i, 1)], s[Along(i, 2)], s[Along(i, 3)];
    InvMixRowOfMixRow(a, b, c, d);
    MixRowOfInvMixRow(a, b, c, d);
  }

  // ---- the in-place procedures ----

  /** Sixteen bytes rewritten one by one amount to one block put in place. */
  lemma PutOfEntries(was: seq<byte>, now: seq<byte>, at: nat, e: Block)
    requires |now| == |was| && at + BLOCK_LEN <= |was|
    requires now[at] == e[0] && now[at + 1] == e[1] && now[at + 2] == e[2] && now[at + 3] == e[3]
    requires now[at + 4] == e[4] && now[at + 5] == e[5] && now[at + 6] == e[6] && now[at + 7] == e[7]
    requires now[at + 8] == e[8] && now[at + 9] == e[9] && now[at + 10] == e[10] && now[at + 11] == e[11]
    requires now[at + 12] == e[12] && now[at + 13] == e[13] && now[at + 14] == e[14] && now[at + 15] == e[15]
    requires forall k :: 0 <= k < |was| && !(at <= k < at + BLOCK_LEN) ==> now[k] == was[k]
    ensures now == Put(was, at, e)
  {
    forall k | at <= k < at + BLOCK_LEN ensures now[k] == e[k - at] { }
  }

  method AddRoundKeyInPlace(round: nat, state: array<byte>, at: nat, roundKey: array<byte>)
    requires at + BLOCK_LEN <= state.Length
    requires roundKey.Length == ROUND_KEY_LEN && round <= NR && state != roundKey
    modifies state
    ensures state[..] == Put(old(state[..]), at, AddRoundKey(roundKey[..], round, old(state[at..at + BLOCK_LEN])))
  {
    ghost var was := state[..];
    for i := 0 to 4
      invariant forall k :: 0 <= k < |was| ==>
        state[k] == if at <= k < at + 4 * i then Xor(was[k], roundKey[BLOCK_LEN * round + k - at]) else was[k]
    {
      for j := 0 to 4
        invariant forall k :: 0 <= k < |was| ==>
          state[k] == if at <= k < at + 4 * i + j then Xor(was[k], roundKey[BLOCK_LEN * round + k - at]) else was[k]
      {
        state[at + 4 * i + j] := state[at + 4 * i + j] ^ roundKey[round * 16 + i * 4 + j];
      }
    }
    hide Xor;
    assert state[..] == Put(was, at, AddRoundKey(roundKey[..], round, was[at..at + BLOCK_LEN]));
  }

  method SubBytesInPlace(state: array<byte>, at: nat)
    requires at + BLOCK_LEN <= state.Length
    modifies state
    ensures state[..] == Put(old(state[..]), at, SubBytes(old(state[at..at + BLOCK_LEN])))
  {
    hide Sbox;
    ghost var was := state[..];
    for i := 0 to 4
      invariant forall k :: 0 <= k < |was| ==>
        state[k] == if at <= k < at + BLOCK_LEN && (k - at) % 4 < i then Sbox(was[k]) else was[k]
    {
      for j := 0 to 4
        invariant forall k :: 0 <= k < |was| ==>
          state[k] == if at <= k < at + BLOCK_LEN && ((k - at) % 4 < i || ((k - at) % 4 == i && (k - at) / 4 < j))
                      then Sbox(was[k]) else was[k]
      {
        state[at + 4 * j + i] := Sbox(state[at + 4 * j + i]);
      }
    }
    assert state[..] == Put(was, at, SubBytes(was[at..at + BLOCK_LEN]));
  }

  method InvSubBytesInPlace(state: array<byte>, at: nat)
    requires at + BLOCK_LEN <= state.Length
    modifies state
    ensures state[..] == Put(old(state[..]), at, InvSubBytes(old(state[at..at + BLOCK_LEN])))
  {
    hide InvSbox;
    ghost var was := state[..];
    for i := 0 to 4
      invariant forall k :: 0 <= k < |was| ==>
        state[k] == if at <= k < at + BLOCK_LEN && (k - at) % 4 < i then InvSbox(was[k]) else was[k]
    {
      for j := 0 to 4
        invariant forall k :: 0 <= k < |was| ==>
          state[k] == if at <= k < at + BLOCK_LEN && ((k - at) % 4 < i || ((k - at) % 4 == i && (k - at) / 4 < j))
                      then InvSbox(was[k]) else was[k]
      {
        state[at + 4 * j + i] := InvSbox(state[at + 4 * j + i]);
      }
    }
    assert state[..] == Put(was, at, InvSubBytes(was[at..at + BLOCK_LEN]));
  }

  /** Each of four bytes moves one place along the cycle, the first to the last: `temp` and four assignments. */
  method Cycle(state: array<byte>, i0: nat, i1: nat, i2: nat, i3: nat)
    requires i0 < state.Length && i1 < state.Length && i2 < state.Length && i3 < state.Length
    requires i0 != i1 && i0 != i2 && i0 != i3 && i1 != i2 && i1 != i3 && i2 != i3
    modifies state
    ensures forall k :: 0 <= k < state.Length ==>
      state[k] == if k == i0 then old(state[i1]) else if k == i1 then old(state[i2])
                  else if k == i2 then old(state[i3]) else if k == i3 then old(state[i0]) else old(state[k])
  {
    var temp := state[i0];
    state[i0] := state[i1];
    state[i1] := state[i2];
    state[i2] := state[i3];
    state[i3] := temp;
  }

  method Swap(state: array<byte>, i: nat, j: nat)
    requires i < state.Length && j < state.Length
    modifies state
    ensures forall k :: 0 <= k < state.Length ==>
      state[k] == if k == i then old(state[j]) else if k == j then old(state[i]) else old(state[k])
  {
    var temp := state[i];
    state[i] := state[j];
    state[j] := temp;
  }

  /** ShiftRows of the block at `at`, written as the bytes the assignments move. */
  lemma ShiftRowsOfBytes(was: seq<byte>, at: nat)
    requires at + BLOCK_LEN <= |was|
    ensures var e := ShiftRows(was[at..at + BLOCK_LEN]);
            && e[0] == was[at] && e[1] == was[at + 5] && e[2] == was[at + 10] && e[3] == was[at + 15]
            && e[4] == was[at + 4] && e[5] == was[at + 9] && e[6] == was[at + 14] && e[7] == was[at + 3]
            && e[8] == was[at + 8] && e[9] == was[at + 13] && e[10] == was[at + 2] && e[11] == was[at + 7]
            && e[12] == was[at + 12] && e[13] == was[at + 1] && e[14] == was[at + 6] && e[15] == was[at + 11]
  {
    hide ShiftRows;
    ShiftRowsEntries(was[at..at + BLOCK_LEN]);
  }

  /** InvShiftRows of the block at `at`, written as the bytes the assignments move. */
  lemma InvShiftRowsOfBytes(was: seq<byte>, at: nat)
    requires at + BLOCK_LEN <= |was|
    ensures var e := InvShiftRows(was[at..at + BLOCK_LEN]);
            && e[0] == was[at] && e[1] == was[at + 13] && e[2] == was[at + 10] && e[3] == was[at + 7]
            && e[4] == was[at + 4] && e[5] == was[at + 1] && e[6] == was[at + 14] && e[7] == was[at + 11]
            && e[8] == was[at + 8] && e[9] == was[at + 5] && e[10] == was[at + 2] && e[11] == was[at + 15]
            && e[12] == was[at + 12] && e[13] == was[at + 9] && e[14] == was[at + 6] && e[15] == was[at + 3]
  {
    hide InvShiftRows;
    ShiftRowsEntries(was[at..at + BLOCK_LEN]);
  }

  method ShiftRowsInPlace(state: array<byte>, at: nat)
    requires at + BLOCK_LEN <= state.Length
    modifies state
    ensures state[..] == Put(old(state[..]), at, ShiftRows(old(state[at..at + BLOCK_LEN])))
  {
    ghost var was := state[..];
    Cycle(state, at + 1, at + 5, at + 9, at + 13);
    Swap(state, at + 2, at + 10);
    Swap(state, at + 6, at + 14);
    Cycle(state, at + 3, at + 15, at + 11, at + 7);
    hide ShiftRows, Put;
    ShiftRowsOfBytes(was, at);
    PutOfEntries(was, state[..], at, ShiftRows(was[at..at + BLOCK_LEN]));
  }

  method InvShiftRowsInPlace(state: array<byte>, at: nat)
    requires at + BLOCK_LEN <= state.Length
    modifies state
    ensures state[..] == Put(old(state[..]), at, InvShiftRows(old(state[at..at + BLOCK_LEN])))
  {
    ghost var was := state[..];
    Cycle(state, at + 13, at + 9, at + 5, at + 1);
    Swap(state, at + 2, at + 10);
    Swap(state, at + 6, at + 14);
    Cycle(state, at + 3, at + 7, at + 11, at + 15);
    hide InvShiftRows, Put;
    InvShiftRowsOfBytes(was, at);
    PutOfEntries(was, state[..], at, InvShiftRows(was[at..at + BLOCK_LEN]));
  }

  lemma AlongFirst(c: nat, n: nat)
    requires c < 4 && n < 8
    ensures Along(4 * c, n) == 4 * c + if n < 4 then n else n - 4
  {
    Division.DivUnique(4 * c, 4, c, 0);
    Division.DivUnique(4 * c + n, 4, if n < 4 then c else c + 1, if n < 4 then n else n - 4);
  }

  /** The four bytes of column `c` of the mixed states. */
  lemma ColumnBytes(s: Block, c: nat)
    requires c < 4
    ensures var p := 4 * c; var m := MixColumns(s);
            && m[p] == MixRow(s[p], s[p + 1], s[p + 2], s[p + 3])
            && m[p + 1] == MixRow(s[p + 1], s[p + 2], s[p + 3], s[p])
            && m[p + 2] == MixRow(s[p + 2], s[p + 3], s[p], s[p + 1])
            && m[p + 3] == MixRow(s[p + 3], s[p], s[p + 1], s[p + 2])
    ensures var p := 4 * c; var m := InvMixColumns(s);
            && m[p] == InvMixRow(s[p], s[p + 1], s[p + 2], s[p + 3])
            && m[p + 1] == InvMixRow(s[p + 1], s[p + 2], s[p + 3], s[p])
            && m[p + 2] == InvMixRow(s[p + 2], s[p + 3], s[p], s[p + 1])
            && m[p + 3] == InvMixRow(s[p + 3], s[p], s[p + 1], s[p + 2])
  {
    hide MixRow, InvMixRow, MixColumns, InvMixColumns, Along;
    var p := 4 * c;
    AlongFirst(c, 0);
    AlongFirst(c, 1);
    AlongFirst(c, 2);
    AlongFirst(c, 3);
    AlongFirst(c, 4);
    AlongFirst(c, 5);
    AlongFirst(c, 6);
    MixColumnsAlong(s, p, 0);
    MixColumnsAlong(s, p, 1);
    MixColumnsAlong(s, p, 2);
    MixColumnsAlong(s, p, 3);
  }

  lemma MixColumnBytes(s: Block, m: Block, c: nat)
    requires c < 4 && m == MixColumns(s)
    ensures m[4 * c] == MixRow(s[4 * c], s[4 * c + 1], s[4 * c + 2], s[4 * c + 3])
    ensures m[4 * c + 1] == MixRow(s[4 * c + 1], s[4 * c + 2], s[4 * c + 3], s[4 * c])
    ensures m[4 * c + 2] == MixRow(s[4 * c + 2], s[4 * c + 3], s[4 * c], s[4 * c + 1])
    ensures m[4 * c + 3] == MixRow(s[4 * c + 3], s[4 * c], s[4 * c + 1], s[4 * c + 2])
  {
    hide MixColumns, MixRow;
    ColumnBytes(s, c);
  }

  lemma InvMixColumnBytes(s: Block, m: Block, c: nat)
    requires c < 4 && m == InvMixColumns(s)
    ensures m[4 * c] == InvMixRow(s[4 * c], s[4 * c + 1], s[4 * c + 2], s[4 * c + 3])
    ensures m[4 * c + 1] == InvMixRow(s[4 * c + 1], s[4 * c + 2], s[4 * c + 3], s[4 * c])
    ensures m[4 * c + 2] == InvMixRow(s[4 * c + 2], s[4 * c + 3], s[4 * c], s[4 * c + 1])
    ensures m[4 * c + 3] == InvMixRow(s[4 * c + 3], s[4 * c], s[4 * c + 1], s[4 * c + 2])
  {
    hide InvMixColumns, InvMixRow;
    ColumnBytes(s, c);
  }

  /** Four bytes rewritten in place, the rest kept. */
  twostate predicate FourWritten(state: array<byte>, p: nat, a: byte, b: byte, c: byte, d: byte)
    requires p + 4 <= state.Length
    reads state
  {
    && state[p] == a && state[p + 1] == b && state[p + 2] == c && state[p + 3] == d
    && forall k :: 0 <= k < state.Length && !(p <= k < p + 4) ==> state[k] == old(state[k])
  }

  method MixColumn(state: array<byte>, p: nat)
    requires p + 4 <= state.Length
    modifies state
    ensures var a, b, c, d := old(state[p]), old(state[p + 1]), old(state[p + 2]), old(state[p + 3]);
            FourWritten(state, p, MixRow(a, b, c, d), MixRow(b, c, d, a), MixRow(c, d, a, b), MixRow(d, a, b, c))
  {
    hide MixRow, Xor, Xor4, XTime;
    ghost var a, b, c, d := state[p], state[p + 1], state[p + 2], state[p + 3];
    var t := state[p];
    var tmp := Xor4(state[p], state[p + 1], state[p + 2], state[p + 3]);
    var tm := XTime(Xor(state[p], state[p + 1]));
    state[p] := Xor(state[p], Xor(tm, tmp));
    tm := XTime(Xor(state[p + 1], state[p + 2]));
    state[p + 1] := Xor(state[p + 1], Xor(tm, tmp));
    tm := XTime(Xor(state[p + 2], state[p + 3]));
    state[p + 2] := Xor(state[p + 2], Xor(tm, tmp));
    tm := XTime(Xor(state[p + 3], t));
    state[p + 3] := Xor(state[p + 3], Xor(tm, tmp));
    MixRowByFolding(a, b, c, d);
    MixRowByFolding(b, c, d, a);
    MixRowByFolding(c, d, a, b);
    MixRowByFolding(d, a, b, c);
    Rotate(a, b, c, d);
    Rotate(b, c, d, a);
    Rotate(c, d, a, b);
  }

  lemma InvMixColumnByMultiply(a: byte, b: byte, c: byte, d: byte)
    ensures Xor4(Multiply(a, 0x0e), Multiply(b, 0x0b), Multiply(c, 0x0d), Multiply(d, 0x09)) == InvMixRow(a, b, c, d)
    ensures Xor4(Multiply(a, 0x09), Multiply(b, 0x0e), Multiply(c, 0x0b), Multiply(d, 0x0d)) == InvMixRow(b, c, d, a)
    ensures Xor4(Multiply(a, 0x0d), Multiply(b, 0x09), Multiply(c, 0x0e), Multiply(d, 0x0b)) == InvMixRow(c, d, a, b)
    ensures Xor4(Multiply(a, 0x0b), Multiply(b, 0x0d), Multiply(c, 0x09), Multiply(d, 0x0e)) == InvMixRow(d, a, b, c)
  {
    hide Multiply, Xor4, InvMixRow;
    InvMixRowByMultiply(a, b, c, d);
    InvMixRowByMultiply(b, c, d, a);
    InvMixRowByMultiply(c, d, a, b);
    InvMixRowByMultiply(d, a, b, c);
    Rotate(Multiply(a, 0x09), Multiply(b, 0x0e), Multiply(c, 0x0b), Multiply(d, 0x0d));
    Rotate(Multiply(a, 0x0d), Multiply(b, 0x09), Multiply(c, 0x0e), Multiply(d, 0x0b));
    Rotate(Multiply(b, 0x09), Multiply(c, 0x0e), Multiply(d, 0x0b), Multiply(a, 0x0d));
    Rotate(Multiply(d, 0x0e), Multiply(a, 0x0b), Multiply(b, 0x0d), Multiply(c, 0x09));
  }

  method InvMixColumn(state: array<byte>, p: nat)
    requires p + 4 <= state.Length
    modifies state
    ensures var a, b, c, d := old(state[p]), old(state[p + 1]), old(state[p + 2]), old(state[p + 3]);
            FourWritten(state, p, InvMixRow(a, b, c, d), InvMixRow(b, c, d, a),
                        InvMixRow(c, d, a, b), InvMixRow(d, a, b, c))
  {
    hide InvMixRow, Xor4, Multiply;
    var a, b, c, d := state[p], state[p + 1], state[p + 2], state[p + 3];
    state[p] := Xor4(Multiply(a, 0x0e), Multiply(b, 0x0b), Multiply(c, 0x0d), Multiply(d, 0x09));
    state[p + 1] := Xor4(Multiply(a, 0x09), Multiply(b, 0x0e), Multiply(c, 0x0b), Multiply(d, 0x0d));
    state[p + 2] := Xor4(Multiply(a, 0x0d), Multiply(b, 0x09), Multiply(c, 0x0e), Multiply(d, 0x0b));
    state[p + 3] := Xor4(Multiply(a, 0x0b), Multiply(b, 0x0d), Multiply(c, 0x09), Multiply(d, 0x0e));
    InvMixColumnByMultiply(a, b, c, d);
  }

  method MixColumnsInPlace(state: array<byte>, at: nat)
    requires at + BLOCK_LEN <= state.Length
    modifies state
    ensures state[..] == Put(old(state[..]), at, MixColumns(old(state[at..at + BLOCK_LEN])))
  {
    hide MixColumns, MixRow;
    ghost var was := state[..];
    ghost var s := was[at..at + BLOCK_LEN];
    ghost var m := MixColumns(s);
    for i := 0 to 4
      invariant forall k :: 0 <= k < |was| ==> state[k] == if at <= k < at + 4 * i then m[k - at] else was[k]
    {
      MixColumnBytes(s, m, i);
      MixColumn(state, at + 4 * i);
    }
    assert state[..] == Put(was, at, m);
  }

  method InvMixColumnsInPlace(state: array<byte>, at: nat)
    requires at + BLOCK_LEN <= state.Length
    modifies state
    ensures state[..] == Put(old(state[..]), at, InvMixColumns(old(state[at..at + BLOCK_LEN])))
  {
    hide InvMixColumns, InvMixRow;
    ghost var was := state[..];
    ghost var s := was[at..at + BLOCK_LEN];
    ghost var m := InvMixColumns(s);
    for i := 0 to 4
      invariant forall k :: 0 <= k < |was| ==> state[k] == if at <= k < at + 4 * i then m[k - at] else was[k]
    {
      InvMixColumnBytes(s, m, i);
      InvMixColumn(state, at + 4 * i);
    }
    assert state[..] == Put(was, at, m);
  }
}
