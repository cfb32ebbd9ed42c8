/** The AES-128 key expansion: the in-place loop, the word recurrence it satisfies, and its inverse direction. */
module KeySchedule {
  import opened Bytes
  import opened AesTables
  import opened AesSteps

  const NK: nat := 4
  const KEY_LEN: nat := 16
  const WORDS: nat := 44

  type Word = w: seq<byte> | |w| == 4 witness [0, 0, 0, 0]

  function WordAt(w: seq<byte>, i: nat): Word
    requires 4 * i + 4 <= |w|
  {
    w[4 * i..4 * i + 4]
  }

  function XorWord(a: Word, b: Word): Word {
    [Xor(a[0], b[0]), Xor(a[1], b[1]), Xor(a[2], b[2]), Xor(a[3], b[3])]
  }

  /** SubWord(RotWord(w)) with the round constant added, every NK words; the word itself otherwise. */
  function Schedule(w: Word, i: nat): Word
    requires i < WORDS
  {
    if i % NK == 0 then [Xor(Sbox(w[1]), Rcon(i / NK)), Sbox(w[2]), Sbox(w[3]), Sbox(w[0])] else w
  }

  /** The recurrence of FIPS 197 section 5.2, at word `i`. */
  ghost predicate Recurs(w: seq<byte>, i: nat)
    requires NK <= i < WORDS && 4 * i + 4 <= |w|
  {
    WordAt(w, i) == XorWord(WordAt(w, i - NK), Schedule(WordAt(w, i - 1), i))
  }

  ghost predicate IsExpansion(w: seq<byte>) {
    |w| == ROUND_KEY_LEN && forall i :: NK <= i < WORDS ==> Recurs(w, i)
  }

  /** The first `n` words of the expansion of `key`. */
  function ExpandTo(key: seq<byte>, n: nat): (w: seq<byte>)
    requires |key| >= KEY_LEN && NK <= n <= WORDS
    ensures |w| == 4 * n && w[..KEY_LEN] == key[..KEY_LEN]
  {
    if n == NK then key[..KEY_LEN]
    else
      var w := ExpandTo(key, n - 1);
      w + XorWord(WordAt(w, n - 1 - NK), Schedule(WordAt(w, n - 2), n - 1))
  }

  function Expand(key: seq<byte>): (w: seq<byte>)
    requires |key| >= KEY_LEN
    ensures |w| == ROUND_KEY_LEN
  {
    ExpandTo(key, WORDS)
  }

  lemma WordOfPrefix(v: seq<byte>, x: seq<byte>, i: nat)
    requires 4 * i + 4 <= |v|
    ensures WordAt(v + x, i) == WordAt(v, i)
  { }

  lemma RecursInLonger(v: seq<byte>, x: seq<byte>, i: nat)
    requires NK <= i < WORDS && 4 * i + 4 <= |v|
    ensures Recurs(v + x, i) <==> Recurs(v, i)
  {
    hide Schedule, XorWord, WordAt;
    WordOfPrefix(v, x, i);
    WordOfPrefix(v, x, i - NK);
    WordOfPrefix(v, x, i - 1);
  }

  lemma RecursAtEnd(v: seq<byte>, n: nat)
    requires NK <= n < WORDS && |v| == 4 * n
    ensures Recurs(v + XorWord(WordAt(v, n - NK), Schedule(WordAt(v, n - 1), n)), n)
  {
    var x := XorWord(WordAt(v, n - NK), Schedule(WordAt(v, n - 1), n));
    assert WordAt(v + x, n) == x;
    hide Schedule, XorWord, WordAt;
    WordOfPrefix(v, x, n - NK);
    WordOfPrefix(v, x, n - 1);
  }

  lemma {:induction false} ExpandToRecurs(key: seq<byte>, n: nat)
    requires |key| >= KEY_LEN && NK <= n <= WORDS
    ensures forall i :: NK <= i < n ==> Recurs(ExpandTo(key, n), i)
  {
    hide Schedule, XorWord, WordAt, Recurs;
    if n > NK {
      ExpandToRecurs(key, n - 1);
      var v := ExpandTo(key, n - 1);
      var x := XorWord(WordAt(v, n - 1 - NK), Schedule(WordAt(v, n - 2), n - 1));
      assert ExpandTo(key, n) == v + x;
      forall i | NK <= i < n ensures Recurs(v + x, i) {
        if i < n - 1 {
          RecursInLonger(v, x, i);
        } else {
          RecursAtEnd(v, n - 1);
        }
      }
    }
  }

  /** The expansion starts with the key and obeys the recurrence at every later word. */
  lemma ExpandIsExpansion(key: seq<byte>)
    requires |key| >= KEY_LEN
    ensures IsExpansion(Expand(key)) && Expand(key)[..KEY_LEN] == key[..KEY_LEN]
  {
    hide Recurs;
    ExpandToRecurs(key, WORDS);
  }

  lemma XorWordCancels(a: Word, b: Word)
    ensures XorWord(XorWord(a, b), b) == a
  { }

  /** Two expansions that agree on the NK words from `i` on agree on the words before as well. */
  lemma {:induction false} AgreeBackwards(v: seq<byte>, w: seq<byte>, i: nat)
    requires IsExpansion(v) && IsExpansion(w) && i + NK <= WORDS
    requires forall j :: i <= j < i + NK ==> WordAt(v, j) == WordAt(w, j)
    ensures forall j :: 0 <= j < i ==> WordAt(v, j) == WordAt(w, j)
  {
    if i > 0 {
      hide Schedule, XorWord;
      var j := i - 1 + NK;
      assert Recurs(v, j) && Recurs(w, j);
      XorWordCancels(WordAt(v, i - 1), Schedule(WordAt(v, j - 1), j));
      XorWordCancels(WordAt(w, i - 1), Schedule(WordAt(w, j - 1), j));
      AgreeBackwards(v, w, i - 1);
    }
  }

  lemma {:induction false} AgreeForwards(v: seq<byte>, w: seq<byte>, i: nat, n: nat)
    requires IsExpansion(v) && IsExpansion(w) && i + NK <= n <= WORDS
    requires forall j :: i <= j < i + NK ==> WordAt(v, j) == WordAt(w, j)
    ensures forall j :: i <= j < n ==> WordAt(v, j) == WordAt(w, j)
  {
    if n > i + NK {
      hide Schedule, XorWord;
      AgreeForwards(v, w, i, n - 1);
      assert Recurs(v, n - 1) && Recurs(w, n - 1);
    }
  }

  /** Any NK consecutive words determine the whole expansion. */
  lemma ExpansionFromAnyWords(v: seq<byte>, w: seq<byte>, i: nat)
    requires IsExpansion(v) && IsExpansion(w) && i + NK <= WORDS
    requires v[4 * i..4 * i + KEY_LEN] == w[4 * i..4 * i + KEY_LEN]
    ensures v == w
  {
    forall j | i <= j < i + NK ensures WordAt(v, j) == WordAt(w, j) {
      SliceOfSlice(v, 4 * i, KEY_LEN, 4 * (j - i), 4 * (j - i) + 4);
      SliceOfSlice(w, 4 * i, KEY_LEN, 4 * (j - i), 4 * (j - i) + 4);
    }
    AgreeBackwards(v, w, i);
    AgreeForwards(v, w, i, WORDS);
    forall k | 0 <= k < |v| ensures v[k] == w[k] {
      assert v[k] == WordAt(v, k / 4)[k % 4] && w[k] == WordAt(w, k / 4)[k % 4];
    }
  }

  /** The NK words before `x`, if `x` stands at word `i + 1`. */
  function StepBack(x: Block, i: nat): (y: Block)
    requires i + NK < WORDS
  {
    XorWord(WordAt(x, 3), Schedule(WordAt(x, 2), i + NK)) + x[..12]
  }

  /** Any NK words at any place belong to an expansion. */
  lemma {:induction false} ExpansionThroughWords(x: Block, i: nat) returns (key: Block)
    requires i + NK <= WORDS
    ensures Expand(key)[4 * i..4 * i + KEY_LEN] == x
    decreases i
  {
    if i == 0 {
      key := x;
      ExpandIsExpansion(key);
    } else {
      key := ExpansionThroughWords(StepBack(x, i - 1), i - 1);
      ExpandIsExpansion(key);
      WordsForth(Expand(key), x, i - 1);
    }
  }

  /** One step of the recurrence undoes the step back. */
  lemma WordsForth(w: seq<byte>, x: Block, i: nat)
    requires i + NK < WORDS && IsExpansion(w) && w[4 * i..4 * i + KEY_LEN] == StepBack(x, i)
    ensures w[4 * (i + 1)..4 * (i + 1) + KEY_LEN] == x
  {
    hide Schedule, XorWord;
    var y, n := StepBack(x, i), i + NK;
    assert Recurs(w, n);
    SliceOfSlice(w, 4 * i, KEY_LEN, 0, 4);
    SliceOfSlice(w, 4 * i, KEY_LEN, 12, 16);
    SliceOfSlice(w, 4 * i, KEY_LEN, 4, 16);
    assert y[0..4] == XorWord(WordAt(x, 3), Schedule(WordAt(x, 2), n)) && y[12..16] == x[8..12] && y[4..16] == x[..12];
    XorWordCancels(WordAt(x, 3), Schedule(WordAt(x, 2), n));
    assert WordAt(w, n) == x[12..16];
    assert w[4 * (i + 1)..4 * (i + 1) + KEY_LEN] == w[4 * i + 4..4 * i + 16] + WordAt(w, n);
    assert x == x[..12] + x[12..16];
  }

  /** So the last round key already determines the cipher key. */
  lemma LastRoundKeyDeterminesKey(key: seq<byte>, other: seq<byte>)
    requires |key| == |other| == KEY_LEN
    requires Expand(key)[160..] == Expand(other)[160..]
    ensures key == other
  {
    ExpandIsExpansion(key);
    ExpandIsExpansion(other);
    var v, w := Expand(key), Expand(other);
    assert v[160..176] == v[160..] && w[160..176] == w[160..];
    ExpansionFromAnyWords(v, w, 40);
    assert key == v[..KEY_LEN] && other == w[..KEY_LEN];
  }

  /** And every block is the last round key of exactly one cipher key. */
  lemma LastRoundKeyIsBijection(x: Block)
    ensures exists key: Block :: Expand(key)[160..] == x
    ensures forall key: Block, other: Block :: Expand(key)[160..] == x && Expand(other)[160..] == x ==> key == other
  {
    hide Expand;
    var key := ExpansionThroughWords(x, 40);
    assert Expand(key)[160..] == Expand(key)[160..160 + KEY_LEN];
    forall key: Block, other: Block | Expand(key)[160..] == x && Expand(other)[160..] == x ensures key == other {
      LastRoundKeyDeterminesKey(key, other);
    }
  }

  method KeyExpansion(roundKey: array<byte>, key: seq<byte>)
    requires roundKey.Length == ROUND_KEY_LEN && |key| >= KEY_LEN
    modifies roundKey
    ensures roundKey[..] == Expand(key)
  {
    hide XorWord, Schedule, WordAt;
    for i := 0 to NK
      invariant forall k :: 0 <= k < 4 * i ==> roundKey[k] == key[k]
    {
      roundKey[i * 4 + 0] := key[i * 4 + 0];
      roundKey[i * 4 + 1] := key[i * 4 + 1];
      roundKey[i * 4 + 2] := key[i * 4 + 2];
      roundKey[i * 4 + 3] := key[i * 4 + 3];
    }
    assert roundKey[..4 * NK] == key[..KEY_LEN];
    for i := NK to WORDS
      invariant roundKey[..4 * i] == ExpandTo(key, i)
    {
      var temp := PreviousWord(roundKey, i);
      temp := ScheduleWord(temp, i);
      XorIntoNext(roundKey, i, temp);
    }
    assert roundKey[..] == roundKey[..4 * WORDS];
  }

  /** `tempa` at the top of an iteration. */
  method PreviousWord(roundKey: array<byte>, i: nat) returns (temp: Word)
    requires roundKey.Length == ROUND_KEY_LEN && NK <= i < WORDS
    ensures temp == WordAt(roundKey[..4 * i], i - 1)
  {
    var k := (i - 1) * 4;
    temp := [roundKey[k + 0], roundKey[k + 1], roundKey[k + 2], roundKey[k + 3]];
  }

  /** RotWord, SubWord and the round constant, for every NK-th word. */
  method ScheduleWord(previous: Word, i: nat) returns (temp: Word)
    requires NK <= i < WORDS
    ensures temp == Schedule(previous, i)
  {
    hide Sbox, Xor, Rcon;
    temp := previous;
    if i % NK == 0 {
      temp := [temp[1], temp[2], temp[3], temp[0]];
      temp := [Sbox(temp[0]), Sbox(temp[1]), Sbox(temp[2]), Sbox(temp[3])];
      temp := temp[0 := Xor(temp[0], Rcon(i / NK))];
    }
  }

  /** The last four assignments of an iteration. */
  method XorIntoNext(roundKey: array<byte>, i: nat, temp: Word)
    requires roundKey.Length == ROUND_KEY_LEN && NK <= i < WORDS
    modifies roundKey
    ensures roundKey[..4 * i] == old(roundKey[..4 * i])
    ensures roundKey[..4 * (i + 1)]
         == old(roundKey[..4 * i]) + XorWord(WordAt(old(roundKey[..4 * i]), i - NK), temp)
  {
    hide Xor;
    ghost var all, w := roundKey[..], roundKey[..4 * i];
    var j, k := i * 4, (i - NK) * 4;
    assert WordAt(w, i - NK) == [all[k], all[k + 1], all[k + 2], all[k + 3]];
    roundKey[j + 0] := Xor(roundKey[k + 0], temp[0]);
    roundKey[j + 1] := Xor(roundKey[k + 1], temp[1]);
    roundKey[j + 2] := Xor(roundKey[k + 2], temp[2]);
    roundKey[j + 3] := Xor(roundKey[k + 3], temp[3]);
    FourSet(all, roundKey[..], j, XorWord(WordAt(w, i - NK), temp));
    assert roundKey[..j] == roundKey[..][..j] && roundKey[..j + 4] == roundKey[..][..j + 4];
  }

  lemma FourSet(was: seq<byte>, now: seq<byte>, j: nat, x: Word)
    requires j + 4 <= |was| == |now|
    requires now == was[j := x[0]][j + 1 := x[1]][j + 2 := x[2]][j + 3 := x[3]]
    ensures now[..j] == was[..j] && now[..j + 4] == was[..j] + x
  { }
}
