/** The bitmask of required fields: two words stand for a set of field numbers below 64. */
module RequiredMask {

  const ALL_BITS: bv32 := 0xFFFF_FFFF

  /** `w << n`, one place at a time. */
  function ShiftLeft(w: bv32, n: nat): bv32 {
    if n == 0 then w else ShiftLeft(w, n - 1) << 1
  }

  /** `w >> n`, one place at a time. */
  function ShiftRight(w: bv32, n: nat): bv32 {
    if n == 0 then w else ShiftRight(w, n - 1) >> 1
  }

  function Bit(k: nat): bv32
    requires k < 32
  {
    ShiftLeft(1, k)
  }

  predicate BitSet(w: bv32, j: nat)
    requires j < 32
  {
    w & Bit(j) != 0
  }

  /** The words hold exactly the numbers in seen. */
  predicate Represents(words: seq<bv32>, seen: set<nat>) {
    |words| == 2 && forall k: nat | k < 64 :: BitSet(words[k / 32], k % 32) <==> k in seen
  }

  // ---------------------------------------------------------------------------------------------
  // Single bits
  // ---------------------------------------------------------------------------------------------

  lemma {:induction false} TopBit()
    ensures ShiftLeft(1, 31) == 0x8000_0000
  {
    assert ShiftLeft(1, 8) == 0x100;
    assert ShiftLeft(1, 16) == 0x1_0000;
    assert ShiftLeft(1, 24) == 0x100_0000;
  }

  lemma {:induction false} ZeroStays(k: nat, n: nat)
    requires k <= n && ShiftLeft(1, k) == 0
    ensures ShiftLeft(1, n) == 0
    decreases n
  {
    if k < n {
      ZeroStays(k, n - 1);
    }
  }

  predicate PowerOfTwo(v: bv32) {
    v != 0 && v & (v - 1) == 0
  }

  lemma {:induction false} DoublePower(v: bv32)
    requires PowerOfTwo(v)
    ensures v << 1 != 0 <==> v < 0x8000_0000
    ensures v << 1 != 0 ==> PowerOfTwo(v << 1)
  {
  }

  lemma {:induction false} BitIsPower(k: nat)
    requires k < 32
    ensures PowerOfTwo(Bit(k))
    ensures k < 31 ==> Bit(k) < 0x8000_0000
  {
    hide PowerOfTwo;
    TopBit();
    if Bit(k) == 0 {
      ZeroStays(k, 31);
    }
    if k < 31 && ShiftLeft(1, k + 1) == 0 {
      ZeroStays(k + 1, 31);
    }
    if k > 0 {
      BitIsPower(k - 1);
      DoublePower(Bit(k - 1));
    } else {
      OneIsPower();
    }
    DoublePower(Bit(k));
  }

  lemma {:induction false} OneIsPower()
    ensures PowerOfTwo(1)
  {
  }

  lemma {:induction false} EvenBit(v: bv32)
    ensures 1 & (v << 1) == 0
  {
  }

  lemma {:induction false} NextBit(k: nat)
    requires 0 < k < 32
    ensures Bit(k) == Bit(k - 1) << 1 && Bit(0) == 1
  {
  }

  lemma {:induction false} BitsDisjoint(j: nat, k: nat)
    requires j < k < 32
    ensures Bit(j) & Bit(k) == 0
  {
    hide Bit;
    NextBit(k);
    if j > 0 {
      NextBit(j);
      BitsDisjoint(j - 1, k - 1);
      ShiftDisjoint(Bit(j - 1), Bit(k - 1));
    } else {
      EvenBit(Bit(k - 1));
    }
  }

  lemma {:induction false} ShiftDisjoint(u: bv32, v: bv32)
    requires u & v == 0
    ensures (u << 1) & (v << 1) == 0
  {
  }

  lemma {:induction false} OrBit(w: bv32, u: bv32, v: bv32)
    ensures (w | u) & v == (w & v) | (u & v)
  {
  }

  lemma {:induction false} OrNonzero(a: bv32, b: bv32)
    ensures a | b != 0 <==> a != 0 || b != 0
  {
  }

  lemma {:induction false} AndFacts(u: bv32, v: bv32)
    ensures u & v == v & u && u & u == u
  {
  }

  lemma {:induction false} SetBit(w: bv32, k: nat, j: nat)
    requires k < 32 && j < 32
    ensures BitSet(w | Bit(k), j) <==> BitSet(w, j) || j == k
  {
    hide Bit;
    OrBit(w, Bit(k), Bit(j));
    OrNonzero(w & Bit(j), Bit(k) & Bit(j));
    AndFacts(Bit(k), Bit(j));
    BitIsPower(j);
    if j < k {
      BitsDisjoint(j, k);
    } else if k < j {
      BitsDisjoint(k, j);
    }
  }

  lemma {:induction false} ShiftedMask(m: bv32, v: bv32)
    requires v < 0x8000_0000
    ensures (m >> 1) & v != 0 <==> m & (v << 1) != 0
  {
  }

  lemma {:induction false} TopShiftedOut(m: bv32)
    ensures (m >> 1) & 0x8000_0000 == 0
  {
  }

  lemma {:induction false} AllSet(v: bv32)
    ensures ALL_BITS & v == v
  {
  }

  /** `allbits >> n` keeps the 32 - n lowest bits. */
  lemma {:induction false} LowBits(n: nat, j: nat)
    requires n < 32 && j < 32
    ensures BitSet(ShiftRight(ALL_BITS, n), j) <==> j < 32 - n
  {
    if n == 0 {
      AllSet(Bit(j));
      BitIsPower(j);
    } else if j == 31 {
      TopBit();
      TopShiftedOut(ShiftRight(ALL_BITS, n - 1));
    } else {
      LowBits(n - 1, j + 1);
      BitIsPower(j);
      ShiftedMask(ShiftRight(ALL_BITS, n - 1), Bit(j));
    }
  }

  // ---------------------------------------------------------------------------------------------
  // Words
  // ---------------------------------------------------------------------------------------------

  lemma {:induction false} AgreeingPower(a: bv32, b: bv32, v: bv32)
    requires PowerOfTwo(v) && (a & v != 0 <==> b & v != 0)
    ensures a & v == b & v
  {
  }

  lemma {:induction false} BitSetMeans(w: bv32, j: nat, v: bv32)
    requires j < 32 && v == Bit(j)
    ensures PowerOfTwo(v) && (BitSet(w, j) <==> w & v != 0)
  {
    BitIsPower(j);
    hide Bit, PowerOfTwo;
  }

  lemma {:induction false} AgreeingBit(a: bv32, b: bv32, j: nat, v: bv32)
    requires j < 32 && v == Bit(j) && (BitSet(a, j) <==> BitSet(b, j))
    ensures a & v == b & v
  {
    hide Bit, BitSet, PowerOfTwo;
    BitSetMeans(a, j, v);
    BitSetMeans(b, j, v);
    AgreeingPower(a, b, v);
  }

  /** The n lowest bits. */
  function Low(n: nat): bv32
    requires n <= 32
  {
    if n == 0 then 0 else Low(n - 1) | Bit(n - 1)
  }

  lemma {:induction false} AndOr(a: bv32, u: bv32, v: bv32)
    ensures a & (u | v) == (a & u) | (a & v)
  {
  }

  /** Words that agree in each of the n lowest bits agree in all of them; */
  lemma {:induction false} SameLow(a: bv32, b: bv32, n: nat)
    requires n <= 32 && forall j: nat | j < n :: BitSet(a, j) <==> BitSet(b, j)
    ensures a & Low(n) == b & Low(n)
  {
    if n == 0 {
      ZeroMask(a);
      ZeroMask(b);
    } else {
      hide Bit, BitSet;
      SameLow(a, b, n - 1);
      AgreeingBit(a, b, n - 1, Bit(n - 1));
      AndOr(a, Low(n - 1), Bit(n - 1));
      AndOr(b, Low(n - 1), Bit(n - 1));
    }
  }

  lemma {:induction false} ZeroMask(w: bv32)
    ensures w & 0 == 0
  {
  }

  lemma {:induction false} AllMask(w: bv32)
    ensures w & 0xFFFF_FFFF == w
  {
  }

  lemma {:induction false} BelowPower(v: bv32)
    requires PowerOfTwo(v)
    ensures (v - 1) | v == (v << 1) - 1
  {
  }

  lemma {:induction false} LowIsBelowBit(n: nat)
    requires n < 32
    ensures Low(n) == Bit(n) - 1
  {
    if n == 0 {
      assert Bit(0) == 1;
    } else {
      NextBit(n);
      BitIsPower(n - 1);
      hide Bit, PowerOfTwo;
      LowIsBelowBit(n - 1);
      BelowPower(Bit(n - 1));
    }
  }

  lemma {:induction false} AllLow()
    ensures Low(32) == 0xFFFF_FFFF
  {
    LowIsBelowBit(31);
    TopBit();
    assert Bit(31) == 0x8000_0000;
    hide Bit;
    assert Low(32) == Low(31) | Bit(31);
  }

  /** and words that agree in all bits are equal. */
  lemma {:induction false} SameBitsSameWord(a: bv32, b: bv32)
    requires forall j: nat | j < 32 :: BitSet(a, j) <==> BitSet(b, j)
    ensures a == b
  {
    hide BitSet, Low;
    SameLow(a, b, 32);
    AllLow();
    AllMask(a);
    AllMask(b);
  }

  /** A word with no bit from r on equals the mask of r low bits exactly when it has all of them. */
  lemma {:induction false} FullWord(w: bv32, r: nat)
    requires 0 < r <= 32 && forall j: nat | r <= j < 32 :: !BitSet(w, j)
    ensures w == ShiftRight(ALL_BITS, 32 - r) <==> forall j: nat | j < r :: BitSet(w, j)
  {
    hide BitSet, Bit, ShiftRight;
    var m := ShiftRight(ALL_BITS, 32 - r);
    forall j: nat | j < 32 ensures BitSet(m, j) <==> j < r {
      LowBits(32 - r, j);
    }
    if forall j: nat | j < r :: BitSet(w, j) {
      SameBitsSameWord(w, m);
    }
  }

  // ---------------------------------------------------------------------------------------------
  // The two words
  // ---------------------------------------------------------------------------------------------

  lemma {:induction false} ZeroHasNone(v: bv32)
    ensures 0 & v == 0
  {
  }

  lemma {:induction false} NothingSeen()
    ensures Represents([0, 0], {})
  {
    hide Bit;
    var w: bv32 := 0;
    var words := [w, w];
    forall k: nat | k < 64 ensures !BitSet(words[k / 32], k % 32) {
      ZeroHasNone(Bit(k % 32));
    }
  }

  lemma {:induction false} MarkSeen(words: seq<bv32>, seen: set<nat>, k: nat)
    requires Represents(words, seen) && k < 64
    ensures Represents(words[k / 32 := words[k / 32] | Bit(k % 32)], seen + {k})
  {
    hide BitSet, Bit;
    var words' := words[k / 32 := words[k / 32] | Bit(k % 32)];
    forall j: nat | j < 64
      ensures BitSet(words'[j / 32], j % 32) <==> j in seen + {k}
    {
      SetBit(words[k / 32], k % 32, j % 32);
      SameIndex(j, k);
      assert BitSet(words[j / 32], j % 32) <==> j in seen;
    }
  }

  lemma {:induction false} SameIndex(j: nat, k: nat)
    ensures j == k <==> j / 32 == k / 32 && j % 32 == k % 32
  {
  }

  lemma {:induction false} WholeWord(words: seq<bv32>, seen: set<nat>, i: nat)
    requires Represents(words, seen) && i < 2
    ensures words[i] == ALL_BITS <==> forall k: nat | 32 * i <= k < 32 * i + 32 :: k in seen
  {
    hide BitSet, ShiftRight;
    var w := words[i];
    assert ShiftRight(ALL_BITS, 0) == ALL_BITS by { NoShift(); }
    FullWord(w, 32);
    forall j: nat | j < 32 ensures BitSet(w, j) <==> 32 * i + j in seen {
      WordIndex(i, j);
      assert BitSet(words[(32 * i + j) / 32], (32 * i + j) % 32) <==> 32 * i + j in seen;
    }
    if forall j: nat | j < 32 :: BitSet(w, j) {
      forall k: nat | 32 * i <= k < 32 * i + 32 ensures k in seen {
        assert BitSet(w, k - 32 * i);
      }
    }
  }

  lemma {:induction false} PartialWord(words: seq<bv32>, seen: set<nat>, i: nat, r: nat)
    requires Represents(words, seen) && i < 2 && 0 < r < 32
    requires forall k | k in seen :: k < 32 * i + r
    ensures words[i] == ShiftRight(ALL_BITS, 32 - r) <==> forall k: nat | 32 * i <= k < 32 * i + r :: k in seen
  {
    hide BitSet, ShiftRight;
    var w := words[i];
    forall j: nat | j < 32 ensures BitSet(w, j) <==> 32 * i + j in seen {
      WordIndex(i, j);
      assert BitSet(words[(32 * i + j) / 32], (32 * i + j) % 32) <==> 32 * i + j in seen;
    }
    FullWord(w, r);
    if forall j: nat | j < r :: BitSet(w, j) {
      forall k: nat | 32 * i <= k < 32 * i + r ensures k in seen {
        assert BitSet(w, k - 32 * i);
      }
    }
  }

  lemma {:induction false} NoShift()
    ensures ShiftRight(ALL_BITS, 0) == ALL_BITS
  {
  }

  lemma {:induction false} WordIndex(i: nat, j: nat)
    requires j < 32
    ensures (32 * i + j) / 32 == i && (32 * i + j) % 32 == j
  {
  }

  /** The final check of pb_decode_noinit: whole words first, then the remaining bits. It passes exactly when all of
      the first count fields were seen. */
  method AllPresent(fieldsSeen: array<bv32>, count: nat, ghost seen: set<nat>) returns (ok: bool)
    requires Represents(fieldsSeen[..], seen) && count <= 64 && forall k | k in seen :: k < count
    ensures ok <==> forall k: nat | k < count :: k in seen
  {
    hide Represents, BitSet;
    assert fieldsSeen[..] == [fieldsSeen[0], fieldsSeen[1]] by { TwoWords(fieldsSeen[..], seen); }
    if count > 0 {
      for i := 0 to count / 32
        invariant forall k: nat | k < 32 * i :: k in seen
      {
        WholeWord(fieldsSeen[..], seen, i);
        if fieldsSeen[i] != ALL_BITS {
          return false;
        }
      }
      // The last word may be partial.
      if count % 32 != 0 {
        PartialWord(fieldsSeen[..], seen, count / 32, count % 32);
        if fieldsSeen[count / 32] != ShiftRight(ALL_BITS, 32 - count % 32) {
          return false;
        }
      }
    }
    return true;
  }

  lemma {:induction false} TwoWords(words: seq<bv32>, seen: set<nat>)
    requires Represents(words, seen)
    ensures |words| == 2
  {
  }
}
