/**
 The bitwise operators of Go on unsigned words, defined bit by bit over the
 naturals: `|`, `&`, and the single-bit word `1 << k`.
 */
module Bits {
  /** Bit `k` of `w`. */
  predicate Bit(w: nat, k: nat) {
    if k == 0 then w % 2 == 1 else Bit(w / 2, k - 1)
  }

  /** `1 << k`. */
  function Shift(k: nat): (w: nat)
    ensures w > 0
  {
    if k == 0 then 1 else 2 * Shift(k - 1)
  }

  function Or(a: nat, b: nat): nat {
    if a == 0 then b
    else if b == 0 then a
    else (if a % 2 == 1 || b % 2 == 1 then 1 else 0) + 2 * Or(a / 2, b / 2)
  }

  function And(a: nat, b: nat): nat {
    if a == 0 || b == 0 then 0
    else (if a % 2 == 1 && b % 2 == 1 then 1 else 0) + 2 * And(a / 2, b / 2)
  }

  lemma {:induction false} BitZero(k: nat)
    ensures !Bit(0, k)
  {
    if k > 0 { BitZero(k - 1); }
  }

  lemma {:induction false} OrBit(a: nat, b: nat, k: nat)
    ensures Bit(Or(a, b), k) <==> Bit(a, k) || Bit(b, k)
    decreases k
  {
    BitZero(k);
    if a > 0 && b > 0 && k > 0 { OrBit(a / 2, b / 2, k - 1); }
  }

  lemma {:induction false} AndBit(a: nat, b: nat, k: nat)
    ensures Bit(And(a, b), k) <==> Bit(a, k) && Bit(b, k)
    decreases k
  {
    BitZero(k);
    if a > 0 && b > 0 && k > 0 { AndBit(a / 2, b / 2, k - 1); }
  }

  lemma {:induction false} ShiftBit(j: nat, k: nat)
    ensures Bit(Shift(j), k) <==> j == k
    decreases k
  {
    if k == 0 {
    } else if j == 0 {
      BitZero(k - 1);
    } else {
      ShiftBit(j - 1, k - 1);
    }
  }

  /** A word is non-zero exactly when one of its bits is set. */
  lemma {:induction false} NonZeroHasBit(w: nat) returns (k: nat)
    requires w > 0
    ensures Bit(w, k)
  {
    if w % 2 == 1 {
      k := 0;
    } else {
      var j := NonZeroHasBit(w / 2);
      k := j + 1;
    }
  }

  /** The library's membership test `w & (1 << k) > 0` reads bit `k`. */
  lemma TestBit(w: nat, k: nat)
    ensures And(w, Shift(k)) > 0 <==> Bit(w, k)
  {
    AndBit(w, Shift(k), k);
    ShiftBit(k, k);
    BitZero(k);
    if And(w, Shift(k)) > 0 {
      var j := NonZeroHasBit(And(w, Shift(k)));
      AndBit(w, Shift(k), j);
      ShiftBit(k, j);
    }
  }

  lemma {:induction false} OrBound(a: nat, b: nat, n: nat)
    requires a < Shift(n) && b < Shift(n)
    ensures Or(a, b) < Shift(n)
  {
    if a > 0 && b > 0 { OrBound(a / 2, b / 2, n - 1); }
  }

  lemma {:induction false} ShiftMono(j: nat, k: nat)
    requires j < k
    ensures Shift(j) < Shift(k)
  {
    if j > 0 { ShiftMono(j - 1, k - 1); } else { assert Shift(k - 1) >= 1; }
  }

  /** `a & m == a` when the low `n` bits of `m` are all ones and `a` has no others. */
  lemma {:induction false} AndOnes(a: nat, m: nat, n: nat)
    requires a < Shift(n)
    requires forall k :: 0 <= k < n ==> Bit(m, k)
    ensures And(a, m) == a
  {
    if a > 0 {
      assert Bit(m, 0);
      forall k | 0 <= k < n - 1 ensures Bit(m / 2, k) { assert Bit(m, k + 1); }
      AndOnes(a / 2, m / 2, n - 1);
    }
  }

  lemma Halved(w: nat, s: nat)
    requires s > 0
    ensures w == 2 * s - 1 <==> w % 2 == 1 && w / 2 == s - 1
    ensures w < 2 * s ==> w / 2 < s
  {
  }

  lemma {:induction false} OnesSet(n: nat, k: nat)
    requires k < n
    ensures Bit(Shift(n) - 1, k)
    decreases n
  {
    Halved(Shift(n) - 1, Shift(n - 1));
    if k > 0 { OnesSet(n - 1, k - 1); }
  }

  lemma {:induction false} OnesOnly(w: nat, n: nat)
    requires w < Shift(n) && forall k :: 0 <= k < n ==> Bit(w, k)
    ensures w == Shift(n) - 1
    decreases n
  {
    if n > 0 {
      Halved(w, Shift(n - 1));
      assert Bit(w, 0);
      forall k | 0 <= k < n - 1 ensures Bit(w / 2, k) { assert Bit(w, k + 1); }
      OnesOnly(w / 2, n - 1);
    }
  }

  /** The low `n` bits are all set. */
  ghost predicate AllOnes(w: nat, n: nat) {
    forall k :: 0 <= k < n ==> Bit(w, k)
  }

  /** A word has all its bits set exactly when it is the largest of its width. */
  lemma OnesIff(w: nat, n: nat)
    requires w < Shift(n)
    ensures w == Shift(n) - 1 <==> AllOnes(w, n)
  {
    if w == Shift(n) - 1 {
      forall k | 0 <= k < n ensures Bit(w, k) { OnesSet(n, k); }
      assert AllOnes(w, n);
    }
    if AllOnes(w, n) { OnesOnly(w, n); }
  }

  /** Shifting both words shifts their conjunction. */
  lemma {:induction false} AndScaled(a: nat, b: nat, n: nat)
    ensures And(a * Shift(n), b * Shift(n)) == And(a, b) * Shift(n)
    decreases n
  {
    hide And;
    if n > 0 {
      var s := Shift(n - 1);
      AndScaled(a, b, n - 1);
      assert a * (2 * s) == 2 * (a * s) && b * (2 * s) == 2 * (b * s);
      AndDoubled(a * s, b * s);
    }
  }

  lemma AndDoubled(a: nat, b: nat)
    ensures And(2 * a, 2 * b) == 2 * And(a, b)
  {
    assert 2 * a / 2 == a && 2 * b / 2 == b;
  }

  /** The width of a 32-bit word. */
  lemma ShiftWidth()
    ensures Shift(32) == 0x1_0000_0000
  {
    assert Shift(4) == 16 && Shift(8) == 256;
    assert Shift(12) == 4096 && Shift(16) == 0x1_0000;
    assert Shift(20) == 0x10_0000 && Shift(24) == 0x100_0000;
    assert Shift(28) == 0x1000_0000;
  }
}
