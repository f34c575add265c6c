/**
 * Machine words as numbers below 2^64.  Shifts are divisions by two, masks are
 * remainders, and setting or clearing one bit adds or subtracts its power of two.
 */
module Words {
  import opened Buddy

  const BITS := 64

  /** Bit `k` of a word, counted from the least significant one. */
  predicate Bit(w: nat, k: nat) {
    if k == 0 then w % 2 == 1 else Bit(w / 2, k - 1)
  }

  function SetBit(w: nat, k: nat): nat {
    if k == 0 then w / 2 * 2 + 1 else SetBit(w / 2, k - 1) * 2 + w % 2
  }

  function ClearBit(w: nat, k: nat): nat {
    if k == 0 then w / 2 * 2 else ClearBit(w / 2, k - 1) * 2 + w % 2
  }

  /** The number of significant bits. */
  function Length(w: nat): nat {
    if w == 0 then 0 else 1 + Length(w / 2)
  }

  lemma {:induction false} SetBitBits(w: nat, k: nat, j: nat)
    ensures Bit(SetBit(w, k), j) <==> j == k || Bit(w, j)
    ensures Bit(ClearBit(w, k), j) <==> j != k && Bit(w, j)
  {
    if k > 0 && j > 0 {
      SetBitBits(w / 2, k - 1, j - 1);
    }
  }

  lemma {:induction false} SetBitFits(w: nat, k: nat, n: nat)
    requires w < Pow2(n) && k < n
    ensures SetBit(w, k) < Pow2(n) && ClearBit(w, k) < Pow2(n)
  {
    if k > 0 {
      SetBitFits(w / 2, k - 1, n - 1);
    }
  }

  lemma {:induction false} TopBit(w: nat, j: nat)
    ensures w > 0 ==> Bit(w, Length(w) - 1)
    ensures j >= Length(w) ==> !Bit(w, j)
  {
    if w > 1 {
      TopBit(w / 2, if j > 0 then j - 1 else 0);
    } else if j > 0 && w == 1 {
      TopBit(0, j - 1);
    } else if w == 0 && j > 0 {
      TopBit(0, j - 1);
    }
  }

  lemma {:induction false} LengthFits(w: nat, n: nat)
    requires w < Pow2(n)
    ensures Length(w) <= n
  {
    if w > 0 {
      LengthFits(w / 2, n - 1);
    }
  }

  /** Masking keeps the low bits. */
  lemma {:induction false} LowBits(w: nat, n: nat, k: nat)
    ensures Bit(w % Pow2(n), k) <==> k < n && Bit(w, k)
  {
    if n == 0 {
      TopBit(0, k);
    } else {
      HalfMask(w, n);
      if k > 0 {
        LowBits(w / 2, n - 1, k - 1);
      }
    }
  }

  lemma HalfMask(w: nat, n: nat)
    requires n > 0
    ensures w % Pow2(n) / 2 == w / 2 % Pow2(n - 1) && w % Pow2(n) % 2 == w % 2
  {
    var d := Pow2(n - 1);
    var q, r := w / 2 / d, w / 2 % d;
    assert w == 2 * (q * d + r) + w % 2;
    assert w == q * (2 * d) + (2 * r + w % 2);
    assert 2 * r + w % 2 < 2 * d;
    Remainder(w, 2 * d, q, 2 * r + w % 2);
  }

  lemma Remainder(w: nat, d: nat, q: nat, r: nat)
    requires r < d && w == q * d + r
    ensures w % d == r && w / d == q
  {
    var e := w / d - q;
    assert e * d == r - w % d;
    assert e >= 1 ==> e * d >= d;
    assert e <= -1 ==> e * d + d <= 0;
  }
}
