/** Bitwise operators on naturals, bit by bit. */
module BitOps {

  function B(b: bool): nat {
    if b then 1 else 0
  }

  predicate GetBit(n: nat, i: nat) {
    if i == 0 then n % 2 == 1 else GetBit(n / 2, i - 1)
  }

  function SetBit(n: nat, i: nat, b: bool): nat {
    if i == 0 then n / 2 * 2 + B(b) else n % 2 + 2 * SetBit(n / 2, i - 1, b)
  }

  function Or(a: nat, b: nat): nat {
    if a == 0 && b == 0 then 0 else B(a % 2 == 1 || b % 2 == 1) + 2 * Or(a / 2, b / 2)
  }

  function Shl(n: nat, k: nat): nat {
    if k == 0 then n else 2 * Shl(n, k - 1)
  }

  function Shr(n: nat, k: nat): nat {
    if k == 0 then n else Shr(n / 2, k - 1)
  }

  /** `n & ((1 << k) - 1)`. */
  function Mask(n: nat, k: nat): nat {
    if k == 0 then 0 else n % 2 + 2 * Mask(n / 2, k - 1)
  }

  lemma {:induction false} GetSetBit(n: nat, i: nat, b: bool, j: nat)
    ensures GetBit(SetBit(n, i, b), j) == if i == j then b else GetBit(n, j)
  {
    if i > 0 && j > 0 {
      GetSetBit(n / 2, i - 1, b, j - 1);
    }
  }

  lemma {:induction false} GetOr(a: nat, b: nat, i: nat)
    ensures GetBit(Or(a, b), i) == (GetBit(a, i) || GetBit(b, i))
  {
    if i > 0 {
      GetOr(a / 2, b / 2, i - 1);
    }
  }

  lemma {:induction false} GetShl(n: nat, k: nat, i: nat)
    ensures GetBit(Shl(n, k), i) == (k <= i && GetBit(n, i - k))
  {
    if k > 0 && i > 0 {
      GetShl(n, k - 1, i - 1);
    }
  }

  lemma {:induction false} GetShr(n: nat, k: nat, i: nat)
    ensures GetBit(Shr(n, k), i) == GetBit(n, i + k)
  {
    if k > 0 {
      GetShr(n / 2, k - 1, i);
    }
  }

  lemma {:induction false} GetMask(n: nat, k: nat, i: nat)
    ensures GetBit(Mask(n, k), i) == (i < k && GetBit(n, i))
  {
    if k == 0 {
      GetZero(i);
    } else {
      var m := Mask(n / 2, k - 1);
      assert (n % 2 + 2 * m) / 2 == m && (n % 2 + 2 * m) % 2 == n % 2;
      if i > 0 {
        GetMask(n / 2, k - 1, i - 1);
      }
    }
  }

  lemma {:induction false} GetZero(i: nat)
    ensures !GetBit(0, i)
  {
    if i > 0 {
      GetZero(i - 1);
    }
  }

  /** Numbers with the same bits are equal. */
  lemma {:induction false} SameBits(a: nat, b: nat)
    requires forall i: nat :: GetBit(a, i) == GetBit(b, i)
    ensures a == b
    decreases a + b
  {
    assert GetBit(a, 0) == GetBit(b, 0);
    if a > 0 || b > 0 {
      forall i: nat
        ensures GetBit(a / 2, i) == GetBit(b / 2, i)
      {
        assert GetBit(a, i + 1) == GetBit(b, i + 1);
      }
      SameBits(a / 2, b / 2);
    }
  }

  /** A number below `2^k` has no bit at or above `k`. */
  lemma {:induction false} HighBits(n: nat, k: nat, i: nat)
    requires n < Shl(1, k) && k <= i
    ensures !GetBit(n, i)
  {
    if k == 0 {
      GetZero(i);
    } else {
      HighBits(n / 2, k - 1, i - 1);
    }
  }

  /** The number whose bits, from the lowest, are `s`. */
  function Pack(s: seq<bool>): nat {
    if s == [] then 0 else B(s[0]) + 2 * Pack(s[1..])
  }

  lemma {:induction false} GetPack(s: seq<bool>, i: nat)
    ensures GetBit(Pack(s), i) == (i < |s| && s[i])
  {
    if s == [] {
      GetZero(i);
    } else if i > 0 {
      GetPack(s[1..], i - 1);
    }
  }
}
