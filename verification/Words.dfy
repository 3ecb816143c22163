/**
Machine words: the bit operations behind the ring's capacity and slot index, and the
signed difference of two 64-bit counters.  A word is a natural number, and the operations
are defined bit by bit.
*/
module Words {
  import opened Types
  import Modular

  function Pow2(k: nat): (p: nat)
    ensures p >= 1
  {
    if k == 0 then 1 else 2 * Pow2(k - 1)
  }

  function Bit(n: nat, i: nat): bool {
    if i == 0 then n % 2 == 1 else Bit(n / 2, i - 1)
  }

  function Or(a: nat, b: nat): nat {
    if a == 0 && b == 0 then 0
    else (if a % 2 == 1 || b % 2 == 1 then 1 else 0) + 2 * Or(a / 2, b / 2)
  }

  function And(a: nat, b: nat): nat {
    if a == 0 && b == 0 then 0
    else (if a % 2 == 1 && b % 2 == 1 then 1 else 0) + 2 * And(a / 2, b / 2)
  }

  function Shr(n: nat, s: nat): nat {
    if s == 0 then n else Shr(n / 2, s - 1)
  }

  /** The number of bits of n up to its highest 1. */
  function BitLen(n: nat): nat {
    if n == 0 then 0 else 1 + BitLen(n / 2)
  }

  lemma {:induction false} OrBit(a: nat, b: nat, i: nat)
    ensures Bit(Or(a, b), i) == (Bit(a, i) || Bit(b, i))
  {
    if a == 0 && b == 0 {
      ZeroBit(i);
    } else if i > 0 {
      assert Or(a, b) / 2 == Or(a / 2, b / 2);
      OrBit(a / 2, b / 2, i - 1);
    }
  }

  lemma {:induction false} ZeroBit(i: nat)
    ensures !Bit(0, i)
  {
    if i > 0 { ZeroBit(i - 1); }
  }

  lemma {:induction false} ShrBit(n: nat, s: nat, i: nat)
    ensures Bit(Shr(n, s), i) == Bit(n, i + s)
  {
    if s > 0 { ShrBit(n / 2, s - 1, i); }
  }

  lemma {:induction false} BitLenBounds(n: nat)
    ensures n < Pow2(BitLen(n))
    ensures n > 0 ==> Pow2(BitLen(n) - 1) <= n
  {
    if n > 0 { BitLenBounds(n / 2); }
  }

  lemma {:induction false} BitsAboveLen(n: nat, i: nat)
    requires i >= BitLen(n)
    ensures !Bit(n, i)
  {
    if n == 0 { ZeroBit(i); } else { BitsAboveLen(n / 2, i - 1); }
  }

  lemma {:induction false} TopBit(n: nat)
    requires n > 0
    ensures Bit(n, BitLen(n) - 1)
  {
    if n > 1 { TopBit(n / 2); }
  }

  lemma {:induction false} Pow2Monotone(a: nat, b: nat)
    requires a <= b
    ensures Pow2(a) <= Pow2(b)
    decreases b - a
  {
    if a < b { Pow2Monotone(a, b - 1); }
  }

  /** The highest s of the lowest len bits are 1 and no bit above them is. */
  ghost predicate TopOnes(n: nat, len: nat, s: nat) {
    && (forall i: nat :: len <= i ==> !Bit(n, i))
    && (forall i: nat :: i < len <= i + s ==> Bit(n, i))
  }

  lemma SmearDoubles(n: nat, len: nat, s: nat)
    requires TopOnes(n, len, s)
    ensures TopOnes(Or(n, Shr(n, s)), len, 2 * s)
  {
    var m := Or(n, Shr(n, s));
    forall i: nat | len <= i ensures !Bit(m, i) {
      OrBit(n, Shr(n, s), i);
      ShrBit(n, s, i);
    }
    forall i: nat | i < len <= i + 2 * s ensures Bit(m, i) {
      OrBit(n, Shr(n, s), i);
      ShrBit(n, s, i);
      assert len <= i + s || i + s < len <= (i + s) + s;
    }
  }

  lemma {:induction false} AllOnes(n: nat, len: nat)
    requires forall i: nat :: Bit(n, i) <==> i < len
    ensures n == Pow2(len) - 1
    decreases len
  {
    if len == 0 {
      if n > 0 { TopBit(n); }
    } else {
      assert Bit(n, 0);
      forall i: nat ensures Bit(n / 2, i) <==> i < len - 1 {
        assert Bit(n, i + 1) == Bit(n / 2, i);
      }
      AllOnes(n / 2, len - 1);
    }
  }

  lemma Pow63()
    ensures Pow2(63) == TWO63 && Pow2(64) == TWO64
  {
    assert Pow2(8) == 0x100;
    assert Pow2(16) == 0x1_0000;
    assert Pow2(24) == 0x100_0000;
    assert Pow2(32) == 0x1_0000_0000;
    assert Pow2(40) == 0x100_0000_0000;
    assert Pow2(48) == 0x1_0000_0000_0000;
    assert Pow2(56) == 0x100_0000_0000_0000;
  }

  /** n is 2^k, at least x, and no smaller power of two is. */
  ghost predicate LeastPower(x: nat, n: nat, k: nat) {
    n == Pow2(k) && x <= n && forall j: nat :: x <= Pow2(j) ==> k <= j && n <= Pow2(j)
  }

  /**
  Rounds a 64-bit word up to a power of two by smearing its highest bit downwards.  Above
  2^63 the final increment wraps round to 0.
  */
  method NextPowerOfTwo(x: nat) returns (n: nat)
    requires x < TWO64
    ensures x <= TWO63 ==> exists k: nat :: LeastPower(x, n, k)
    ensures x > TWO63 ==> n == 0
  {
    if x == 0 {
      assert LeastPower(x, 1, 0);
      return 1;
    }
    n := x - 1;
    ghost var len := BitLen(n);
    ZeroOnes(n);
    n := SmearBy(n, 1, len);
    n := SmearBy(n, 2, len);
    n := SmearBy(n, 4, len);
    n := SmearBy(n, 8, len);
    n := SmearBy(n, 16, len);
    n := SmearBy(n, 32, len);
    Smeared(x - 1, n, len);
    Rounded(x, len);
    WrapOnce(Pow2(len));
    n := (n + 1) % TWO64;
    assert x <= TWO63 ==> LeastPower(x, n, len);
  }

  lemma WrapOnce(p: nat)
    ensures p <= TWO63 ==> p % TWO64 == p
    ensures p == TWO64 ==> p % TWO64 == 0
  {
    if p <= TWO63 { Modular.Unique(p, 0, p, TWO64); }
  }

  /** n |= n >> s */
  method SmearBy(n: nat, s: nat, ghost len: nat) returns (m: nat)
    requires TopOnes(n, len, s)
    ensures TopOnes(m, len, 2 * s)
  {
    SmearDoubles(n, len, s);
    m := Or(n, Shr(n, s));
  }

  lemma ZeroOnes(n: nat)
    ensures TopOnes(n, BitLen(n), 1)
  {
    forall i: nat | BitLen(n) <= i ensures !Bit(n, i) { BitsAboveLen(n, i); }
    if n > 0 { TopBit(n); }
  }

  lemma Smeared(start: nat, n: nat, len: nat)
    requires start < TWO64 && len == BitLen(start) && TopOnes(n, len, 64)
    ensures len <= 64 && n == Pow2(len) - 1
  {
    BitLenBounds(start);
    Pow63();
    if len > 64 { Pow2Monotone(64, len - 1); }
    AllOnes(n, len);
  }

  lemma Rounded(x: nat, len: nat)
    requires 0 < x < TWO64 && len == BitLen(x - 1) && len <= 64
    ensures LeastPower(x, Pow2(len), len)
    ensures x <= TWO63 ==> Pow2(len) <= TWO63
    ensures x > TWO63 ==> Pow2(len) == TWO64
  {
    BitLenBounds(x - 1);
    Pow63();
    forall j: nat | x <= Pow2(j) ensures len <= j && Pow2(len) <= Pow2(j) {
      if j < len { Pow2Monotone(j, len - 1); }
      Pow2Monotone(len, j);
    }
    if x <= TWO63 && len == 64 { assert false; }
    if x <= TWO63 && len < 64 { Pow2Monotone(len, 63); }
    if x > TWO63 && len < 64 { Pow2Monotone(len, 63); }
  }

  /** For a power-of-two capacity, masking a ticket with capacity - 1 is its remainder. */
  lemma MaskIsRemainder(ticket: nat, k: nat)
    ensures And(ticket, Pow2(k) - 1) == ticket % Pow2(k)
  {
    var q := MaskSplits(ticket, k);
    Modular.Unique(ticket, q, And(ticket, Pow2(k) - 1), Pow2(k));
  }

  lemma {:induction false} MaskSplits(ticket: nat, k: nat) returns (q: nat)
    ensures And(ticket, Pow2(k) - 1) < Pow2(k) && ticket == q * Pow2(k) + And(ticket, Pow2(k) - 1)
    decreases k
  {
    if k == 0 {
      AndZero(ticket);
      q := ticket;
    } else {
      var m := Pow2(k - 1);
      q := MaskSplits(ticket / 2, k - 1);
      AndHalves(ticket, 2 * m - 1, m - 1);
      DoubleProduct(q, m);
    }
  }

  lemma DoubleProduct(q: nat, m: nat)
    ensures q * (2 * m) == 2 * (q * m)
  {
  }

  lemma {:induction false} AndZero(a: nat)
    ensures And(a, 0) == 0
  {
    if a > 0 { AndZero(a / 2); }
  }

  lemma AndHalves(a: nat, b: nat, half: nat)
    requires b == 2 * half + 1
    ensures And(a, b) == a % 2 + 2 * And(a / 2, half)
  {
    assert b / 2 == half && b % 2 == 1;
  }

  // ------------------------------------------------------- 64-bit counters

  /** The signed reading of a 64-bit word. */
  function Signed(w: int): int {
    var m := w % TWO64;
    if m < TWO63 then m else m - TWO64
  }

  /**
  The source compares two counters through int64(sequence) - int64(ticket) on words that
  wrap round.  While the counters are less than 2^63 apart that is their true difference.
  */
  lemma WrappedDifference(sequence: nat, ticket: nat)
    requires -(TWO63 as int) < sequence - ticket < TWO63
    ensures Signed(Signed(sequence % TWO64) - Signed(ticket % TWO64)) == sequence - ticket
  {
    var p := sequence / TWO64 + (if sequence % TWO64 < TWO63 then 0 else 1);
    var q := ticket / TWO64 + (if ticket % TWO64 < TWO63 then 0 else 1);
    SignedOfWord(sequence);
    SignedOfWord(ticket);
    var difference := Signed(sequence % TWO64) - Signed(ticket % TWO64);
    assert difference == (sequence - ticket) + (q - p) * TWO64;
    SignedUpToLaps(difference, q - p, sequence - ticket);
  }

  lemma SignedOfWord(n: nat)
    ensures Signed(n % TWO64) == n - (n / TWO64 + (if n % TWO64 < TWO63 then 0 else 1)) * TWO64
  {
    var m := n % TWO64;
    Modular.Unique(m, 0, m, TWO64);
  }

  lemma SignedUpToLaps(w: int, k: int, d: int)
    requires w == d + k * TWO64 && -(TWO63 as int) <= d < TWO63
    ensures Signed(w) == d
  {
    if d >= 0 {
      Modular.Unique(w, k, d, TWO64);
    } else {
      Modular.Unique(w, k - 1, d + TWO64, TWO64);
    }
  }
}
