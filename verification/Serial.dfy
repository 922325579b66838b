/**
  Sixteen-bit serial numbers and their unbounded ("absolute") counterparts.

  Every packet carries a 16-bit number.  The proofs give each packet an unbounded
  absolute number as well; `Wrap` is what the wire shows of it.
 */
module Serial {

  const MODULUS := 0x1_0000
  const HALF := 0x8000

  type Seq16 = x: int | 0 <= x < 0x1_0000

  /** The 16-bit number on the wire for absolute number `a`. */
  function Wrap(a: int): Seq16 {
    a % MODULUS
  }

  /** `static_cast<std::uint16_t>(x - y)`. */
  function Delta(x: Seq16, y: Seq16): Seq16 {
    (x - y) % MODULUS
  }

  /** `++x` on a `std::uint16_t`. */
  function Succ(x: Seq16): Seq16 {
    (x + 1) % MODULUS
  }

  /** Serial comparison of section 3.2 of RFC 1982; a distance of exactly 2^15 is "not newer". */
  predicate IsNewerSequence(sequenceNumber: Seq16, previous: Seq16) {
    var delta := Delta(sequenceNumber, previous);
    delta != 0 && delta < HALF
  }

  predicate IsStaleOrDuplicate(sequenceNumber: Seq16, previous: Seq16) {
    !IsNewerSequence(sequenceNumber, previous)
  }

  /** A 16-bit difference is the wrapped difference of the absolute numbers. */
  lemma DeltaOfWraps(a: int, b: int)
    ensures Delta(Wrap(a), Wrap(b)) == Wrap(a - b)
  {
    var p, q := a / MODULUS, b / MODULUS;
    assert a - b == Wrap(a) - Wrap(b) + MODULUS * (p - q);
  }

  lemma SuccOfWrap(a: int)
    ensures Succ(Wrap(a)) == Wrap(a + 1)
  {
  }

  /**
    The wire comparison agrees with the order of the absolute numbers exactly when
    they are at most 2^15 apart backwards and less than 2^15 apart forwards.
   */
  lemma NewerIffGreater(a: int, b: int)
    requires -MODULUS < a - b < MODULUS
    ensures (IsNewerSequence(Wrap(a), Wrap(b)) <==> a > b) <==> -HALF <= a - b < HALF
  {
    DeltaOfWraps(a, b);
  }

  /**
    `a` is not mistaken for a number in the `size` numbers from `base` on: if its
    16-bit offset from `base` looks as if it were inside, then it is inside.
   */
  ghost predicate NotAliased(a: int, base: int, size: nat) {
    Wrap(a - base) < size ==> base <= a < base + size
  }

  /** Anything less than one full turn of the counter away from the window is safe. */
  lemma NearIsNotAliased(a: int, base: int, size: nat)
    requires size <= MODULUS
    requires base + size - MODULUS <= a < base + MODULUS
    ensures NotAliased(a, base, size)
  {
  }

  /** Two different numbers of a window narrower than the counter differ on the wire. */
  lemma WrapInjectiveInWindow(a: int, b: int, base: int, size: nat)
    requires size <= MODULUS
    requires base <= a < base + size && base <= b < base + size
    requires Wrap(a) == Wrap(b)
    ensures a == b
  {
    DeltaOfWraps(a, b);
  }

  /** When `n` divides the modulus, the slot of a wrapped number is the slot of the number. */
  lemma SlotOfWrap(a: int, n: int)
    requires n > 0 && MODULUS % n == 0
    ensures Wrap(a) % n == a % n
  {
    var q, k := a / MODULUS, MODULUS / n;
    assert MODULUS == n * k;
    assert a == Wrap(a) + n * (k * q);
    ModOfSum(Wrap(a), k * q, n);
  }

  lemma ModOfSum(r: int, t: int, n: int)
    requires n > 0
    ensures (r + n * t) % n == r % n
  {
    var q := (r + n * t) / n;
    var rem := (r + n * t) % n;
    assert r == n * (q - t) + rem;
    ModUnique(r, q - t, rem, n);
  }

  lemma ModUnique(x: int, q: int, rem: int, n: int)
    requires n > 0 && x == n * q + rem && 0 <= rem < n
    ensures x % n == rem
  {
    var d := x / n - q;
    assert n * d == rem - x % n;
    assert d > 0 ==> n * d >= n;
    assert d < 0 ==> n * d <= -n;
  }

  /** Slots are collision-free inside a window no longer than the number of slots. */
  lemma SlotInjectiveInWindow(a: int, b: int, base: int, n: int)
    requires n > 0
    requires base <= a < base + n && base <= b < base + n
    requires a % n == b % n
    ensures a == b
  {
    var d := a / n - b / n;
    assert a - b == n * d;
    assert d > 0 ==> n * d >= n;
    assert d < 0 ==> n * d <= -n;
  }
}
