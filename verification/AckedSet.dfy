/**
  The stand-alone duplicate bitmap: a window of N bits that slides by N/2.  Against the plain set of
  marked numbers it is exact for every even N up to 32768, and for no larger one.
 */
module AckedSet {
  import opened Serial

  datatype Acked = Acked(bits: seq<bool>, base: Seq16)

  function Init(n: nat): Acked {
    Acked(seq(n, _ => false), 0)
  }

  predicate Seen(s: Acked, sequence: Seq16) {
    var offset := Delta(sequence, s.base);
    if offset >= |s.bits| then offset > HALF else s.bits[offset]
  }

  /** `bits >>= h` on a bitset. */
  function ShiftedDown(bits: seq<bool>, h: nat): seq<bool> {
    seq(|bits|, i requires 0 <= i < |bits| => i + h < |bits| && bits[i + h])
  }

  function Mark(s: Acked, sequence: Seq16): Acked {
    var offset, half := Delta(sequence, s.base), |s.bits| / 2;
    if offset >= |s.bits| then s
    else
      var bits := s.bits[offset := true];
      if offset >= half then Acked(ShiftedDown(bits, half), (s.base + half) % MODULUS)
      else s.(bits := bits)
  }

  class AckedSet {
    const bits: array<bool>
    var base: Seq16

    ghost function View(): Acked
      reads this, bits
    {
      Acked(bits[..], base)
    }

    constructor (n: nat)
      ensures fresh(bits) && View() == Init(n)
    {
      bits := new bool[n](_ => false);
      base := 0;
      new;
      assert bits[..] == seq(n, _ => false);
    }

    method IsSeen(sequence: Seq16) returns (seen: bool)
      ensures seen == Seen(View(), sequence)
    {
      var offset := Delta(sequence, base);
      if offset >= bits.Length {
        return offset > HALF;
      }
      return bits[offset];
    }

    method MarkReceived(sequence: Seq16)
      modifies this, bits
      ensures View() == Mark(old(View()), sequence)
    {
      var offset := Delta(sequence, base);
      if offset >= bits.Length {
        return;
      }
      bits[offset] := true;
      if offset >= bits.Length / 2 {
        SlideDown(bits.Length / 2);
        base := (base + bits.Length / 2) % MODULUS;
      }
    }

    method SlideDown(h: nat)
      modifies bits
      ensures bits[..] == ShiftedDown(old(bits[..]), h)
    {
      ghost var before := bits[..];
      for i := 0 to bits.Length
        invariant forall j :: 0 <= j < i ==> bits[j] == ShiftedDown(before, h)[j]
        invariant forall j :: i <= j < bits.Length ==> bits[j] == before[j]
      {
        bits[i] := i + h < bits.Length && bits[i + h];
      }
    }
  }

  // ----- Against the plain set -----

  /** The bitmap, its absolute base, and every number marked while it was inside the window. */
  datatype State = State(acked: Acked, base: int, marked: set<int>)

  /** A number marked; one mistaken for a number of the window is not marked at all. */
  ghost function Apply(s: State, a: int): State {
    var n := |s.acked.bits|;
    if !NotAliased(a, s.base, n) then s
    else
      var inside := s.base <= a < s.base + n;
      State(Mark(s.acked, Wrap(a)),
            if inside && a - s.base >= n / 2 then s.base + n / 2 else s.base,
            if inside then s.marked + {a} else s.marked)
  }

  ghost function Run(n: nat, marks: seq<int>): State {
    if marks == [] then State(Init(n), 0, {})
    else Apply(Run(n, marks[..|marks| - 1]), marks[|marks| - 1])
  }

  /** Bit `k` says whether number `base + k` was marked, and nothing above the window was. */
  ghost predicate Inv(s: State) {
    && s.acked.base == Wrap(s.base)
    && (forall k {:trigger s.acked.bits[k]} :: 0 <= k < |s.acked.bits| ==>
          (s.acked.bits[k] <==> s.base + k in s.marked))
    && (forall a :: a in s.marked ==> a < s.base + |s.acked.bits|)
  }

  lemma WrapOfSlide(base: int, h: nat)
    ensures (Wrap(base) + h) % MODULUS == Wrap(base + h)
  {
    var q := base / MODULUS;
    assert base + h == Wrap(base) + h + MODULUS * q;
    ModOfSum(Wrap(base) + h, q, MODULUS);
  }

  /** Setting the bit of a number inside the window. */
  lemma SetKeepsInv(s: State, a: int) returns (t: State)
    requires Inv(s) && s.base <= a < s.base + |s.acked.bits|
    ensures t == State(s.acked.(bits := s.acked.bits[a - s.base := true]), s.base, s.marked + {a})
    ensures Inv(t)
  {
    t := State(s.acked.(bits := s.acked.bits[a - s.base := true]), s.base, s.marked + {a});
    forall k {:trigger t.acked.bits[k]} | 0 <= k < |t.acked.bits|
      ensures t.acked.bits[k] <==> t.base + k in t.marked
    {
      assert s.acked.bits[k] <==> s.base + k in s.marked;
    }
  }

  /** Sliding the window up by `h`. */
  lemma SlideKeepsInv(s: State, h: nat) returns (t: State)
    requires Inv(s) && h <= |s.acked.bits|
    ensures t == State(Acked(ShiftedDown(s.acked.bits, h), (s.acked.base + h) % MODULUS), s.base + h, s.marked)
    ensures Inv(t)
  {
    t := State(Acked(ShiftedDown(s.acked.bits, h), (s.acked.base + h) % MODULUS), s.base + h, s.marked);
    WrapOfSlide(s.base, h);
    forall k {:trigger t.acked.bits[k]} | 0 <= k < |t.acked.bits|
      ensures t.acked.bits[k] <==> t.base + k in t.marked
    {
      if k + h < |s.acked.bits| { assert s.acked.bits[k + h] <==> s.base + (k + h) in s.marked; }
    }
  }

  lemma ApplyKeepsInv(s: State, a: int)
    requires Inv(s) && |s.acked.bits| % 2 == 0 && |s.acked.bits| <= MODULUS
    ensures Inv(Apply(s, a)) && |Apply(s, a).acked.bits| == |s.acked.bits|
  {
    DeltaOfWraps(a, s.base);
    if NotAliased(a, s.base, |s.acked.bits|) && s.base <= a < s.base + |s.acked.bits| {
      assert Delta(Wrap(a), s.acked.base) == a - s.base;
      var t := SetKeepsInv(s, a);
      if a - s.base >= |s.acked.bits| / 2 {
        var u := SlideKeepsInv(t, |s.acked.bits| / 2);
        assert u == Apply(s, a);
      } else {
        assert t == Apply(s, a);
      }
    }
  }

  lemma {:induction false} RunKeepsInv(n: nat, marks: seq<int>)
    requires n % 2 == 0 && n <= MODULUS
    ensures Inv(Run(n, marks)) && |Run(n, marks).acked.bits| == n
  {
    if marks != [] {
      RunKeepsInv(n, marks[..|marks| - 1]);
      ApplyKeepsInv(Run(n, marks[..|marks| - 1]), marks[|marks| - 1]);
    }
  }

  /** Within half a turn of the base: seen exactly when below the base or marked inside the window. */
  ghost predicate SeenExactly(s: State, a: int) {
    Seen(s.acked, Wrap(a)) <==> a < s.base || a in s.marked
  }

  /**
    For every even size up to 32768 and every run of marks, including every slide and wrap, a number
    within half a turn of the base is seen exactly when it is below the base or was marked.
   */
  lemma SeenIsExact(n: nat, marks: seq<int>, a: int)
    requires n % 2 == 0 && n <= HALF
    requires var base := Run(n, marks).base; base - (HALF - 1) <= a <= base + HALF
    ensures SeenExactly(Run(n, marks), a)
  {
    var s := Run(n, marks);
    RunKeepsInv(n, marks);
    InvIsExact(s, a);
  }

  lemma InvIsExact(s: State, a: int)
    requires Inv(s) && |s.acked.bits| <= HALF && s.base - (HALF - 1) <= a <= s.base + HALF
    ensures SeenExactly(s, a)
  {
    DeltaOfWraps(a, s.base);
    if a < s.base {
      assert Delta(Wrap(a), s.acked.base) == MODULUS - (s.base - a);
    } else {
      assert Delta(Wrap(a), s.acked.base) == a - s.base;
    }
  }

  lemma {:induction false} BaseOnlyGrows(n: nat, marks: seq<int>, more: seq<int>)
    ensures Run(n, marks).base <= Run(n, marks + more).base
    ensures Run(n, marks).marked <= Run(n, marks + more).marked
  {
    if more == [] {
      assert marks + more == marks;
    } else {
      var k := |more| - 1;
      assert (marks + more)[..|marks| + k] == marks + more[..k];
      BaseOnlyGrows(n, marks, more[..k]);
    }
  }

  /** A number once seen stays seen as long as it is within 32767 below the base. */
  lemma SeenStaysSeen(n: nat, marks: seq<int>, more: seq<int>, a: int)
    requires n % 2 == 0 && n <= HALF
    requires var base := Run(n, marks).base; base - (HALF - 1) <= a <= base + HALF
    requires var base := Run(n, marks + more).base; base - (HALF - 1) <= a
    requires Seen(Run(n, marks).acked, Wrap(a))
    ensures Seen(Run(n, marks + more).acked, Wrap(a))
  {
    BaseOnlyGrows(n, marks, more);
    SeenIsExact(n, marks, a);
    SeenIsExact(n, marks + more, a);
  }

  /**
    The slide does not wait for the lower half to be complete: after one mark in the upper half,
    numbers that never arrived are reported as seen.
   */
  lemma SlideForgetsTheMissing(n: nat, a: int)
    requires n % 2 == 0 && 2 <= n <= HALF && 0 <= a < n / 2
    ensures var s := Run(n, [n / 2]); a !in s.marked && Seen(s.acked, Wrap(a))
  {
    assert [n / 2][..0] == [];
    assert Run(n, []) == State(Init(n), 0, {});
    assert Run(n, [n / 2]).base == n / 2;
    SeenIsExact(n, [n / 2], a);
  }

  // ----- Larger sizes -----

  /** One mark exactly half a window above the base slides the window there. */
  lemma MarkAtHalf(s: State)
    requires Inv(s) && |s.acked.bits| % 2 == 0 && 2 <= |s.acked.bits| <= MODULUS
    ensures var n := |s.acked.bits|;
            var t := Apply(s, s.base + n / 2);
            t.base == s.base + n / 2 && t.marked == s.marked + {s.base + n / 2}
  {
  }

  lemma TwoSlides(n: nat) returns (marks: seq<int>)
    requires n % 2 == 0 && 2 <= n <= MODULUS
    ensures var s := Run(n, marks);
            Inv(s) && |s.acked.bits| == n && s.base == n && s.marked == {n / 2, n}
  {
    var one := [n / 2];
    marks := [n / 2, n];
    assert one[..0] == [] && marks[..1] == one;
    RunKeepsInv(n, []);
    MarkAtHalf(Run(n, []));
    RunKeepsInv(n, one);
    MarkAtHalf(Run(n, one));
    RunKeepsInv(n, marks);
  }

  lemma HalfTurnBelowBase(s: State)
    requires Inv(s) && HALF + 1 < |s.acked.bits| && s.base + (HALF + 1) !in s.marked
    ensures !SeenExactly(s, s.base - (HALF - 1))
  {
    DeltaOfWraps(s.base - (HALF - 1), s.base);
    assert s.acked.bits[HALF + 1] <==> s.base + (HALF + 1) in s.marked;
  }

  /**
    A number 32767 below the base looks unseen: after two half-window slides, or, in a bitmap longer than
    the counter, which never takes a number for an old one, from the beginning.
   */
  lemma LargeSizeMisses(n: nat) returns (marks: seq<int>)
    requires n % 2 == 0 && HALF < n
    ensures n <= MODULUS ==> Run(n, marks).base == n
    ensures !SeenExactly(Run(n, marks), Run(n, marks).base - (HALF - 1))
  {
    if n <= MODULUS {
      marks := TwoSlides(n);
    } else {
      marks := [];
    }
    HalfTurnBelowBase(Run(n, marks));
  }

  /** The bitmap is exact in every run exactly for the sizes up to 32768. */
  lemma ExactIffSizeAtMostHalf(n: nat)
    requires n % 2 == 0
    ensures (forall marks, a ::
               Run(n, marks).base - (HALF - 1) <= a <= Run(n, marks).base + HALF ==> SeenExactly(Run(n, marks), a))
            <==> n <= HALF
  {
    if n <= HALF {
      forall marks, a | Run(n, marks).base - (HALF - 1) <= a <= Run(n, marks).base + HALF
        ensures SeenExactly(Run(n, marks), a)
      {
        SeenIsExact(n, marks, a);
      }
    } else {
      var marks := LargeSizeMisses(n);
    }
  }
}
