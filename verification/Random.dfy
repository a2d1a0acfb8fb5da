/**
 The multiply-with-carry generator.  Each half of its state is a multiplication by 65536
 modulo a number of its own, run backwards; so a half is stuck exactly when it starts as a
 multiple of that number.
 */
module Random {
  import opened Basics

  const Z_MODULUS := 36969 * 0x1_0000 - 1
  const W_MODULUS := 18000 * 0x1_0000 - 1

  function StepZ(z: nat): nat {
    36969 * (z % 0x1_0000) + z / 0x1_0000
  }

  function StepW(w: nat): nat {
    18000 * (w % 0x1_0000) + w / 0x1_0000
  }

  /** No step needs more than 32 bits, and 65536 times the result is congruent to the argument. */
  lemma StepLaw(x: nat)
    requires x < WORD
    ensures StepZ(x) < WORD && 0x1_0000 * StepZ(x) == x + Z_MODULUS * (x % 0x1_0000)
    ensures StepW(x) < WORD && 0x1_0000 * StepW(x) == x + W_MODULUS * (x % 0x1_0000)
  {
  }

  /** The values from which a half never moves on, and those that lead there. */
  predicate StuckZ(z: nat) {
    z == 0 || z == 0x9068_ffff
  }

  predicate StuckW(w: nat) {
    w == 0 || w == 0x464f_ffff
  }

  predicate DoomedW(w: nat) {
    StuckW(w) || w == 0x8c9f_fffe || w == 0xd2ef_fffd
  }

  /** They are the multiples of the modulus that fit in 32 bits. */
  lemma StuckAreMultiples(x: nat)
    requires x < WORD
    ensures StuckZ(x) <==> x % Z_MODULUS == 0
    ensures DoomedW(x) <==> x % W_MODULUS == 0
  {
  }

  lemma Split(x: nat)
    requires x < WORD
    ensures x == 0x1_0000 * (x / 0x1_0000) + x % 0x1_0000 && x / 0x1_0000 < 0x1_0000
  {
  }

  lemma StuckStepZ(x: nat)
    requires x < WORD
    ensures StuckZ(StepZ(x)) <==> StuckZ(x)
    ensures StuckZ(x) ==> StepZ(x) == x
  {
    Split(x);
    var l, h := x % 0x1_0000, x / 0x1_0000;
    OnlyZ(l, h);
  }

  /** The one sum of this form that is the modulus. */
  lemma OnlyZ(l: nat, h: nat)
    requires l < 0x1_0000 && h < 0x1_0000
    ensures 36969 * l + h == 0x9068_ffff <==> l == 0xffff && h == 0x9068
  {
  }

  lemma OnlyW(l: nat, h: nat)
    requires l < 0x1_0000 && h < 0x1_0000
    ensures 18000 * l + h == 0x464f_ffff <==>
      (l == 0xffff && h == 0x464f) || (l == 0xfffe && h == 0x8c9f) || (l == 0xfffd && h == 0xd2ef)
    ensures 18000 * l + h != 0x8c9f_fffe && 18000 * l + h != 0xd2ef_fffd
  {
  }

  lemma StuckStepW(x: nat)
    requires x < WORD
    ensures StuckW(StepW(x)) <==> DoomedW(x)
    ensures DoomedW(StepW(x)) <==> DoomedW(x)
    ensures StuckW(x) ==> StepW(x) == x
  {
    Split(x);
    var l, h := x % 0x1_0000, x / 0x1_0000;
    OnlyW(l, h);
  }

  class Random {
    var w: nat
    var z: nat

    /** Both halves fit their words, and the first is not stuck. */
    ghost predicate Valid()
      reads this
    {
      w < WORD && z < WORD && !StuckZ(z)
    }

    constructor (seed: nat)
      requires seed < WORD
      ensures Valid() && z == SeedZ(seed) && w == SeedW(seed)
      ensures SeededFrom(seed, w, z)
    {
      var w0, z0 := seed, WORD - 1 - seed;
      if w0 == 0 || w0 == 0x464f_ffff {
        w0 := w0 + 1;
      }
      if z0 == 0 || z0 == 0x9068_ffff {
        z0 := z0 + 1;
      }
      w, z := w0, z0;
    }

    method Next() returns (res: nat)
      requires Valid()
      modifies this
      ensures Valid() && z == StepZ(old(z)) && w == StepW(old(w))
      ensures z == 36969 * (old(z) % 0x1_0000) + old(z) / 0x1_0000 && w == 18000 * (old(w) % 0x1_0000) + old(w) / 0x1_0000
      ensures res < WORD && res == (z % 0x1_0000 * 0x1_0000 + w) % WORD
    {
      StepLaw(z);
      StepLaw(w);
      StuckStepZ(z);
      z := 36969 * (z % 0x1_0000) + z / 0x1_0000;
      w := 18000 * (w % 0x1_0000) + w / 0x1_0000;
      res := (z * 0x1_0000 + w) % WORD;
      ShiftDropsHighBits(z, w);
    }
  }

  lemma ShiftDropsHighBits(z: nat, w: nat)
    requires z < WORD && w < WORD
    ensures (z * 0x1_0000 + w) % WORD == (z % 0x1_0000 * 0x1_0000 + w) % WORD
  {
    assert z * 0x1_0000 == z / 0x1_0000 * WORD + z % 0x1_0000 * 0x1_0000;
  }

  /** The halves are the seed and its complement, where those are not 0 or the one other value avoided. */
  predicate SeededFrom(seed: nat, w: nat, z: nat) {
    && (seed != 0 && seed != 0x464f_ffff ==> w == seed)
    && (seed == 0 || seed == 0x464f_ffff ==> w == seed + 1)
    && (seed != 0xffff_ffff && seed != 0x6f97_0000 ==> z + seed == 0xffff_ffff)
    && (seed == 0xffff_ffff || seed == 0x6f97_0000 ==> z + seed == 0x1_0000_0000)
  }

  lemma ComplementIsDifference(x: bv32)
    ensures !x == 0xffff_ffff - x
  {
  }

  /** So the halves are bitwise complements for all seeds but four. */
  lemma SeedsAreComplements(seed: nat)
    requires seed < WORD
    ensures SeededFrom(seed, SeedW(seed), SeedZ(seed))
    ensures SeedW(seed) + SeedZ(seed) == 0xffff_ffff <==> seed !in {0, 0x464f_ffff, 0x6f97_0000, 0xffff_ffff}
  {
  }

  function SeedZ(seed: nat): nat
    requires seed < WORD
  {
    var z := WORD - 1 - seed;
    if StuckZ(z) then z + 1 else z
  }

  function SeedW(seed: nat): nat
    requires seed < WORD
  {
    if StuckW(seed) then seed + 1 else seed
  }

  /** The halves after `n` calls of next. */
  function AfterZ(seed: nat, n: nat): nat
    requires seed < WORD
  {
    if n == 0 then SeedZ(seed) else StepZ(AfterZ(seed, n - 1))
  }

  function AfterW(seed: nat, n: nat): nat
    requires seed < WORD
  {
    if n == 0 then SeedW(seed) else StepW(AfterW(seed, n - 1))
  }

  lemma {:induction false} InRange(seed: nat, n: nat)
    requires seed < WORD
    ensures AfterZ(seed, n) < WORD && AfterW(seed, n) < WORD
  {
    hide StepZ, StepW;
    if n > 0 {
      InRange(seed, n - 1);
      StepLaw(AfterZ(seed, n - 1));
      StepLaw(AfterW(seed, n - 1));
    }
  }

  /** From no seed does the first half get stuck, however many numbers are drawn. */
  lemma {:induction false} ZNeverSticks(seed: nat, n: nat)
    requires seed < WORD
    ensures !StuckZ(AfterZ(seed, n))
  {
    if n == 0 {
      assert seed == WORD - 1 ==> !StuckZ(1);
    } else {
      hide StuckZ, StepZ;
      InRange(seed, n - 1);
      ZNeverSticks(seed, n - 1);
      StuckStepZ(AfterZ(seed, n - 1));
    }
  }

  /** The second half is stuck after any number of calls exactly for two seeds the constructor lets through. */
  lemma {:induction false} WSticksForTwoSeeds(seed: nat, n: nat)
    requires seed < WORD && n > 0
    ensures StuckW(AfterW(seed, n)) <==> seed == 0x8c9f_fffe || seed == 0xd2ef_fffd
  {
    assert DoomedW(SeedW(seed)) <==> seed == 0x8c9f_fffe || seed == 0xd2ef_fffd;
    hide StuckW, DoomedW, StepW, SeedW;
    InRange(seed, n - 1);
    DoomPersists(seed, n - 1);
    StuckStepW(AfterW(seed, n - 1));
  }

  lemma {:induction false} DoomPersists(seed: nat, n: nat)
    requires seed < WORD
    ensures DoomedW(AfterW(seed, n)) <==> DoomedW(SeedW(seed))
  {
    hide DoomedW, StuckW, StepW, SeedW;
    if n > 0 {
      InRange(seed, n - 1);
      DoomPersists(seed, n - 1);
      StuckStepW(AfterW(seed, n - 1));
    }
  }
}
