/**
  The ISAAC-64 generator of pg_c/isaac.c as the C code runs it: the static
  pool `mm` and the counters `aa`, `bb`, `cc`, with the externally defined
  result block `isaac64_randrsl` and cursor `isaac64_randcnt`, all updated in
  place. Every operation is proved to do what the functions of module
  Isaac64Spec say.
 */
module Isaac64 {
  import opened Uint
  import opened Isaac64Spec

  /** The slots and mixing expressions of the four steps of one loop iteration. */
  lemma GroupSlots(m: nat, m2: nat)
    requires m % 4 == 0 && m + 4 <= RANDSIZ && m2 == Partner(m)
    ensures Partner(m + 1) == m2 + 1 && Partner(m + 2) == m2 + 2 && Partner(m + 3) == m2 + 3
    ensures (m + 1) % 4 == 1 && (m + 2) % 4 == 2 && (m + 3) % 4 == 3
  {
  }

  /** The next iteration of either loop of `isaac64` starts four slots on. */
  lemma NextGroup(m: nat, k: nat, base: nat)
    requires m == base + 4 * k && m < base + HALF && (base == 0 || base == HALF)
    ensures m % 4 == 0 && m + 4 <= base + HALF && m + 4 == base + 4 * (k + 1)
    ensures Partner(m) == (if base == 0 then m + HALF else m - HALF)
  {
  }

  /** The groups of eight of a fill loop tile the pool exactly. */
  lemma NextEight(i: nat, k: nat)
    requires i == 8 * k <= RANDSIZ
    ensures i < RANDSIZ ==> i + 8 <= RANDSIZ && i + 8 == 8 * (k + 1)
    ensures i == RANDSIZ ==> k == RANDSIZ / 8
  {
  }

  /**
    The first loop of `isaac64_randinit`: `mix` applied `ROUNDS` (four)
    times to the eight words, which start as the golden ratio.
   */
  method ScrambleLoop(mix: Octet -> Octet, o0: Octet) returns (o: Octet)
    ensures o == Scramble(mix, o0, ROUNDS)
  {
    o := o0;
    var i := 0;
    while i < ROUNDS
      invariant i <= ROUNDS && o == Scramble(mix, o0, i)
    {
      o := mix(o);
      i := i + 1;
    }
  }

  class Generator {
    /** `mm`, the pool */
    var mm: array<U64>
    /** `isaac64_randrsl`: the seed before `RandInit`, the result block after */
    var randrsl: array<U64>
    var aa: U64
    var bb: U64
    var cc: U64
    /** `isaac64_randcnt` */
    var randcnt: U64

    ghost predicate Valid()
      reads this
    {
      mm.Length == RANDSIZ && randrsl.Length == RANDSIZ && mm != randrsl
    }

    /** The whole state as a value. */
    function State(): (g: Isaac)
      reads this, mm, randrsl
    {
      Isaac(mm[..], randrsl[..], aa, bb, cc, randcnt)
    }

    /** The static and external definitions: every word and counter starts at zero. */
    constructor ()
      ensures Valid() && fresh(mm) && fresh(randrsl)
      ensures State() == Isaac(seq(RANDSIZ, _ => 0), seq(RANDSIZ, _ => 0), 0, 0, 0, 0)
    {
      mm := new U64[RANDSIZ](_ => 0);
      randrsl := new U64[RANDSIZ](_ => 0);
      aa, bb, cc := 0, 0, 0;
      randcnt := 0;
    }

    /**
      The `rngstep` macro with `m` and `r` at slot `m`, `m2` at slot `m2`, the
      running `b` and `mixed`, the mixing expression of the step's place in
      its group applied to the running `a`; returns the new `a` and `b`.
     */
    method RngStep(mixed: U64, ghost a: U64, b: U64, m: nat, m2: nat) returns (a': U64, b': U64)
      requires Valid() && m < RANDSIZ && m2 == Partner(m) && mixed == Mix(m, a)
      modifies mm, randrsl
      ensures Pools(mm[..], randrsl[..], a', b') == Step(m, Pools(old(mm[..]), old(randrsl[..]), a, b))
    {
      var x := mm[m];
      a' := Add64(mixed, mm[m2]);
      var y := Add64(Add64(mm[Ind(x)], a'), b);
      mm[m] := y;
      b' := Add64(mm[Ind(Shr64(y, POW_RANDSIZL))], x);
      randrsl[m] := b';
    }

    /**
      The body of either loop of `isaac64`: four `rngstep`s from slot `m`,
      with `~(a^(a<<21))`, `a^(a>>5)`, `a^(a<<12)` and `a^(a>>33)` as the
      mixing expressions, `m` and `m2` advancing together.
     */
    method RngGroup(a: U64, b: U64, m: nat, m2: nat, ghost p0: Pools) returns (a': U64, b': U64)
      requires Valid() && m % 4 == 0 && m + 4 <= RANDSIZ && m2 == Partner(m)
      requires Sized(p0) && Pools(mm[..], randrsl[..], a, b) == Steps(m, p0)
      modifies mm, randrsl
      ensures Pools(mm[..], randrsl[..], a', b') == Steps(m + 4, p0)
    {
      StepsFour(m, p0);
      GroupSlots(m, m2);
      a', b' := RngStep(Not64(Xor64(a, Shl64(a, 0x20_0000))), a, b, m, m2);
      a', b' := RngStep(Xor64(a', Shr64(a', 32)), a', b', m + 1, m2 + 1);
      a', b' := RngStep(Xor64(a', Shl64(a', 0x1000)), a', b', m + 2, m2 + 2);
      a', b' := RngStep(Xor64(a', Shr64(a', 0x2_0000_0000)), a', b', m + 3, m2 + 3);
    }

    /**
      One of the two loops of `isaac64`: `m` walks the half of the pool that
      begins at `start` while `m2` walks the other half, four steps per
      iteration.
     */
    method Pass(a: U64, b: U64, start: nat, stop: nat, ghost p0: Pools) returns (a': U64, b': U64)
      requires Valid() && (start == 0 || start == HALF) && stop == start + HALF && Sized(p0)
      requires Pools(mm[..], randrsl[..], a, b) == Steps(start, p0)
      modifies mm, randrsl
      ensures Pools(mm[..], randrsl[..], a', b') == Steps(stop, p0)
    {
      a', b' := a, b;
      var m := start;
      var m2 := if start == 0 then HALF else 0;
      ghost var k := 0;
      while m < stop
        invariant m == start + 4 * k <= stop
        invariant m2 == if start == 0 then m + HALF else m - HALF
        invariant Pools(mm[..], randrsl[..], a', b') == Steps(m, p0)
        modifies mm, randrsl
      {
        NextGroup(m, k, start);
        a', b' := RngGroup(a', b', m, m2, p0);
        m, m2, k := m + 4, m2 + 4, k + 1;
      }
      assert m == stop;
    }

    /** The two loops of `isaac64`, one after the other: all the steps of a call. */
    method Passes(a: U64, b: U64, ghost p0: Pools) returns (a': U64, b': U64)
      requires Valid() && p0 == Pools(mm[..], randrsl[..], a, b)
      modifies mm, randrsl
      ensures Pools(mm[..], randrsl[..], a', b') == Steps(RANDSIZ, p0)
    {
      assert Steps(0, p0) == p0;
      a', b' := Pass(a, b, 0, HALF, p0);
      a', b' := Pass(a', b', HALF, RANDSIZ, p0);
    }

    /**
      `isaac64()`: `cc` is incremented and added into `b`, `a` starts from
      `aa`; the first loop runs `m` over the lower half with `m2` on the
      upper, the second `m` over the upper half with `m2` on the lower; `a`
      and `b` are saved at the end.
     */
    method Isaac64()
      requires Valid()
      modifies this, mm, randrsl
      ensures Valid() && mm == old(mm) && randrsl == old(randrsl)
      ensures State() == Generate(old(State()))
    {
      ghost var g0 := State();
      assert Fits(g0);
      var a := aa;
      cc := Add64(cc, 1);
      var b := Add64(bb, cc);
      a, b := Passes(a, b, Start(g0));
      GenerateFrom(g0, Pools(mm[..], randrsl[..], a, b));
      bb := b;
      aa := a;
    }

    /**
      `isaac64_rand()`: the cursor is post-decremented (wrapping from zero);
      if it was zero a block is generated and the cursor set to 255. The
      word under the cursor is returned.
     */
    method Rand() returns (v: U64)
      requires Valid() && randcnt <= RANDSIZ
      modifies this, mm, randrsl
      ensures Valid() && mm == old(mm) && randrsl == old(randrsl) && randcnt < RANDSIZ
      ensures Drawn(State(), v) == Draw(old(State()))
    {
      var wasZero := randcnt == 0;
      randcnt := Sub64(randcnt, 1);
      if wasZero {
        Isaac64();
        randcnt := RANDSIZ - 1;
      }
      v := randrsl[randcnt];
    }

    /** The eight assignments `mm[i] = a; ... mm[i + 7] = h;`. */
    method Store(i: nat, o: Octet)
      requires Valid() && i + 8 <= RANDSIZ
      modifies mm
      ensures mm[..] == Put(old(mm[..]), i, o)
    {
      mm[i] := o.a;
      mm[i + 1] := o.b;
      mm[i + 2] := o.c;
      mm[i + 3] := o.d;
      mm[i + 4] := o.e;
      mm[i + 5] := o.f;
      mm[i + 6] := o.g;
      mm[i + 7] := o.h;
    }

    /**
      One group of a fill loop of `isaac64_randinit`: the eight words of
      `src` from slot `i` are taken into a..h by `step` (added, then mixed),
      and a..h are stored over the same eight slots of `mm`.
     */
    method FillGroup(step: (Octet, Octet) -> Octet, src: array<U64>, i: nat, o: Octet,
                     ghost k: nat, ghost src0: seq<U64>, ghost o0: Octet, ghost mm0: seq<U64>)
      returns (o': Octet)
      requires Valid() && |src0| == RANDSIZ && |mm0| == RANDSIZ && i == 8 * k < RANDSIZ
      requires (src == randrsl && randrsl[..] == src0) || (src == mm && mm0 == src0)
      requires Absorbed(o, mm[..]) == Filling(step, o0, src0, mm0, k)
      modifies mm
      ensures i + 8 == 8 * (k + 1) <= RANDSIZ
      ensures Absorbed(o', mm[..]) == Filling(step, o0, src0, mm0, k + 1)
    {
      NextEight(i, k);
      FillingNext(step, o0, src0, mm0, k);
      assert src[i .. i + 8] == src0[8 * k .. 8 * (k + 1)] by {
        if src == mm {
          assert mm[..][i .. i + 8] == mm[..][i..][..8] && mm0[i .. i + 8] == mm0[i..][..8];
        }
      }
      o' := step(o, Unwords(src[i .. i + 8]));
      Store(i, o');
    }

    /**
      The first fill loop of `isaac64_randinit`: the seed in `randrsl` is
      absorbed into `mm`, eight words at a time.
     */
    method FillFromSeed(step: (Octet, Octet) -> Octet, o0: Octet) returns (o: Octet)
      requires Valid()
      modifies mm
      ensures Absorb(step, o0, randrsl[..], RANDSIZ / 8) == Absorbed(o, mm[..])
    {
      ghost var mm0 := mm[..];
      o := o0;
      var i := 0;
      ghost var k := 0;
      while i < RANDSIZ
        invariant i == 8 * k <= RANDSIZ
        invariant Absorbed(o, mm[..]) == Filling(step, o0, randrsl[..], mm0, k)
        modifies mm
      {
        o := FillGroup(step, randrsl, i, o, k, randrsl[..], o0, mm0);
        i, k := i + 8, k + 1;
      }
      NextEight(i, k);
      FillingDone(step, o0, randrsl[..], mm0, k);
    }

    /**
      The second fill loop of `isaac64_randinit`: the pool the first loop
      left is absorbed again, each group read just before it is overwritten.
     */
    method FillFromPool(step: (Octet, Octet) -> Octet, o0: Octet) returns (o: Octet)
      requires Valid()
      modifies mm
      ensures Absorb(step, o0, old(mm[..]), RANDSIZ / 8) == Absorbed(o, mm[..])
    {
      ghost var mm0 := mm[..];
      o := o0;
      var i := 0;
      ghost var k := 0;
      while i < RANDSIZ
        invariant i == 8 * k <= RANDSIZ
        invariant Absorbed(o, mm[..]) == Filling(step, o0, mm0, mm0, k)
        modifies mm
      {
        o := FillGroup(step, mm, i, o, k, mm0, o0, mm0);
        i, k := i + 8, k + 1;
      }
      NextEight(i, k);
      FillingDone(step, o0, mm0, mm0, k);
    }

    /**
      The filling part of `isaac64_randinit()`, for a mixing function `mix`
      and a fill step `step`: the golden ratio scrambled four times, then the
      seed in `randrsl` and then the pool itself taken into `mm` group by
      group.
     */
    method FillPool(mix: Octet -> Octet, step: (Octet, Octet) -> Octet)
      requires Valid()
      modifies mm
      ensures mm[..] == Pool(step, Scramble(mix, Octet(GOLDEN, GOLDEN, GOLDEN, GOLDEN, GOLDEN, GOLDEN, GOLDEN, GOLDEN), ROUNDS), randrsl[..])
    {
      ghost var seed := randrsl[..];
      var o := ScrambleLoop(mix, Octet(GOLDEN, GOLDEN, GOLDEN, GOLDEN, GOLDEN, GOLDEN, GOLDEN, GOLDEN));
      ghost var start := o;
      o := FillFromSeed(step, o);
      ghost var first := Absorbed(o, mm[..]);
      o := FillFromPool(step, o);
      PoolFrom(step, start, seed, first, Absorbed(o, mm[..]));
    }

    /**
      `isaac64_randinit()` with the seed in `randrsl`, the mixing function
      `mix` and the fill step `step`: the counters cleared, the pool filled,
      one block generated and the cursor set to 256.
     */
    method SeedWith(mix: Octet -> Octet, step: (Octet, Octet) -> Octet)
      requires Valid()
      modifies this, mm, randrsl
      ensures Valid() && mm == old(mm) && randrsl == old(randrsl)
      ensures State() == SeededBy(mix, step, old(randrsl[..]))
    {
      aa, bb, cc := 0, 0, 0;
      FillPool(mix, step);
      GenerateCursor(Isaac(mm[..], randrsl[..], 0, 0, 0, 0), randcnt);
      Isaac64();
      randcnt := RANDSIZ;
    }

    /** `isaac64_randinit()`: seeding with the `mix` macro and the fill loops' body. */
    method RandInit()
      requires Valid()
      modifies this, mm, randrsl
      ensures Valid() && mm == old(mm) && randrsl == old(randrsl)
      ensures State() == Seeded(old(randrsl[..]))
    {
      SeedWith(MixOctet, MixIn);
    }
  }
}
