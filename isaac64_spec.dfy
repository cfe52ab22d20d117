/**
  Bob Jenkins' ISAAC-64 generator (pg_c/isaac.c, pg_c/isaac.h) as values:
  the pool `mm`, the result block `randrsl`, the accumulators `aa`, `bb`, the
  counter `cc` and the draw cursor `randcnt`. Words are `ub8`, unsigned 64-bit
  integers, and every operation wraps modulo 2^64 as C's does. The class in
  module Isaac64 runs the same steps in place on arrays and is proved equal
  to these functions.
 */
module Isaac64Spec {
  import opened Uint

  /** ISAAC64_RANDSIZL */
  const RANDSIZL: nat := 8
  /** ISAAC64_RANDSIZ, `1 << ISAAC64_RANDSIZL` */
  const RANDSIZ: nat := 256
  const HALF: nat := RANDSIZ / 2
  /** 2^RANDSIZL, the power Shr64 divides by for `>> ISAAC64_RANDSIZL` (a shift by 8). */
  const POW_RANDSIZL: nat := 256

  /** The block size is two to the power RANDSIZL, and so is the shift's power. */
  lemma BlockSize()
    ensures RANDSIZ == Pow2(RANDSIZL) && HALF == 128 && POW_RANDSIZL == Pow2(RANDSIZL)
  {
    assert Pow2(4) == 16;
  }

  /**
    `ind(mm, x)`: the word at byte offset `x & ((RANDSIZ - 1) << 3)`, that is
    word `(x >> 3) & 255`; always a valid index.
   */
  function Ind(x: U64): (i: nat)
    ensures i < RANDSIZ
  {
    (x / 8) % RANDSIZ
  }

  /** The byte offset `ind` adds to `mm` is eight times the word index: bits 10..3 of `x`. */
  lemma IndOffset(x: U64)
    ensures 8 * Ind(x) == x % 2048 - x % 8
  {
  }

  /** The powers of two by which the mixing and seeding expressions shift. */
  lemma ShiftPowers()
    ensures Pow2(5) == 32 && Pow2(9) == 512 && Pow2(12) == 0x1000 && Pow2(14) == 0x4000
    ensures Pow2(15) == 0x8000 && Pow2(17) == 0x2_0000 && Pow2(20) == 0x10_0000
    ensures Pow2(21) == 0x20_0000 && Pow2(23) == 0x80_0000 && Pow2(33) == 0x2_0000_0000
  {
    assert Pow2(8) == 256;
    assert Pow2(16) == 0x1_0000;
    assert Pow2(24) == 0x100_0000;
    assert Pow2(32) == 0x1_0000_0000;
  }

  /**
    The mixing expression of the k-th `rngstep` of each group of four:
    `~(a^(a<<21))`, `a^(a>>5)`, `a^(a<<12)`, `a^(a>>33)`, over and over.
   */
  function Mix(k: nat, a: U64): U64 {
    if k % 4 == 0 then Not64(Xor64(a, Shl64(a, 0x20_0000)))
    else if k % 4 == 1 then Xor64(a, Shr64(a, 32))
    else if k % 4 == 2 then Xor64(a, Shl64(a, 0x1000))
    else Xor64(a, Shr64(a, 0x2_0000_0000))
  }

  /** The word `m2` points at while `m` is at slot `i`: the other half, same offset. */
  function Partner(i: nat): (j: nat)
    requires i < RANDSIZ
    ensures j < RANDSIZ && (i < HALF <==> j >= HALF)
  {
    if i < HALF then i + HALF else i - HALF
  }

  /** What one pass of `isaac64` works on: both blocks and the running `a` and `b`. */
  datatype Pools = Pools(mm: seq<U64>, rsl: seq<U64>, a: U64, b: U64)

  predicate Sized(p: Pools) {
    |p.mm| == RANDSIZ && |p.rsl| == RANDSIZ
  }

  /**
    `rngstep` with `m` and `r` at slot `i`, `m2` at slot `j` and the mixed
    value `mixed`: `a` becomes `mixed + *m2`, the slot's word is replaced by
    `y`, and `b`, read through `ind` after that write, goes to the result
    slot. The incoming `a` is not read.
   */
  function Rng(i: nat, j: nat, mixed: U64, mm: seq<U64>, rsl: seq<U64>, b: U64): (q: Pools)
    requires i < RANDSIZ && j < RANDSIZ && |mm| == RANDSIZ && |rsl| == RANDSIZ
    ensures Sized(q)
  {
    var x := mm[i];
    var a := Add64(mixed, mm[j]);
    var y := Add64(Add64(mm[Ind(x)], a), b);
    var mm' := mm[i := y];
    var b' := Add64(mm'[Ind(Shr64(y, POW_RANDSIZL))], x);
    Pools(mm', rsl[i := b'], a, b')
  }

  /** The i-th `rngstep` of a call, with the mixing expression its place in the group selects. */
  function Step(i: nat, p: Pools): (q: Pools)
    requires i < RANDSIZ && Sized(p)
    ensures Sized(q)
  {
    Rng(i, Partner(i), Mix(i, p.a), p.mm, p.rsl, p.b)
  }

  /** The first `n` steps of a call, in order. */
  function Steps(n: nat, p: Pools): (q: Pools)
    requires n <= RANDSIZ && Sized(p)
    ensures Sized(q)
  {
    if n == 0 then p else Step(n - 1, Steps(n - 1, p))
  }

  /** Four steps more are the group of four `rngstep`s that one loop iteration runs. */
  lemma StepsFour(m: nat, p: Pools)
    requires m + 4 <= RANDSIZ && Sized(p)
    ensures Steps(m + 4, p) == Step(m + 3, Step(m + 2, Step(m + 1, Step(m, Steps(m, p)))))
  {
    StepsNext(m, p);
    StepsNext(m + 1, p);
    StepsNext(m + 2, p);
    StepsNext(m + 3, p);
  }

  lemma StepsNext(n: nat, p: Pools)
    requires n < RANDSIZ && Sized(p)
    ensures Steps(n + 1, p) == Step(n, Steps(n, p))
  {
  }

  /** The generator's whole state; `cnt` is `isaac64_randcnt`. */
  datatype Isaac = Isaac(mm: seq<U64>, rsl: seq<U64>, aa: U64, bb: U64, cc: U64, cnt: U64)

  predicate Fits(g: Isaac) {
    |g.mm| == RANDSIZ && |g.rsl| == RANDSIZ
  }

  /** The pools a call starts from. */
  function Start(g: Isaac): Pools {
    Pools(g.mm, g.rsl, g.aa, Add64(g.bb, Add64(g.cc, 1)))
  }

  /**
    `isaac64()`: `cc` counts the call and is added into `b`, the 256 steps
    run from the saved `aa`, and the final `a` and `b` are saved again. The
    cursor is left alone.
   */
  function Generate(g: Isaac): (h: Isaac)
    requires Fits(g)
    ensures Fits(h)
  {
    var p := Steps(|g.mm|, Start(g));
    Isaac(p.mm, p.rsl, p.a, p.b, Add64(g.cc, 1), g.cnt)
  }

  /** A run of all the steps from the start of a call gives the call's result. */
  lemma GenerateFrom(g: Isaac, p: Pools)
    requires Fits(g) && p == Steps(RANDSIZ, Start(g))
    ensures Generate(g) == Isaac(p.mm, p.rsl, p.a, p.b, Add64(g.cc, 1), g.cnt)
  {
  }

  /** The cursor plays no part in a call: it comes out as it went in. */
  lemma GenerateCursor(g: Isaac, c: U64)
    requires Fits(g)
    ensures Generate(g.(cnt := c)) == Generate(g).(cnt := c)
  {
  }

  /**
    What a call of `isaac64` does to the counters: `cc` goes up by exactly one
    (wrapping), the run starts from `aa` and `bb + cc`, and `aa` and `bb` end
    as the run's last `a` and `b`; the cursor is untouched.
   */
  lemma GenerateCounters(g: Isaac)
    requires Fits(g)
    ensures var h := Generate(g);
      var p := Steps(|g.mm|, Start(g));
      && h.cc == (g.cc + 1) % TWO_64 && Start(g).b == (g.bb + h.cc) % TWO_64 && Start(g).a == g.aa
      && h.aa == p.a && h.bb == p.b && h.mm == p.mm && h.rsl == p.rsl && h.cnt == g.cnt
  {
  }

  /** `k` calls of `isaac64` in a row. */
  function Calls(g: Isaac, k: nat): (h: Isaac)
    requires Fits(g)
    ensures Fits(h)
  {
    if k == 0 then g else Generate(Calls(g, k - 1))
  }

  /**
    `cc` counts the calls: after `k` of them it has moved on by `k` modulo
    2^64, and the cursor is still where it was.
   */
  lemma {:induction false} CallsCount(g: Isaac, k: nat)
    requires Fits(g)
    ensures Calls(g, k).cc == (g.cc + k) % TWO_64 && Calls(g, k).cnt == g.cnt
  {
    if k > 0 {
      CallsCount(g, k - 1);
      GenerateCounters(Calls(g, k - 1));
      ModSucc(g.cc + (k - 1));
    }
  }

  lemma ModSucc(n: nat)
    ensures (n % TWO_64 + 1) % TWO_64 == (n + 1) % TWO_64
  {
  }

  /** A step writes its own slot of each block and no other. */
  lemma StepWrites(i: nat, p: Pools, j: nat)
    requires i < RANDSIZ && Sized(p) && j < RANDSIZ && j != i
    ensures Step(i, p).mm[j] == p.mm[j] && Step(i, p).rsl[j] == p.rsl[j]
  {
  }

  /** The first `n` steps leave the slots from `n` on untouched. */
  lemma {:induction false} StepsFrame(n: nat, p: Pools, j: nat)
    requires n <= j < RANDSIZ && Sized(p)
    ensures Steps(n, p).mm[j] == p.mm[j] && Steps(n, p).rsl[j] == p.rsl[j]
  {
    if n > 0 {
      StepsFrame(n - 1, p, j);
      StepWrites(n - 1, Steps(n - 1, p), j);
    }
  }

  /** Once step `i` has written slot `i`, no later step writes it again. */
  lemma {:induction false} StepsKeep(n: nat, p: Pools, i: nat)
    requires i < n <= RANDSIZ && Sized(p)
    ensures Steps(n, p).mm[i] == Steps(i + 1, p).mm[i] && Steps(n, p).rsl[i] == Steps(i + 1, p).rsl[i]
  {
    if n > i + 1 {
      StepsKeep(n - 1, p, i);
      StepWrites(n - 1, Steps(n - 1, p), i);
    }
  }

  /**
    Each of the 256 slots of `mm` and of `randrsl` is written exactly once per
    call: after the call, slot `i` holds what step `i` wrote there (the new `y`
    and `b`), and step `i` found the slot's word from before the call.
   */
  lemma WrittenOnce(p: Pools, i: nat)
    requires Sized(p) && i < RANDSIZ
    ensures var q := Steps(i, p);
      var y := Steps(i + 1, p);
      && q.mm[i] == p.mm[i]
      && Steps(|p.mm|, p).mm[i] == y.mm[i] && Steps(|p.mm|, p).rsl[i] == y.rsl[i] == y.b
  {
    StepsFrame(i, p, i);
    if i + 1 < |p.mm| {
      StepsKeep(|p.mm|, p, i);
    }
  }

  /**
    The halves pair up: a step in the first half adds in the other half's
    word from before the call, a step in the second half the word that the
    paired first-half step has just written.
   */
  lemma PartnerWord(p: Pools, i: nat)
    requires Sized(p) && i < RANDSIZ
    ensures i < HALF ==> Steps(i, p).mm[Partner(i)] == p.mm[i + HALF]
    ensures i >= HALF ==> Steps(i, p).mm[Partner(i)] == Steps(i - HALF + 1, p).mm[i - HALF]
  {
    if i < HALF {
      StepsFrame(i, p, i + HALF);
    } else {
      StepsKeep(i, p, i - HALF);
    }
  }

  // ---------------------------------------------------------------------------
  // isaac64_rand()

  datatype Drawn = Drawn(g: Isaac, value: U64)

  /**
    `isaac64_rand()`: with words left, the cursor steps down and the word it
    lands on is returned; at zero (the post-decrement wraps it, but it is
    overwritten at once) a new block is generated, the cursor set to 255 and
    word 255 returned.
   */
  function Draw(g: Isaac): (d: Drawn)
    requires Fits(g) && g.cnt <= RANDSIZ
    ensures Fits(d.g) && d.g.cnt < RANDSIZ
  {
    if g.cnt == 0 then
      var h := Generate(g).(cnt := RANDSIZ - 1);
      Drawn(h, h.rsl[h.cnt])
    else
      var h := g.(cnt := g.cnt - 1);
      Drawn(h, h.rsl[h.cnt])
  }

  datatype Drawns = Drawns(g: Isaac, values: seq<U64>)

  /** `n` draws in a row. */
  function Draws(n: nat, g: Isaac): (r: Drawns)
    requires Fits(g) && g.cnt <= RANDSIZ
    ensures Fits(r.g) && r.g.cnt <= RANDSIZ && |r.values| == n
  {
    if n == 0 then Drawns(g, [])
    else
      var d := Draw(g);
      var rest := Draws(n - 1, d.g);
      Drawns(rest.g, [d.value] + rest.values)
  }

  /**
    While the block lasts, draws return its words from the cursor downwards
    and change nothing but the cursor: no regeneration.
   */
  lemma {:induction false} DrawsFromBlock(n: nat, g: Isaac)
    requires Fits(g) && n <= g.cnt <= RANDSIZ
    ensures var r := Draws(n, g);
      && r.g == g.(cnt := g.cnt - n)
      && forall k :: 0 <= k < n ==> r.values[k] == g.rsl[g.cnt - 1 - k]
  {
    if n > 0 {
      var d := Draw(g);
      assert d == Drawn(g.(cnt := g.cnt - 1), g.rsl[g.cnt - 1]);
      DrawsFromBlock(n - 1, d.g);
    }
  }

  /**
    From an exhausted block, 256 draws regenerate exactly once, return the
    new block's words from index 255 down to 0, and leave the block exhausted
    again: one regeneration per 256 draws.
   */
  lemma DrawsCycle(g: Isaac)
    requires Fits(g) && g.cnt == 0
    ensures var h := Generate(g);
      var r := Draws(|g.rsl|, g);
      && r.g == h.(cnt := 0)
      && forall k :: 0 <= k < RANDSIZ ==> r.values[k] == h.rsl[RANDSIZ - 1 - k]
  {
    var h := Generate(g);
    var d := Draw(g);
    assert d == Drawn(h.(cnt := RANDSIZ - 1), h.rsl[RANDSIZ - 1]);
    DrawsFromBlock(|g.rsl| - 1, d.g);
    var r := Draws(|g.rsl|, g);
    forall k | 0 <= k < RANDSIZ
      ensures r.values[k] == h.rsl[RANDSIZ - 1 - k]
    {
      if k > 0 {
        assert r.values[k] == Draws(|g.rsl| - 1, d.g).values[k - 1];
      }
    }
  }

  // ---------------------------------------------------------------------------
  // isaac64_randinit()

  /** The golden ratio, the eight words' starting value. */
  const GOLDEN: U64 := 0x9e37_79b9_7f4a_7c13
  /** The number of `mix` rounds applied to the golden ratio before any seed word. */
  const ROUNDS: nat := 4

  /** The eight locals a..h of `isaac64_randinit`. */
  datatype Octet = Octet(a: U64, b: U64, c: U64, d: U64, e: U64, f: U64, g: U64, h: U64)

  /**
    The eight lines of the `mix` macro follow one pattern: line `n` (counting
    a..h as words 0..7) subtracts word `n + 4` from word `n`, xors word
    `n + 7` shifted into word `n + 5` (right on even lines, left on odd ones)
    and adds word `n` into word `n + 7`, all indices modulo 8. These are the
    shift amounts, as powers of two: 9, 9, 23, 15, 14, 20, 17, 14.
   */
  const MIX_SHIFTS: seq<nat> := [0x200, 0x200, 0x80_0000, 0x8000, 0x4000, 0x10_0000, 0x2_0000, 0x4000]

  /**
    Line `n` of `mix` on the eight words rotated so that word `n` is `a`: it
    works on a, e, f and h, and rotates by one more so the next line's word
    comes first.
   */
  function MixLine(n: nat, o: Octet): Octet
    requires n < 8
  {
    var a := Sub64(o.a, o.e);
    var f := Xor64(o.f, if n % 2 == 0 then Shr64(o.h, MIX_SHIFTS[n]) else Shl64(o.h, MIX_SHIFTS[n]));
    var h := Add64(o.h, a);
    Octet(o.b, o.c, o.d, o.e, f, o.g, h, a)
  }

  /** The first `n` lines of `mix`; after all eight the rotation is back to a..h. */
  function MixLines(o: Octet, n: nat): Octet
    requires n <= 8
  {
    if n == 0 then o else MixLine(n - 1, MixLines(o, n - 1))
  }

  /** The `mix` macro. */
  function MixOctet(o: Octet): Octet {
    MixLines(o, 8)
  }

  /** The `mix` macro line by line as written, each line updating three of a..h. */
  function MixMacro(o: Octet): Octet {
    var (a, b, c, d, e, f, g, h) := (o.a, o.b, o.c, o.d, o.e, o.f, o.g, o.h);
    var a := Sub64(a, e); var f := Xor64(f, Shr64(h, 512));       var h := Add64(h, a);
    var b := Sub64(b, f); var g := Xor64(g, Shl64(a, 512));       var a := Add64(a, b);
    var c := Sub64(c, g); var h := Xor64(h, Shr64(b, 0x80_0000));  var b := Add64(b, c);
    var d := Sub64(d, h); var a := Xor64(a, Shl64(c, 0x8000));    var c := Add64(c, d);
    var e := Sub64(e, a); var b := Xor64(b, Shr64(d, 0x4000));    var d := Add64(d, e);
    var f := Sub64(f, b); var c := Xor64(c, Shl64(e, 0x10_0000)); var e := Add64(e, f);
    var g := Sub64(g, c); var d := Xor64(d, Shr64(f, 0x2_0000));  var f := Add64(f, g);
    var h := Sub64(h, d); var e := Xor64(e, Shl64(g, 0x4000));    var g := Add64(g, h);
    Octet(a, b, c, d, e, f, g, h)
  }

  /** The eight rotated lines compute exactly the macro as written. */
  lemma {:induction false} MixAsWritten(o: Octet)
    ensures MixOctet(o) == MixMacro(o)
  {
    var (a, b, c, d, e, f, g, h) := (o.a, o.b, o.c, o.d, o.e, o.f, o.g, o.h);
    assert MIX_SHIFTS[0] == 0x200 && MIX_SHIFTS[1] == 0x200 && MIX_SHIFTS[2] == 0x80_0000 && MIX_SHIFTS[3] == 0x8000;
    assert MIX_SHIFTS[4] == 0x4000 && MIX_SHIFTS[5] == 0x10_0000 && MIX_SHIFTS[6] == 0x2_0000 && MIX_SHIFTS[7] == 0x4000;
    a := Sub64(a, e); f := Xor64(f, Shr64(h, 512));       h := Add64(h, a);
    assert MixLines(o, 1) == Octet(b, c, d, e, f, g, h, a);
    b := Sub64(b, f); g := Xor64(g, Shl64(a, 512));       a := Add64(a, b);
    assert MixLines(o, 2) == Octet(c, d, e, f, g, h, a, b);
    c := Sub64(c, g); h := Xor64(h, Shr64(b, 0x80_0000));  b := Add64(b, c);
    assert MixLines(o, 3) == Octet(d, e, f, g, h, a, b, c);
    d := Sub64(d, h); a := Xor64(a, Shl64(c, 0x8000));    c := Add64(c, d);
    assert MixLines(o, 4) == Octet(e, f, g, h, a, b, c, d);
    e := Sub64(e, a); b := Xor64(b, Shr64(d, 0x4000));    d := Add64(d, e);
    assert MixLines(o, 5) == Octet(f, g, h, a, b, c, d, e);
    f := Sub64(f, b); c := Xor64(c, Shl64(e, 0x10_0000)); e := Add64(e, f);
    assert MixLines(o, 6) == Octet(g, h, a, b, c, d, e, f);
    g := Sub64(g, c); d := Xor64(d, Shr64(f, 0x2_0000));  f := Add64(f, g);
    assert MixLines(o, 7) == Octet(h, a, b, c, d, e, f, g);
    h := Sub64(h, d); e := Xor64(e, Shl64(g, 0x4000));    g := Add64(g, h);
    assert MixLines(o, 8) == Octet(a, b, c, d, e, f, g, h);
  }


  /** `mix` applied `n` times. */
  function Scramble(mix: Octet -> Octet, o: Octet, n: nat): Octet {
    if n == 0 then o else mix(Scramble(mix, o, n - 1))
  }

  /** A group of eight words added into a..h: `a += r[i]` through `h += r[i + 7]`. */
  function AddGroup(o: Octet, g: Octet): Octet {
    Octet(Add64(o.a, g.a), Add64(o.b, g.b), Add64(o.c, g.c), Add64(o.d, g.d),
          Add64(o.e, g.e), Add64(o.f, g.f), Add64(o.g, g.g), Add64(o.h, g.h))
  }

  /**
    The body of both fill loops of `isaac64_randinit`: a group added into
    a..h, then `mix`.
   */
  function MixIn(o: Octet, g: Octet): Octet {
    MixOctet(AddGroup(o, g))
  }

  /** Eight consecutive words as a..h. */
  function Unwords(ws: seq<U64>): Octet
    requires |ws| == 8
  {
    Octet(ws[0], ws[1], ws[2], ws[3], ws[4], ws[5], ws[6], ws[7])
  }

  function Words(o: Octet): (ws: seq<U64>)
    ensures |ws| == 8
  {
    [o.a, o.b, o.c, o.d, o.e, o.f, o.g, o.h]
  }

  /**
    The eight words stored over slots `i`..`i + 7` of `s`, one by one; the
    slots before and after keep their words.
   */
  function Put(s: seq<U64>, i: nat, o: Octet): (r: seq<U64>)
    requires i + 8 <= |s|
    ensures |r| == |s| && r[..i + 8] == s[..i] + Words(o) && r[i + 8..] == s[i + 8..]
  {
    s[i := o.a][i + 1 := o.b][i + 2 := o.c][i + 3 := o.d][i + 4 := o.e][i + 5 := o.f][i + 6 := o.g][i + 7 := o.h]
  }

  /** Eight words put just after a prefix `ws` replace the first eight words that followed it. */
  lemma PutAfter(ws: seq<U64>, rest: seq<U64>, o: Octet)
    requires |rest| >= 8
    ensures Put(ws + rest, |ws|, o) == ws + Words(o) + rest[8..]
  {
    var s := ws + rest;
    var r := Put(s, |ws|, o);
    assert s[..|ws|] == ws && s[|ws| + 8..] == rest[8..];
    assert r == r[..|ws| + 8] + r[|ws| + 8..];
  }

  datatype Absorbed = Absorbed(o: Octet, words: seq<U64>)

  /**
    One fill loop of `isaac64_randinit` over its first `k` groups of eight:
    each group of `src` is taken into the eight words by `step` (`MixIn`,
    add then `mix`, in the generator; the structural lemmas below hold for
    any step), and the result is stored as the group's eight words of `mm`.
   */
  function Absorb(step: (Octet, Octet) -> Octet, o: Octet, src: seq<U64>, k: nat): (r: Absorbed)
    requires 8 * k <= |src|
    ensures |r.words| == 8 * k
  {
    if k == 0 then Absorbed(o, [])
    else
      var r := Absorb(step, o, src, k - 1);
      var o' := step(r.o, Unwords(src[8 * (k - 1) .. 8 * k]));
      Absorbed(o', r.words + Words(o'))
  }

  lemma AbsorbLast(step: (Octet, Octet) -> Octet, o: Octet, src: seq<U64>, k: nat)
    requires 0 < k && 8 * k <= |src|
    ensures Absorb(step, o, src, k).words == Absorb(step, o, src, k - 1).words + Words(Absorb(step, o, src, k).o)
  {
  }

  /**
    The pool part way through a fill loop: the first `k` groups absorbed
    from `src`, the words from slot `8k` on still those of `rest`.
   */
  function Filling(step: (Octet, Octet) -> Octet, o0: Octet, src: seq<U64>, rest: seq<U64>, k: nat): (f: Absorbed)
    requires 8 * k <= |src| && 8 * k <= |rest|
    ensures |f.words| == |rest| && f.words[..8 * k] == Absorb(step, o0, src, k).words && f.words[8 * k..] == rest[8 * k..]
    ensures f.o == Absorb(step, o0, src, k).o
  {
    var r := Absorb(step, o0, src, k);
    Absorbed(r.o, r.words + rest[8 * k..])
  }

  /** Once all of `rest` is covered, the pool is exactly the absorbed words. */
  lemma FillingDone(step: (Octet, Octet) -> Octet, o0: Octet, src: seq<U64>, rest: seq<U64>, k: nat)
    requires 8 * k <= |src| && 8 * k == |rest|
    ensures Filling(step, o0, src, rest, k) == Absorb(step, o0, src, k)
  {
    assert rest[8 * k..] == [];
  }

  /** Filling one more group puts its eight mixed words over those of `rest`. */
  lemma FillingNext(step: (Octet, Octet) -> Octet, o0: Octet, src: seq<U64>, rest: seq<U64>, k: nat)
    requires 8 * (k + 1) <= |src| && 8 * (k + 1) <= |rest|
    ensures var f := Filling(step, o0, src, rest, k);
      var o' := step(f.o, Unwords(src[8 * k .. 8 * (k + 1)]));
      Filling(step, o0, src, rest, k + 1) == Absorbed(o', Put(f.words, 8 * k, o'))
  {
    var r := Absorb(step, o0, src, k);
    var o' := step(r.o, Unwords(src[8 * k .. 8 * (k + 1)]));
    PutAfter(r.words, rest[8 * k..], o');
    assert rest[8 * k..][8..] == rest[8 * (k + 1)..];
  }

  /** The last group absorbed is the eight words as they now stand. */
  lemma AbsorbLastGroup(step: (Octet, Octet) -> Octet, o: Octet, src: seq<U64>, j: nat, t: nat)
    requires 8 * (j + 1) <= |src| && t < 8
    ensures Absorb(step, o, src, j + 1).words[8 * j + t] == Words(Absorb(step, o, src, j + 1).o)[t]
  {
    AbsorbLast(step, o, src, j + 1);
  }

  /** Absorbing one more group leaves the words of the earlier groups alone. */
  lemma AbsorbKeeps(step: (Octet, Octet) -> Octet, o: Octet, src: seq<U64>, k: nat, i: nat)
    requires 0 < k && 8 * k <= |src| && i < 8 * (k - 1)
    ensures Absorb(step, o, src, k).words[i] == Absorb(step, o, src, k - 1).words[i]
  {
    AbsorbLast(step, o, src, k);
  }

  /**
    Word `t` of group `j` of the filled words is word `t` of the eight words
    as they stood after the first `j + 1` groups were absorbed.
   */
  lemma {:induction false} AbsorbGroups(step: (Octet, Octet) -> Octet, o: Octet, src: seq<U64>, k: nat, j: nat, t: nat)
    requires 8 * k <= |src| && j < k && t < 8
    ensures Absorb(step, o, src, k).words[8 * j + t] == Words(Absorb(step, o, src, j + 1).o)[t]
  {
    if j + 1 < k {
      AbsorbGroups(step, o, src, k - 1, j, t);
      AbsorbKeeps(step, o, src, k, 8 * j + t);
    } else {
      AbsorbLastGroup(step, o, src, j, t);
    }
  }

  /** The first `k` groups depend on nothing of `src` after its first `8k` words. */
  lemma {:induction false} AbsorbPrefix(step: (Octet, Octet) -> Octet, o: Octet, src: seq<U64>, src': seq<U64>, k: nat)
    requires 8 * k <= |src| && 8 * k <= |src'| && src[..8 * k] == src'[..8 * k]
    ensures Absorb(step, o, src, k) == Absorb(step, o, src', k)
  {
    if k > 0 {
      var i := 8 * (k - 1);
      assert src[..i] == src'[..i] by {
        assert src[..i] == src[..8 * k][..i] && src'[..i] == src'[..8 * k][..i];
      }
      AbsorbPrefix(step, o, src, src', k - 1);
      assert src[i .. 8 * k] == src'[i .. 8 * k] by {
        assert src[i .. 8 * k] == src[..8 * k][i ..] && src'[i .. 8 * k] == src'[..8 * k][i ..];
      }
    }
  }

  /**
    The pool `mm` after both fill passes, the first over the seed and the
    second over the pool the first left, the eight words starting at `start`
    and taking in each group by `step`.
   */
  function Pool(step: (Octet, Octet) -> Octet, start: Octet, seed: seq<U64>): (mm: seq<U64>)
    requires |seed| == RANDSIZ
    ensures |mm| == RANDSIZ
  {
    var first := Absorb(step, start, seed, |seed| / 8);
    Absorb(step, first.o, first.words, |seed| / 8).words
  }

  /** The pool is what the second pass leaves after the first pass over the seed. */
  lemma PoolFrom(step: (Octet, Octet) -> Octet, start: Octet, seed: seq<U64>, first: Absorbed, second: Absorbed)
    requires |seed| == RANDSIZ && Absorb(step, start, seed, RANDSIZ / 8) == first
    requires |first.words| == RANDSIZ && Absorb(step, first.o, first.words, RANDSIZ / 8) == second
    ensures Pool(step, start, seed) == second.words
  {
  }

  /**
    `isaac64_randinit()` with `seed` in `randrsl`: `aa`, `bb`, `cc` cleared,
    the pool filled by both passes, one block generated, and the cursor set
    to 256 so that the block is used from its top.
   */
  function Seeded(seed: seq<U64>): (g: Isaac)
    requires |seed| == RANDSIZ
    ensures Fits(g)
  {
    SeededBy(MixOctet, MixIn, seed)
  }

  /** Seeding with the scrambling function `mix` and the fill step `step`. */
  function SeededBy(mix: Octet -> Octet, step: (Octet, Octet) -> Octet, seed: seq<U64>): (g: Isaac)
    requires |seed| == RANDSIZ
    ensures Fits(g)
  {
    var start := Scramble(mix, Octet(GOLDEN, GOLDEN, GOLDEN, GOLDEN, GOLDEN, GOLDEN, GOLDEN, GOLDEN), ROUNDS);
    Generate(Isaac(Pool(step, start, seed), seed, 0, 0, 0, 0)).(cnt := RANDSIZ)
  }

  /**
    After seeding, a full block is ready: 256 draws return it from its top
    word down without regenerating, and the counter shows exactly one block
    made since the counters were cleared.
   */
  lemma SeededReady(seed: seq<U64>)
    requires |seed| == RANDSIZ
    ensures var g := Seeded(seed);
      && g.cnt == RANDSIZ && g.cc == 1
      && Draws(|seed|, g).g == g.(cnt := 0)
      && forall k :: 0 <= k < RANDSIZ ==> Draws(|seed|, g).values[k] == g.rsl[RANDSIZ - 1 - k]
  {
    DrawsFromBlock(|seed|, Seeded(seed));
  }
}
