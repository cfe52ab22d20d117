/**
  The clock/sequence rule shared by both C generators: `tuid_generate` in
  pg_c/tuid.c (over the shared-memory struct) and in tuid.c (over the globals
  `__last`/`__seq`) run the same branches on a 64-bit `last` and an unsigned
  `seq`, and emit the stored pair after updating it.
 */
module ClockSequence {
  import opened Uint

  /** TUID_MAX_SEQ */
  const MAX_SEQ: U32 := 0xFF

  const MAX_TIME: U64 := TWO_64 - 1

  /** The stored (and emitted) pair: a uint64 time in microseconds and an unsigned int sequence. */
  datatype Stamp = Stamp(last: U64, sequence: U32)

  /** The state set up when the shared segment is first allocated. */
  const Initial := Stamp(0, 0)

  /** Lexicographic order on stamps: time first, then sequence. */
  predicate Before(x: Stamp, y: Stamp) {
    x.last < y.last || (x.last == y.last && x.sequence < y.sequence)
  }

  /**
    One update for the clock reading `t`. A reading that does not pass the
    stored time bumps the sequence; a sequence already above TUID_MAX_SEQ
    instead moves the stored time on by one microsecond (wrapping at 2^64, as
    `++last` on a uint64 does) and restarts the sequence.
   */
  function Next(s: Stamp, t: U64): Stamp {
    if t <= s.last then
      if s.sequence > MAX_SEQ then Stamp((s.last + 1) % TWO_64, 0)
      else Stamp(s.last, (s.sequence + 1) % TWO_32)
    else
      Stamp(t, 0)
  }

  /** The sequence never leaves 0..256: the rollover test lets it reach 256, one past TUID_MAX_SEQ. */
  lemma NextSeqBound(s: Stamp, t: U64)
    requires s.sequence <= MAX_SEQ + 1
    ensures Next(s, t).sequence <= MAX_SEQ + 1
    ensures Next(s, t).sequence == MAX_SEQ + 1 <==> t <= s.last && s.sequence == MAX_SEQ
  {
  }

  /**
    Unless the stored time is already the largest 64-bit value, every update
    emits a stamp strictly after the stored one, never earlier than the
    clock reading, and the stored time never decreases.
   */
  lemma NextAdvances(s: Stamp, t: U64)
    requires s.last < MAX_TIME && s.sequence <= MAX_SEQ + 1
    ensures Before(s, Next(s, t))
    ensures s.last <= Next(s, t).last
    ensures t <= Next(s, t).last
  {
  }

  /** The stamps emitted for the clock readings `ts`, one after another. */
  function Run(s: Stamp, ts: seq<U64>): (r: seq<Stamp>)
    ensures |r| == |ts|
    decreases |ts|
  {
    if ts == [] then [] else [Next(s, ts[0])] + Run(Next(s, ts[0]), ts[1..])
  }

  /** The stored state after the readings `ts`. */
  function Final(s: Stamp, ts: seq<U64>): Stamp
    decreases |ts|
  {
    if ts == [] then s else Final(Next(s, ts[0]), ts[1..])
  }

  /**
    Every stamp of a run comes strictly after the starting state, as long as
    no stored time can reach 2^64 - 1 within the run.
   */
  lemma {:induction false} RunAfter(s: Stamp, ts: seq<U64>)
    requires s.sequence <= MAX_SEQ + 1
    requires s.last + |ts| < MAX_TIME
    requires forall i :: 0 <= i < |ts| ==> ts[i] + |ts| < MAX_TIME
    ensures forall i :: 0 <= i < |ts| ==> Before(s, Run(s, ts)[i])
    decreases |ts|
  {
    if ts != [] {
      var s' := Next(s, ts[0]);
      NextAdvances(s, ts[0]);
      NextSeqBound(s, ts[0]);
      RunAfter(s', ts[1..]);
      forall i | 0 <= i < |ts|
        ensures Before(s, Run(s, ts)[i])
      {
        if i > 0 {
          assert Run(s, ts)[i] == Run(s', ts[1..])[i - 1];
        }
      }
    }
  }

  /**
    Monotonicity: for any clock readings, however they jump backwards, the
    emitted stamps strictly increase in lexicographic order (so no two are
    equal), provided the stored time stays below 2^64 - 1.
   */
  lemma {:induction false} RunStrictlyIncreasing(s: Stamp, ts: seq<U64>)
    requires s.sequence <= MAX_SEQ + 1
    requires s.last + |ts| < MAX_TIME
    requires forall i :: 0 <= i < |ts| ==> ts[i] + |ts| < MAX_TIME
    ensures forall i, j :: 0 <= i < j < |ts| ==> Before(Run(s, ts)[i], Run(s, ts)[j])
    decreases |ts|
  {
    if ts != [] {
      var s' := Next(s, ts[0]);
      var rest := Run(s', ts[1..]);
      NextAdvances(s, ts[0]);
      NextSeqBound(s, ts[0]);
      RunAfter(s', ts[1..]);
      RunStrictlyIncreasing(s', ts[1..]);
      forall i, j | 0 <= i < j < |ts|
        ensures Before(Run(s, ts)[i], Run(s, ts)[j])
      {
        assert Run(s, ts)[j] == rest[j - 1];
        if i > 0 {
          assert Run(s, ts)[i] == rest[i - 1];
        }
      }
    }
  }

  /** `k` readings at or before the stored time `t`, starting from sequence 0, count the sequence up to `k`. */
  lemma {:induction false} StalledClockCounts(l: U64, t: U64, k: nat)
    requires t <= l && k <= MAX_SEQ + 1
    ensures Final(Stamp(l, 0), seq(k, _ => t)) == Stamp(l, k)
  {
    if k > 0 {
      var ts := seq(k, _ => t);
      StalledClockCounts(l, t, k - 1);
      assert ts == seq(k - 1, _ => t) + [t];
      FinalAppend(Stamp(l, 0), seq(k - 1, _ => t), t);
    }
  }

  lemma {:induction false} FinalAppend(s: Stamp, ts: seq<U64>, t: U64)
    ensures Final(s, ts + [t]) == Next(Final(s, ts), t)
    decreases |ts|
  {
    if ts != [] {
      assert (ts + [t])[1..] == ts[1..] + [t];
      FinalAppend(Next(s, ts[0]), ts[1..], t);
    }
  }

  /**
    The rule with the cap the sequence field was meant to have: roll over once
    the sequence has reached TUID_MAX_SEQ, as the Ruby generator does, so an
    emitted sequence always fits in eight bits.
   */
  function NextCapped(s: Stamp, t: U64): (r: Stamp)
    requires s.sequence <= MAX_SEQ
    ensures r.sequence <= MAX_SEQ
    ensures s.last < MAX_TIME ==> Before(s, r) && t <= r.last
  {
    if t <= s.last then
      if s.sequence >= MAX_SEQ then Stamp((s.last + 1) % TWO_64, 0)
      else Stamp(s.last, (s.sequence + 1) % TWO_32)
    else
      Stamp(t, 0)
  }
}
