/**
  The PostgreSQL extension's generator (pg_c/tuid.c): the microsecond clock
  arithmetic, the shared `(last, seq)` state updated under its lock, and the
  packing of time, sequence and node id into the six UUID groups a..f.
 */
module PgTuid {
  import opened Uint
  import opened Wrappers
  import opened ClockSequence
  import opened UuidText

  // ---------------------------------------------------------------------------
  // get_current_unix_time_us

  /** `(sec * 1000000) + nsec/1000` on uint64 (the clock_gettime variant). */
  function TimespecMicros(sec: U64, nsec: U64): U64 {
    (sec * 1000000 + nsec / 1000) % TWO_64
  }

  /** `(sec * 1000000) + usec` on uint64 (the gettimeofday variant). */
  function TimevalMicros(sec: U64, usec: U64): U64 {
    (sec * 1000000 + usec) % TWO_64
  }

  /** Largest second count whose microsecond value does not wrap uint64. */
  const MAX_EXACT_SEC: int := (TWO_64 - 1000000) / 1000000

  /**
    For a clock_gettime reading (nanoseconds below one second) whose
    microsecond count fits 64 bits, the result splits back into the seconds
    and the whole microseconds of the nanosecond part.
   */
  lemma TimespecMicrosExact(sec: U64, nsec: U64)
    requires nsec < 1000000000 && sec <= MAX_EXACT_SEC
    ensures TimespecMicros(sec, nsec) / 1000000 == sec
    ensures TimespecMicros(sec, nsec) % 1000000 == nsec / 1000
  {
    var v := sec * 1000000 + nsec / 1000;
    assert v < TWO_64;
    assert TimespecMicros(sec, nsec) == v;
  }

  /** The same for a gettimeofday reading (microseconds below one second). */
  lemma TimevalMicrosExact(sec: U64, usec: U64)
    requires usec < 1000000 && sec <= MAX_EXACT_SEC
    ensures TimevalMicros(sec, usec) / 1000000 == sec
    ensures TimevalMicros(sec, usec) % 1000000 == usec
  {
    var v := sec * 1000000 + usec;
    assert v < TWO_64;
    assert TimevalMicros(sec, usec) == v;
  }

  // ---------------------------------------------------------------------------
  // The a..f groups

  /**
    The groups as the extension computes them from the emitted time and
    sequence, the node id and two 32-bit random words. Group e ORs
    `rand1 & 0x3ff` over the node id's low six bits (see NodeIdHiddenByRandom).
   */
  function Pack(last: bv64, sq: bv64, nodeId: bv16, rand1: bv32, rand2: bv32): Fields {
    Fields(
      Low32(last >> 32),
      Low32((last >> 16) & 0xffff),
      Low32(0x4000 | ((last >> 4) & 0x0fff)),
      Low32(0x8000 | ((last & 0xf) << 10) | ((sq << 2) & 0xffff_ffff) | (nodeId as bv64 >> 6)),
      ((nodeId as bv32 & 0x3f) << 2) | (rand1 & 0x3ff),
      rand2)
  }

  /** The sequence field of d, bits 9..2. */
  function SeqOf(g: Fields): bv64 {
    ((g.d >> 2) & 0xff) as bv64
  }

  /**
    For every sequence the state can emit (0..256) and every masked node id,
    c carries the version nibble 4, d the variant bits 10, and b..e fit in
    sixteen bits.
   */
  lemma PackMarkers(last: bv64, sq: bv64, nodeId: bv16, rand1: bv32, rand2: bv32)
    requires sq <= 256 && nodeId <= 0xff
    ensures var g := Pack(last, sq, nodeId, rand1, rand2);
      && g.c >> 12 == 0x4 && g.d >> 14 == 0x2
      && g.b <= 0xffff && g.c <= 0xffff && g.d <= 0xffff && g.e <= 0xffff
  {
  }

  /**
    For sequences up to 255 the time, the sequence and the node id's top two
    bits can be read back from the groups, and f is rand2 itself.
   */
  lemma PackDecodes(last: bv64, sq: bv64, nodeId: bv16, rand1: bv32, rand2: bv32)
    requires sq <= 0xff && nodeId <= 0xff
    ensures var g := Pack(last, sq, nodeId, rand1, rand2);
      && TimeOf(g) == last && SeqOf(g) == sq && g.d & 3 == (nodeId >> 6) as bv32 && g.f == rand2
  {
  }

  /**
    The text for every emittable pair is a 36-character UUID whose groups read
    back as a..f; in particular the version and variant markers stand at
    their UUID positions.
   */
  lemma PackedTextShape(last: bv64, sq: bv64, nodeId: bv16, rand1: bv32, rand2: bv32)
    requires sq <= 256 && nodeId <= 0xff
    ensures var s := Format(Pack(last, sq, nodeId, rand1, rand2));
      && |s| == 36 && s[8] == '-' && s[13] == '-' && s[18] == '-' && s[23] == '-'
      && Hex.AllHexDigits(s[14..18]) && 0x4000 <= Hex.Value(s[14..18]) < 0x5000
      && Hex.AllHexDigits(s[19..23]) && 0x8000 <= Hex.Value(s[19..23]) < 0xc000
  {
    PackMarkers(last, sq, nodeId, rand1, rand2);
    MarkedText(Pack(last, sq, nodeId, rand1, rand2));
  }

  /** `__node_id & 0xff`: the configured `tuid.node_id` setting cut to one byte. */
  function NodeId(setting: bv32): (n: bv16)
    ensures n <= 0xff && n as bv32 == setting & 0xff
  {
    (setting & 0xff) as bv16
  }

  /** The groups packed for an emitted pair: its time as a uint64 bit pattern, its sequence as an unsigned int. */
  function Groups(emitted: Stamp, nodeId: bv16, rand1: bv32, rand2: bv32): Fields {
    Pack(Bits64(emitted.last), Bits64(emitted.sequence), nodeId, rand1, rand2)
  }

  /** The text emitted for a stored pair. */
  function Text(emitted: Stamp, nodeId: bv16, rand1: bv32, rand2: bv32): string {
    Format(Groups(emitted, nodeId, rand1, rand2))
  }

  /**
    Every pair the state can hold gives a 36-character text with hyphens at
    8, 13, 18 and 23 (PackedTextShape adds the markers).
   */
  lemma TextShape(emitted: Stamp, nodeId: bv16, rand1: bv32, rand2: bv32)
    requires emitted.sequence <= MAX_SEQ + 1 && nodeId <= 0xff
    ensures var s := Text(emitted, nodeId, rand1, rand2);
      && |s| == 36 && s[8] == '-' && s[13] == '-' && s[18] == '-' && s[23] == '-'
  {
    BitsSmall(emitted.sequence);
    PackMarkers(Bits64(emitted.last), Bits64(emitted.sequence), nodeId, rand1, rand2);
    Hyphenated(Groups(emitted, nodeId, rand1, rand2));
  }

  /**
    For a sequence up to TUID_MAX_SEQ the groups give back the stored time's
    bit pattern and the sequence.
   */
  lemma GroupsDecode(emitted: Stamp, nodeId: bv16, rand1: bv32, rand2: bv32)
    requires emitted.sequence <= MAX_SEQ && nodeId <= 0xff
    ensures var g := Groups(emitted, nodeId, rand1, rand2);
      TimeOf(g) == Bits64(emitted.last) && SeqOf(g) == Bits64(emitted.sequence)
  {
    BitsSmall(emitted.sequence);
    PackDecodes(Bits64(emitted.last), Bits64(emitted.sequence), nodeId, rand1, rand2);
  }

  /**
    Two different pairs whose sequences stay within TUID_MAX_SEQ are packed
    to different groups, whatever the random words.
   */
  lemma GroupsApart(x: Stamp, y: Stamp, nodeId: bv16, rx1: bv32, rx2: bv32, ry1: bv32, ry2: bv32)
    requires x != y && x.sequence <= MAX_SEQ && y.sequence <= MAX_SEQ && nodeId <= 0xff
    ensures Groups(x, nodeId, rx1, rx2) != Groups(y, nodeId, ry1, ry2)
  {
    GroupsDecode(x, nodeId, rx1, rx2);
    GroupsDecode(y, nodeId, ry1, ry2);
    if x.last == y.last {
      if Bits64(x.sequence) == Bits64(y.sequence) {
        Bits64Injective(x.sequence, y.sequence);
      }
    } else if Bits64(x.last) == Bits64(y.last) {
      Bits64Injective(x.last, y.last);
    }
  }

  // ---------------------------------------------------------------------------
  // The shared state and tuid_generate

  /** The `tuid_state_t` struct in shared memory (its lock is not modelled). */
  class SharedState {
    var last: U64
    var sequence: U32

    ghost predicate Valid()
      reads this
    {
      sequence <= MAX_SEQ + 1
    }

    function Current(): Stamp
      reads this
    {
      Stamp(last, sequence)
    }

    /**
      The critical section between LWLockAcquire and LWLockRelease, as one
      atomic step: the clock/sequence rule applied in place, returning the
      pair it stored.
     */
    method Advance(tUs: U64) returns (last: U64, sq: U32)
      requires Valid()
      modifies this
      ensures Valid()
      ensures Current() == Next(old(Current()), tUs)
      ensures last == this.last && sq == sequence
    {
      if tUs <= this.last {
        if sequence > MAX_SEQ {
          sequence := 0;
          sq := 0;
          this.last := (this.last + 1) % TWO_64;
          last := this.last;
        } else {
          sequence := sequence + 1;
          sq := sequence;
          last := this.last;
        }
      } else {
        sequence := 0;
        sq := 0;
        this.last := tUs;
        last := tUs;
      }
    }

    /**
      The critical section with the cap TUID_MAX_SEQ was meant to impose:
      the sequence rolls over once it has reached 0xFF, so it never leaves
      0..255.
     */
    method AdvanceCapped(tUs: U64) returns (emitted: Stamp)
      requires sequence <= MAX_SEQ
      modifies this
      ensures sequence <= MAX_SEQ
      ensures Current() == NextCapped(old(Current()), tUs) && emitted == Current()
    {
      if tUs <= last {
        if sequence >= MAX_SEQ {
          sequence := 0;
          last := (last + 1) % TWO_64;
        } else {
          sequence := sequence + 1;
        }
      } else {
        sequence := 0;
        last := tUs;
      }
      emitted := Stamp(last, sequence);
    }

    /** The initialisation done when the segment has just been allocated. */
    constructor ()
      ensures Valid() && Current() == Initial
    {
      last := 0;
      sequence := 0;
    }
  }

  datatype Error = StateNotInitialised

  /**
    `tuid_generate`: refuses when the shared state was never set up; otherwise
    masks the configured node id to a byte, applies the clock/sequence rule to
    the reading `tUs` as one critical section, and formats the groups packed
    from the emitted pair. The result is always 36 characters.
   */
  method Generate(state: SharedState?, nodeSetting: bv32, tUs: U64, rand1: bv32, rand2: bv32)
    returns (r: Result<string, Error>)
    requires state != null ==> state.Valid()
    modifies state
    ensures state == null ==> r == Failure(StateNotInitialised)
    ensures state != null ==>
      && state.Valid()
      && state.Current() == Next(old(state.Current()), tUs)
      && r == Success(Text(state.Current(), NodeId(nodeSetting), rand1, rand2))
      && |r.value| == 36
  {
    if state == null {
      return Failure(StateNotInitialised);
    }
    var nodeId := NodeId(nodeSetting);
    var last, sq := state.Advance(tUs);
    TextShape(state.Current(), nodeId, rand1, rand2);
    r := Success(Text(state.Current(), nodeId, rand1, rand2));
  }

  // ---------------------------------------------------------------------------
  // Findings

  /**
    Sequence 256 does not fit the eight-bit field: `256 << 2` sets bit 10 of
    d, which carries time bit 0, so (time, 256) packs exactly like
    (time with bit 0 set, 0).
   */
  lemma SeqOverflowPacksAsNextTime(last: bv64, nodeId: bv16, rand1: bv32, rand2: bv32)
    ensures Pack(last, 256, nodeId, rand1, rand2) == Pack(last | 1, 0, nodeId, rand1, rand2)
  {
  }

  /**
    As written, the stalled clock counts the sequence from 0 up to 256 before
    rolling over. For an even stored time L the pair (L, 256) and the pair
    (L + 1, 0) that the following stalled call emits are packed to the same
    groups, so their texts differ only where the random words differ; for an
    odd L the pair (L, 256) packs like (L, 0), emitted 256 calls earlier.
   */
  lemma SeqOverflowCollides(l: U64, t: U64, nodeId: bv16, rand1: bv32, rand2: bv32)
    requires t <= l && l < MAX_TIME
    ensures Final(Stamp(l, 0), seq(MAX_SEQ + 1, _ => t)) == Stamp(l, 256)
    ensures Next(Stamp(l, 256), t) == Stamp(l + 1, 0)
    ensures l % 2 == 0 ==> Groups(Stamp(l, 256), nodeId, rand1, rand2) == Groups(Stamp(l + 1, 0), nodeId, rand1, rand2)
    ensures l % 2 == 1 ==> Groups(Stamp(l, 256), nodeId, rand1, rand2) == Groups(Stamp(l, 0), nodeId, rand1, rand2)
  {
    StalledClockCounts(l, t, MAX_SEQ + 1);
    if l % 2 == 0 {
      EvenOverflowGroups(l, nodeId, rand1, rand2);
    } else {
      OddOverflowGroups(l, nodeId, rand1, rand2);
    }
  }

  lemma EvenOverflowGroups(l: U64, nodeId: bv16, rand1: bv32, rand2: bv32)
    requires l % 2 == 0 && l < MAX_TIME
    ensures Groups(Stamp(l, 256), nodeId, rand1, rand2) == Groups(Stamp(l + 1, 0), nodeId, rand1, rand2)
  {
    Bits256();
    Bits64Even(l);
    EvenOrOne(Bits64(l));
    OverflowGroupsAlike(Stamp(l, 256), Stamp(l + 1, 0), nodeId, rand1, rand2);
  }

  lemma OddOverflowGroups(l: U64, nodeId: bv16, rand1: bv32, rand2: bv32)
    requires l % 2 == 1
    ensures Groups(Stamp(l, 256), nodeId, rand1, rand2) == Groups(Stamp(l, 0), nodeId, rand1, rand2)
  {
    Bits256();
    OddBit(l);
    OverflowGroupsAlike(Stamp(l, 256), Stamp(l, 0), nodeId, rand1, rand2);
  }

  lemma OverflowGroupsAlike(x: Stamp, y: Stamp, nodeId: bv16, rand1: bv32, rand2: bv32)
    requires Bits64(x.sequence) == 256 && Bits64(y.sequence) == 0 && Bits64(y.last) == Bits64(x.last) | 1
    ensures Groups(x, nodeId, rand1, rand2) == Groups(y, nodeId, rand1, rand2)
  {
    SeqOverflowPacksAsNextTime(Bits64(x.last), nodeId, rand1, rand2);
  }

  lemma EvenOrOne(b: bv64)
    requires b & 1 == 0
    ensures b | 1 == b + 1
  {
  }

  /** An odd value already has its low bit set. */
  lemma OddBit(x: U64)
    requires x % 2 == 1
    ensures Bits64(x) | 1 == Bits64(x)
  {
    BitsStep(x);
    LowBitSet(Bits64(x / 2));
  }

  lemma LowBitSet(h: bv64)
    ensures ((h << 1) | 1) | 1 == (h << 1) | 1
  {
  }

  /**
    With the cap meant by TUID_MAX_SEQ (ClockSequence.NextCapped) every
    emitted sequence fits its field, so any two different emitted pairs are
    packed apart.
   */
  lemma CappedStampsPackApart(s: Stamp, t: U64, nodeId: bv16, r1: bv32, r2: bv32, q1: bv32, q2: bv32)
    requires s.sequence <= MAX_SEQ && s.last < MAX_TIME && nodeId <= 0xff
    ensures Groups(s, nodeId, r1, r2) != Groups(NextCapped(s, t), nodeId, q1, q2)
  {
    GroupsApart(s, NextCapped(s, t), nodeId, r1, r2, q1, q2);
  }

  /**
    As written, group e ORs the ten low bits of rand1 over bits 7..2, where
    the node id's low six bits were placed: when rand1 has those bits set,
    node ids with the same top two bits give identical groups.
   */
  lemma NodeIdHiddenByRandom(last: bv64, sq: bv64, n1: bv16, n2: bv16, rand1: bv32, rand2: bv32)
    requires n1 <= 0xff && n2 <= 0xff && n1 >> 6 == n2 >> 6 && rand1 & 0xfc == 0xfc
    ensures Pack(last, sq, n1, rand1, rand2) == Pack(last, sq, n2, rand1, rand2)
  {
  }

  /**
    The layout the comment above the packing describes, e = (nnnn)(nnrr)
    followed by ten random bits: the node id's low six bits in bits 15..10
    and rand1's ten low bits below them.
   */
  function PackCorrected(last: bv64, sq: bv64, nodeId: bv16, rand1: bv32, rand2: bv32): Fields {
    Pack(last, sq, nodeId, rand1, rand2).(e := ((nodeId as bv32 & 0x3f) << 10) | (rand1 & 0x3ff))
  }

  /** The node id field of the corrected layout: bits 1..0 of d, then bits 15..10 of e. */
  function NodeOf(g: Fields): bv16 {
    ((((g.d & 3) << 6) | ((g.e >> 10) & 0x3f)) & 0xff) as bv16
  }

  /**
    In the corrected layout the time, the sequence (up to TUID_MAX_SEQ) and
    the whole node id read back from the groups, whatever the random words,
    and the markers and widths are those of the original.
   */
  lemma CorrectedPackDecodes(last: bv64, sq: bv64, nodeId: bv16, rand1: bv32, rand2: bv32)
    requires sq <= 0xff && nodeId <= 0xff
    ensures var g := PackCorrected(last, sq, nodeId, rand1, rand2);
      && TimeOf(g) == last && SeqOf(g) == sq && NodeOf(g) == nodeId && g.f == rand2
      && g.c >> 12 == 0x4 && g.d >> 14 == 0x2 && g.e <= 0xffff
  {
    PackDecodes(last, sq, nodeId, rand1, rand2);
    PackMarkers(last, sq, nodeId, rand1, rand2);
  }

  /** The groups of the corrected layout for an emitted pair. */
  function CorrectedGroups(emitted: Stamp, nodeId: bv16, rand1: bv32, rand2: bv32): Fields {
    PackCorrected(Bits64(emitted.last), Bits64(emitted.sequence), nodeId, rand1, rand2)
  }

  /**
    With the capped sequence and the corrected layout, every pair gives the
    36-character text, and its time, sequence and node id read back from
    the groups.
   */
  lemma CorrectedGroupsDecode(emitted: Stamp, nodeId: bv16, rand1: bv32, rand2: bv32)
    requires emitted.sequence <= MAX_SEQ && nodeId <= 0xff
    ensures var g := CorrectedGroups(emitted, nodeId, rand1, rand2);
      && TimeOf(g) == Bits64(emitted.last) && SeqOf(g) == Bits64(emitted.sequence) && NodeOf(g) == nodeId
      && |Format(g)| == 36
  {
    var last, sq := Bits64(emitted.last), Bits64(emitted.sequence);
    BitsSmall(emitted.sequence);
    CorrectedPackDecodes(last, sq, nodeId, rand1, rand2);
    PackMarkers(last, sq, nodeId, rand1, rand2);
    Hyphenated(CorrectedGroups(emitted, nodeId, rand1, rand2));
  }

  /**
    In the corrected generator two calls that emit different pairs, or run
    on nodes with different ids, always give different groups, whatever the
    random words.
   */
  lemma CorrectedGroupsApart(x: Stamp, nx: bv16, y: Stamp, ny: bv16, rx1: bv32, rx2: bv32, ry1: bv32, ry2: bv32)
    requires x.sequence <= MAX_SEQ && y.sequence <= MAX_SEQ && nx <= 0xff && ny <= 0xff
    requires x != y || nx != ny
    ensures CorrectedGroups(x, nx, rx1, rx2) != CorrectedGroups(y, ny, ry1, ry2)
  {
    CorrectedGroupsDecode(x, nx, rx1, rx2);
    CorrectedGroupsDecode(y, ny, ry1, ry2);
    if x.last == y.last {
      if Bits64(x.sequence) == Bits64(y.sequence) {
        Bits64Injective(x.sequence, y.sequence);
      }
    } else if Bits64(x.last) == Bits64(y.last) {
      Bits64Injective(x.last, y.last);
    }
  }

  /**
    `tuid_generate` as intended: the capped sequence rule and the node id in
    bits 15..10 of e. The result is the 36-character text of the emitted
    pair, from which the pair and the node id can be read back.
   */
  method GenerateCorrected(state: SharedState?, nodeSetting: bv32, tUs: U64, rand1: bv32, rand2: bv32)
    returns (r: Result<string, Error>)
    requires state != null ==> state.sequence <= MAX_SEQ
    modifies state
    ensures state == null ==> r == Failure(StateNotInitialised)
    ensures state != null ==>
      && state.sequence <= MAX_SEQ
      && state.Current() == NextCapped(old(state.Current()), tUs)
      && r == Success(Format(CorrectedGroups(state.Current(), NodeId(nodeSetting), rand1, rand2)))
      && |r.value| == 36
  {
    if state == null {
      return Failure(StateNotInitialised);
    }
    var nodeId := NodeId(nodeSetting);
    var emitted := state.AdvanceCapped(tUs);
    CorrectedGroupsDecode(emitted, nodeId, rand1, rand2);
    r := Success(Format(CorrectedGroups(emitted, nodeId, rand1, rand2)));
  }
}
