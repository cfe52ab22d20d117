/**
  The Ruby port (ruby/tuid.rb): a `TUID` object keeping `@last`, `@seq` and
  a one-byte `@nid`, whose `call` runs its own clock/sequence rule (rolling
  over at 0xff, not past it) and whose `TUID.pack` lays the time, sequence,
  node id and six random bytes out as sixteen bytes printed with `%02x`.
  Ruby integers are unbounded, so times and sequences are `nat` here; the
  only width limit is `pack('Q>')`, which keeps the low 64 bits of its
  argument (two's complement) and so wraps a value of 2^64 or more.
 */
module RubyTuid {
  import opened Uint
  import opened Wrappers
  import ClockSequence
  import Hex
  import UuidText

  /** The rollover bound: `@seq > 0xff` restarts the sequence. */
  const MAX_SEQ: nat := 0xff

  /** The pair `(@last, @seq)`. */
  datatype Pair = Pair(last: nat, sequence: nat)

  /** Lexicographic order: time first, then sequence. */
  predicate Before(x: Pair, y: Pair) {
    x.last < y.last || (x.last == y.last && x.sequence < y.sequence)
  }

  /**
    One `call` for the clock reading `us`: a reading past `@last` becomes the
    new time with sequence 0; otherwise the sequence counts up, and a count
    past 0xff restarts it at 0 one microsecond later. The sequence it leaves
    always fits a byte.
   */
  function Next(s: Pair, us: int): (r: Pair)
    ensures r.sequence <= MAX_SEQ
  {
    if us > s.last then Pair(us, 0)
    else if s.sequence + 1 > MAX_SEQ then Pair(s.last + 1, 0)
    else Pair(s.last, s.sequence + 1)
  }

  /**
    Every call moves the pair strictly forward, never below the reading nor
    below the stored time; with unbounded integers no upper limit is needed.
   */
  lemma NextAdvances(s: Pair, us: int)
    requires s.sequence <= MAX_SEQ
    ensures Before(s, Next(s, us))
    ensures s.last <= Next(s, us).last && us <= Next(s, us).last
  {
  }

  /**
    On every state the C generators can share with it (a time below 2^64 - 1
    and a sequence that fits a byte), this rule is the C rule with the cap
    the C code was meant to have.
   */
  lemma AgreesWithCapped(s: Pair, us: U64)
    requires s.last < ClockSequence.MAX_TIME && s.sequence <= MAX_SEQ
    ensures var c := ClockSequence.NextCapped(ClockSequence.Stamp(s.last, s.sequence), us);
      Next(s, us) == Pair(c.last, c.sequence)
  {
  }

  /** The pairs emitted for the readings `us`, one call after another. */
  function Run(s: Pair, us: seq<int>): (r: seq<Pair>)
    ensures |r| == |us|
    decreases |us|
  {
    if us == [] then [] else [Next(s, us[0])] + Run(Next(s, us[0]), us[1..])
  }

  lemma {:induction false} RunAfter(s: Pair, us: seq<int>)
    requires s.sequence <= MAX_SEQ
    ensures forall i :: 0 <= i < |us| ==> Before(s, Run(s, us)[i])
    decreases |us|
  {
    if us != [] {
      var s' := Next(s, us[0]);
      NextAdvances(s, us[0]);
      RunAfter(s', us[1..]);
      forall i | 0 <= i < |us|
        ensures Before(s, Run(s, us)[i])
      {
        if i > 0 {
          assert Run(s, us)[i] == Run(s', us[1..])[i - 1];
        }
      }
    }
  }

  /**
    Across any readings, however the clock jumps back, the emitted pairs
    strictly increase, so no two calls of one object emit the same pair.
   */
  lemma {:induction false} RunStrictlyIncreasing(s: Pair, us: seq<int>)
    requires s.sequence <= MAX_SEQ
    ensures forall i, j :: 0 <= i < j < |us| ==> Before(Run(s, us)[i], Run(s, us)[j])
    decreases |us|
  {
    if us != [] {
      var s' := Next(s, us[0]);
      var rest := Run(s', us[1..]);
      NextAdvances(s, us[0]);
      RunAfter(s', us[1..]);
      RunStrictlyIncreasing(s', us[1..]);
      forall i, j | 0 <= i < j < |us|
        ensures Before(Run(s, us)[i], Run(s, us)[j])
      {
        assert Run(s, us)[j] == rest[j - 1];
        if i > 0 {
          assert Run(s, us)[i] == rest[i - 1];
        }
      }
    }
  }

  // ---------------------------------------------------------------------------
  // TUID.pack

  /** Why `pack` raises instead of returning text. */
  datatype PackError =
    | MissingRandomByte // `rb` shorter than six bytes: a nil among the values (Ruby's TypeError)

  /** The low byte of a word. */
  function Byte(x: bv64): bv8 {
    (x & 0xff) as bv8
  }

  /** `[x].pack('Q>').bytes`: the eight bytes of a word, most significant first. */
  function BigEndian(x: bv64): (bs: seq<bv8>)
    ensures |bs| == 8
  {
    [Byte(x >> 56), Byte(x >> 48), Byte(x >> 40), Byte(x >> 32),
     Byte(x >> 24), Byte(x >> 16), Byte(x >> 8), Byte(x)]
  }

  /**
    The word `pack` builds for bytes 6..10: 0x40_0080_0000 for the markers,
    tb[6] at bits 35..28, tb[7]'s high nibble at 27..24 and its low nibble at
    21..18, the sequence from bit 10, the node id from bit 2 and rb[0]'s two
    low bits at the bottom.
   */
  function Word(tb6: bv8, tb7: bv8, sq: bv64, nid: bv64, r0: bv8): bv64 {
    0x40_0080_0000 | (tb6 as bv64 << 28) | ((tb7 as bv64 & 0xf0) << 20) | ((tb7 as bv64 & 0xf) << 18)
    | (sq << 10) | (nid << 2) | (r0 as bv64 & 3)
  }

  /**
    The sixteen values `pack` hands to `format`: tb[0..5], the low five bytes
    of the packed word, then rb[1..5]. Both `pack('Q>')` calls keep the low
    64 bits, so the time is taken modulo 2^64 and the sequence and node id
    shifted past bit 63 lose those bits, as the `bv64` shifts of Word do. A
    missing rb[0] fails when the word is computed, a missing rb[1..5] in
    `format`.
   */
  function PackBytes(rb: seq<bv8>, t: nat, nid: nat, sq: nat): (r: Result<seq<bv8>, PackError>)
    ensures r.Success? ==> |r.value| == 16
  {
    if |rb| < 6 then Failure(MissingRandomByte)
    else Success(Packed(rb, t % TWO_64, nid % TWO_64, sq % TWO_64))
  }

  /** The sixteen bytes of `pack` for the low 64 bits of the time, node id and sequence. */
  function Packed(rb: seq<bv8>, t: U64, nid: U64, sq: U64): (bs: seq<bv8>)
    requires |rb| >= 6
    ensures |bs| == 16 && bs[11..] == rb[1..6]
  {
    var tb := BigEndian(Bits64(t));
    var packed := BigEndian(Word(tb[6], tb[7], Bits64(sq), Bits64(nid), rb[0]));
    tb[..6] + packed[3..] + rb[1..6]
  }

  /** `format('%02x', b)`: two digits that read back as the byte. */
  function Hex2(b: bv8): (s: string)
    ensures |s| == 2 && Hex.AllHexDigits(s) && Hex.Value(s) == b as nat
  {
    Hex.Pow16Values();
    Hex.Printf(b as nat, 2)
  }

  /** `%02x` for each byte, concatenated. */
  function HexBytes(bs: seq<bv8>): (s: string)
    ensures |s| == 2 * |bs| && Hex.AllHexDigits(s)
  {
    if bs == [] then "" else Hex2(bs[0]) + HexBytes(bs[1..])
  }

  /** The `format` call of `pack`, grouped as the hyphens split it. */
  function Text(bs: seq<bv8>): string
    requires |bs| == 16
  {
    HexBytes(bs[..4]) + "-" + HexBytes(bs[4..6]) + "-" + HexBytes(bs[6..8]) + "-"
    + HexBytes(bs[8..10]) + "-" + HexBytes(bs[10..12]) + HexBytes(bs[12..])
  }

  /** `TUID.pack(rb, t, nid, seq)` */
  function Pack(rb: seq<bv8>, t: nat, nid: nat, sq: nat): Result<string, PackError> {
    match PackBytes(rb, t, nid, sq)
    case Success(bs) => Success(Text(bs))
    case Failure(e) => Failure(e)
  }

  /** The time packed into bytes 0..8: tb[0..5], then tb[6] and tb[7] from their nibbles. */
  function TimeOf(bs: seq<bv8>): bv64
    requires |bs| == 16
  {
    Join(bs[0], bs[1], bs[2], bs[3], bs[4], bs[5], bs[6], bs[7], bs[8])
  }

  function Join(b0: bv8, b1: bv8, b2: bv8, b3: bv8, b4: bv8, b5: bv8, b6: bv8, b7: bv8, b8: bv8): bv64 {
    (b0 as bv64 << 56) | (b1 as bv64 << 48) | (b2 as bv64 << 40) | (b3 as bv64 << 32)
    | (b4 as bv64 << 24) | (b5 as bv64 << 16)
    | ((b6 as bv64 & 0xf) << 12) | ((b7 as bv64) << 4) | ((b8 as bv64 >> 2) & 0xf)
  }

  /** How `pack` spreads the time `x` over bytes 0..8. */
  predicate Spread(x: bv64, b0: bv8, b1: bv8, b2: bv8, b3: bv8, b4: bv8, b5: bv8, b6: bv8, b7: bv8, b8: bv8) {
    && b0 == Byte(x >> 56) && b1 == Byte(x >> 48) && b2 == Byte(x >> 40)
    && b3 == Byte(x >> 32) && b4 == Byte(x >> 24) && b5 == Byte(x >> 16)
    && ((b6 & 0xf) << 4) | (b7 >> 4) == Byte(x >> 8)
    && b7 & 0xf == Byte(x) >> 4 && (b8 >> 2) & 0xf == Byte(x) & 0xf
  }

  /** The sequence: bits 1..0 of byte 8 and 7..2 of byte 9. */
  function SeqOf(bs: seq<bv8>): bv64
    requires |bs| == 16
  {
    ((bs[8] as bv64 & 3) << 6) | (bs[9] as bv64 >> 2)
  }

  /** The node id: bits 1..0 of byte 9 and 7..2 of byte 10. */
  function NodeOf(bs: seq<bv8>): bv64
    requires |bs| == 16
  {
    ((bs[9] as bv64 & 3) << 6) | (bs[10] as bv64 >> 2)
  }

  /**
    Where the word's fields land in its low five bytes: the markers, tb[6]
    and tb[7] split over nibbles, and, for a sequence and node id that fit a
    byte, both of them and rb[0]'s two bits recoverable.
   */
  lemma WordBytes(tb6: bv8, tb7: bv8, sq: bv64, nid: bv64, r0: bv8)
    requires sq <= 0xff && nid <= 0xff
    ensures var p := BigEndian(Word(tb6, tb7, sq, nid, r0));
      && p[3] >> 4 == 4 && p[5] >> 6 == 2
      && ((p[3] & 0xf) << 4) | (p[4] >> 4) == tb6 && p[4] & 0xf == tb7 >> 4 && (p[5] >> 2) & 0xf == tb7 & 0xf
      && ((p[5] as bv64 & 3) << 6) | (p[6] as bv64 >> 2) == sq
      && ((p[6] as bv64 & 3) << 6) | (p[7] as bv64 >> 2) == nid
      && p[7] & 3 == r0 & 3
  {
  }

  /** The pieces of a successful `pack`: tb[0..5], the packed word's bytes 3..7, rb[1..5]. */
  lemma PackParts(rb: seq<bv8>, t: U64, nid: U64, sq: U64)
    requires nid <= 0xff && sq <= MAX_SEQ && |rb| >= 6
    ensures var bs := Packed(rb, t, nid, sq);
      var tb := BigEndian(Bits64(t));
      var p := BigEndian(Word(tb[6], tb[7], Bits64(sq), Bits64(nid), rb[0]));
      && |bs| == 16 && bs[..6] == tb[..6] && bs[11..] == rb[1..6]
      && bs[6] == p[3] && bs[7] == p[4] && bs[8] == p[5] && bs[9] == p[6] && bs[10] == p[7]
      && Bits64(sq) <= 0xff && Bits64(nid) <= 0xff
  {
    BitsSmall(sq);
    BitsSmall(nid);
    var tb := BigEndian(Bits64(t));
    var p := BigEndian(Word(tb[6], tb[7], Bits64(sq), Bits64(nid), rb[0]));
    var bs := tb[..6] + p[3..] + rb[1..6];
    assert Packed(rb, t, nid, sq) == bs;
    assert bs[6..11] == p[3..];
  }

  /**
    `pack` for any time, a sequence and node id that fit a byte and six
    random bytes: sixteen bytes, the first six the top 48 bits of the time
    (modulo 2^64) big-endian, the last five rb[1..5] verbatim, the version nibble 4
    at the top of byte 6 and the variant bits 10 at the top of byte 8, with
    tb[6] and the high nibble of tb[7] in the nibbles between.
   */
  lemma PackLayout(rb: seq<bv8>, t: nat, nid: nat, sq: nat)
    requires nid <= 0xff && sq <= MAX_SEQ && |rb| >= 6
    ensures PackBytes(rb, t, nid, sq).Success?
    ensures var bs := PackBytes(rb, t, nid, sq).value;
      var tb := BigEndian(Bits64(t % TWO_64));
      && |bs| == 16 && bs[..6] == tb[..6] && bs[11..] == rb[1..6]
      && bs[6] >> 4 == 4 && bs[8] >> 6 == 2
      && ((bs[6] & 0xf) << 4) | (bs[7] >> 4) == tb[6] && bs[7] & 0xf == tb[7] >> 4
      && (bs[8] >> 2) & 0xf == tb[7] & 0xf
  {
    assert nid % TWO_64 == nid && sq % TWO_64 == sq;
    PackParts(rb, t % TWO_64, nid, sq);
    var tb := BigEndian(Bits64(t % TWO_64));
    WordBytes(tb[6], tb[7], Bits64(sq), Bits64(nid), rb[0]);
  }

  /**
    Round trip: from the bytes of such a `pack` the time modulo 2^64, the
    sequence, the node id and rb[0]'s two low bits read back.
   */
  lemma PackDecodes(rb: seq<bv8>, t: nat, nid: nat, sq: nat)
    requires nid <= 0xff && sq <= MAX_SEQ && |rb| >= 6
    ensures PackBytes(rb, t, nid, sq).Success?
    ensures var bs := PackBytes(rb, t, nid, sq).value;
      && |bs| == 16
      && TimeOf(bs) == Bits64(t % TWO_64) && SeqOf(bs) == Bits64(sq) && NodeOf(bs) == Bits64(nid)
      && bs[10] & 3 == rb[0] & 3
  {
    assert nid % TWO_64 == nid && sq % TWO_64 == sq;
    PackedDecodes(rb, t % TWO_64, nid, sq);
  }

  /** PackDecodes for a time already below 2^64. */
  lemma PackedDecodes(rb: seq<bv8>, t: U64, nid: U64, sq: U64)
    requires nid <= 0xff && sq <= MAX_SEQ && |rb| >= 6
    ensures var bs := Packed(rb, t, nid, sq);
      && TimeOf(bs) == Bits64(t) && SeqOf(bs) == Bits64(sq) && NodeOf(bs) == Bits64(nid)
      && bs[10] & 3 == rb[0] & 3
  {
    PackParts(rb, t, nid, sq);
    var tb := BigEndian(Bits64(t));
    var bs := Packed(rb, t, nid, sq);
    WordBytes(tb[6], tb[7], Bits64(sq), Bits64(nid), rb[0]);
    LayoutSpread(Bits64(t), bs);
    Rejoin(Bits64(t), bs[0], bs[1], bs[2], bs[3], bs[4], bs[5], bs[6], bs[7], bs[8]);
  }

  /** The time reads back from the nine bytes it is spread over. */
  lemma Rejoin(x: bv64, b0: bv8, b1: bv8, b2: bv8, b3: bv8, b4: bv8, b5: bv8, b6: bv8, b7: bv8, b8: bv8)
    requires Spread(x, b0, b1, b2, b3, b4, b5, b6, b7, b8)
    ensures Join(b0, b1, b2, b3, b4, b5, b6, b7, b8) == x
  {
  }

  lemma LayoutSpread(x: bv64, bs: seq<bv8>)
    requires |bs| == 16 && bs[..6] == BigEndian(x)[..6]
    requires ((bs[6] & 0xf) << 4) | (bs[7] >> 4) == Byte(x >> 8)
    requires bs[7] & 0xf == Byte(x) >> 4 && (bs[8] >> 2) & 0xf == Byte(x) & 0xf
    ensures Spread(x, bs[0], bs[1], bs[2], bs[3], bs[4], bs[5], bs[6], bs[7], bs[8])
  {
    assert bs[0] == BigEndian(x)[0] && bs[1] == BigEndian(x)[1] && bs[2] == BigEndian(x)[2];
    assert bs[3] == BigEndian(x)[3] && bs[4] == BigEndian(x)[4] && bs[5] == BigEndian(x)[5];
  }

  /**
    Round trip: the bytes `pack` produces for a sequence and node id that
    fit a byte determine the time modulo 2^64, the sequence and the node id
    they were made from.
   */
  lemma PackInjective(rb: seq<bv8>, t: nat, nid: nat, sq: nat, rb': seq<bv8>, t': nat, nid': nat, sq': nat)
    requires nid <= 0xff && sq <= MAX_SEQ && |rb| >= 6
    requires nid' <= 0xff && sq' <= MAX_SEQ && |rb'| >= 6
    requires PackBytes(rb, t, nid, sq) == PackBytes(rb', t', nid', sq')
    ensures t % TWO_64 == t' % TWO_64 && nid == nid' && sq == sq'
  {
    PackDecodes(rb, t, nid, sq);
    PackDecodes(rb', t', nid', sq');
    Bits64Injective(t % TWO_64, t' % TWO_64);
    Bits64Injective(nid, nid');
    Bits64Injective(sq, sq');
  }

  /** Two bytes print alike only if they are equal. */
  lemma Hex2Injective(x: bv8, y: bv8)
    requires Hex2(x) == Hex2(y)
    ensures x == y
  {
    assert Hex.Value(Hex2(x)) == Hex.Value(Hex2(y));
    SameValue(x, y);
  }

  lemma SameValue(x: bv8, y: bv8)
    requires x as nat == y as nat
    ensures x == y
  {
  }

  /** Byte sequences of one length print alike only if they are equal. */
  lemma {:induction false} HexBytesInjective(xs: seq<bv8>, ys: seq<bv8>)
    requires |xs| == |ys| && HexBytes(xs) == HexBytes(ys)
    ensures xs == ys
    decreases |xs|
  {
    if xs != [] {
      var hx, hy := HexBytes(xs), HexBytes(ys);
      assert hx == Hex2(xs[0]) + HexBytes(xs[1..]);
      assert hy == Hex2(ys[0]) + HexBytes(ys[1..]);
      assert Hex2(xs[0]) == hx[..2] && Hex2(ys[0]) == hy[..2];
      assert HexBytes(xs[1..]) == hx[2..] && HexBytes(ys[1..]) == hy[2..];
      Hex2Injective(xs[0], ys[0]);
      HexBytesInjective(xs[1..], ys[1..]);
      assert xs == [xs[0]] + xs[1..] && ys == [ys[0]] + ys[1..];
    }
  }

  /**
    The formatted result: 36 characters, hyphens at 8, 13, 18 and 23,
    hexadecimal digits in the five groups between them, and the sixteen
    bytes readable back from the text.
   */
  lemma TextShape(bs: seq<bv8>)
    requires |bs| == 16
    ensures var s := Text(bs);
      && |s| == 36 && s[8] == '-' && s[13] == '-' && s[18] == '-' && s[23] == '-'
      && Hex.AllHexDigits(s[..8]) && Hex.AllHexDigits(s[9..13]) && Hex.AllHexDigits(s[14..18])
      && Hex.AllHexDigits(s[19..23]) && Hex.AllHexDigits(s[24..])
  {
    UuidText.Layout(HexBytes(bs[..4]), HexBytes(bs[4..6]), HexBytes(bs[6..8]), HexBytes(bs[8..10]),
                    HexBytes(bs[10..12]), HexBytes(bs[12..]));
  }

  /** Where the printed bytes sit in the text. */
  lemma TextParts(bs: seq<bv8>)
    requires |bs| == 16
    ensures var s := Text(bs);
      && |s| == 36
      && s[..8] == HexBytes(bs[..4]) && s[9..13] == HexBytes(bs[4..6]) && s[14..18] == HexBytes(bs[6..8])
      && s[19..23] == HexBytes(bs[8..10]) && s[24..28] == HexBytes(bs[10..12]) && s[28..] == HexBytes(bs[12..])
  {
    UuidText.Layout(HexBytes(bs[..4]), HexBytes(bs[4..6]), HexBytes(bs[6..8]), HexBytes(bs[8..10]),
                    HexBytes(bs[10..12]), HexBytes(bs[12..]));
  }

  /** Different byte arrays print differently, so the text keeps everything `pack` put in. */
  lemma TextInjective(xs: seq<bv8>, ys: seq<bv8>)
    requires |xs| == 16 && |ys| == 16 && Text(xs) == Text(ys)
    ensures xs == ys
  {
    TextParts(xs);
    TextParts(ys);
    HexBytesInjective(xs[..4], ys[..4]);
    HexBytesInjective(xs[4..6], ys[4..6]);
    HexBytesInjective(xs[6..8], ys[6..8]);
    HexBytesInjective(xs[8..10], ys[8..10]);
    HexBytesInjective(xs[10..12], ys[10..12]);
    HexBytesInjective(xs[12..], ys[12..]);
    Slices(xs);
    Slices(ys);
  }

  lemma Slices(bs: seq<bv8>)
    requires |bs| == 16
    ensures bs == bs[..4] + bs[4..6] + bs[6..8] + bs[8..10] + bs[10..12] + bs[12..]
  {
  }

  /**
    The only error of `pack` is a missing random byte; every other call,
    whatever the width of the time, sequence or node id, gives a
    36-character text.
   */
  lemma PackFails(rb: seq<bv8>, t: nat, nid: nat, sq: nat)
    ensures Pack(rb, t, nid, sq).Failure? <==> |rb| < 6
    ensures Pack(rb, t, nid, sq).Success? ==> |Pack(rb, t, nid, sq).value| == 36
  {
    if PackBytes(rb, t, nid, sq).Success? {
      TextShape(PackBytes(rb, t, nid, sq).value);
    }
  }

  /** `pack('Q>')` keeps the low 64 bits: times 2^64 apart give the same bytes. */
  lemma PackWraps(rb: seq<bv8>, t: nat, nid: nat, sq: nat)
    ensures PackBytes(rb, t + TWO_64, nid, sq) == PackBytes(rb, t, nid, sq)
  {
    assert (t + TWO_64) % TWO_64 == t % TWO_64;
  }

  // ---------------------------------------------------------------------------
  // The TUID object

  /** A `TUID` instance; the clock it calls is the parameter of `Call`. */
  class Tuid {
    var last: nat
    var sequence: nat
    var nid: nat

    ghost predicate Valid()
      reads this
    {
      sequence <= MAX_SEQ && nid <= 0xff
    }

    function Current(): Pair
      reads this
    {
      Pair(last, sequence)
    }

    /**
      `TUID.new(nid: n)`: `n & 0xff` (which on Ruby's two's-complement
      integers is `n` modulo 256, also for negative `n`), with `@last` and
      `@seq` at zero.
     */
    constructor (n: int)
      ensures Valid() && Current() == Pair(0, 0) && nid == n % 256
    {
      last := 0;
      sequence := 0;
      nid := n % 256;
    }

    /** The update of `@last` and `@seq` for the reading `us`. */
    method Advance(us: int)
      requires Valid()
      modifies this
      ensures Valid() && nid == old(nid)
      ensures Current() == Next(old(Current()), us)
    {
      if us > last {
        last := us;
        sequence := 0;
      } else {
        sequence := sequence + 1;
        if sequence > MAX_SEQ {
          sequence := 0;
          last := last + 1;
        }
      }
    }

    /**
      `call` with the clock reading `us` and the six random bytes `rb`: the
      update, then `pack` of the new pair, which always gives a 36-character
      text (a time of 2^64 or more wraps in `pack('Q>')`).
     */
    method Call(us: int, rb: seq<bv8>) returns (text: string)
      requires Valid() && |rb| == 6
      modifies this
      ensures Valid() && nid == old(nid)
      ensures Current() == Next(old(Current()), us)
      ensures Pack(rb, last, nid, sequence) == Success(text)
      ensures |text| == 36
    {
      Advance(us);
      PackFails(rb, last, nid, sequence);
      text := Pack(rb, last, nid, sequence).value;
    }
  }
}
