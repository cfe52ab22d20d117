/**
  The first, stand-alone generator (tuid.c): the globals `__last`, `__seq` and
  `__node_id`, the node id setter and getter, and a packing that spreads the
  sequence over d and e and places a sixteen-bit node id in e.
 */
module LegacyTuid {
  import opened Uint
  import opened Wrappers
  import opened ClockSequence
  import opened UuidText

  /**
    The groups as tuid.c computes them: d holds sequence bits 12..6 in its
    bits 6..0, e holds sequence bits 5..0 in bits 15..10, the node id shifted
    up by two, and bits 17..16 of rand1 in bits 1..0.
   */
  function Pack(last: bv64, sq: bv64, nodeId: bv16, rand1: bv32, rand2: bv32): Fields {
    Fields(
      Low32(last >> 32),
      Low32((last >> 16) & 0xffff),
      Low32(0x4000 | ((last >> 4) & 0x0fff)),
      Low32(0x8000 | ((last & 0xf) << 10) | ((sq >> 6) & 0x7f)),
      Low32((((sq << 10) & 0xffff_ffff) & 0xfc00) | (nodeId as bv64 << 2) | ((rand1 as bv64 >> 16) & 3)),
      rand2)
  }

  /** The sequence as spread over d (bits 12..6) and e (bits 5..0). */
  function SeqOf(g: Fields): bv64 {
    ((g.d & 0x7f) as bv64 << 6) | ((g.e >> 10) & 0x3f) as bv64
  }

  /** The node id field, bits 9..2 of e. */
  function NodeOf(g: Fields): bv16 {
    ((g.e >> 2) & 0xff) as bv16
  }

  /**
    For every sequence and every node id below 0x4000, c carries the version
    nibble 4, d the variant bits 10, and b..e fit in sixteen bits.
   */
  lemma PackMarkers(last: bv64, sq: bv64, nodeId: bv16, rand1: bv32, rand2: bv32)
    requires nodeId < 0x4000
    ensures var g := Pack(last, sq, nodeId, rand1, rand2);
      && g.c >> 12 == 0x4 && g.d >> 14 == 0x2
      && g.b <= 0xffff && g.c <= 0xffff && g.d <= 0xffff && g.e <= 0xffff
  {
  }

  /**
    For a sequence below 2^13 and a node id that fits a byte, the time, the
    sequence, the node id and rand1's two bits read back from the groups:
    e's bits 9..2 are the node id and its bits 15..10 the sequence's low
    six bits.
   */
  lemma PackDecodes(last: bv64, sq: bv64, nodeId: bv16, rand1: bv32, rand2: bv32)
    requires sq < 0x2000 && nodeId <= 0xff
    ensures var g := Pack(last, sq, nodeId, rand1, rand2);
      && TimeOf(g) == last && SeqOf(g) == sq && NodeOf(g) == nodeId
      && (g.e >> 10) as bv64 == sq & 0x3f && g.e & 3 == (rand1 >> 16) & 3 && g.f == rand2
  {
    TimeDecodes(last, sq, nodeId, rand1, rand2);
    FieldsDecode(last, sq, nodeId, rand1, rand2);
  }

  lemma TimeDecodes(last: bv64, sq: bv64, nodeId: bv16, rand1: bv32, rand2: bv32)
    ensures TimeOf(Pack(last, sq, nodeId, rand1, rand2)) == last
  {
  }

  lemma FieldsDecode(last: bv64, sq: bv64, nodeId: bv16, rand1: bv32, rand2: bv32)
    requires sq < 0x2000 && nodeId <= 0xff
    ensures var g := Pack(last, sq, nodeId, rand1, rand2);
      && SeqOf(g) == sq && NodeOf(g) == nodeId
      && (g.e >> 10) as bv64 == sq & 0x3f && g.e & 3 == (rand1 >> 16) & 3 && g.f == rand2
  {
  }

  /** The groups packed for an emitted pair. */
  function Groups(emitted: Stamp, nodeId: bv16, rand1: bv32, rand2: bv32): Fields {
    Pack(Bits64(emitted.last), Bits64(emitted.sequence), nodeId, rand1, rand2)
  }

  /** The text emitted for a pair. */
  function Text(emitted: Stamp, nodeId: bv16, rand1: bv32, rand2: bv32): string {
    Format(Groups(emitted, nodeId, rand1, rand2))
  }

  /** With a node id below 0x4000 every pair gives the 36-character shape. */
  lemma TextShape(emitted: Stamp, nodeId: bv16, rand1: bv32, rand2: bv32)
    requires nodeId < 0x4000
    ensures var s := Text(emitted, nodeId, rand1, rand2);
      && |s| == 36 && s[8] == '-' && s[13] == '-' && s[18] == '-' && s[23] == '-'
  {
    PackMarkers(Bits64(emitted.last), Bits64(emitted.sequence), nodeId, rand1, rand2);
    Hyphenated(Groups(emitted, nodeId, rand1, rand2));
  }

  /**
    Every pair the globals can emit (sequence 0..256) decodes, together with
    a one-byte node id.
   */
  lemma GroupsDecode(emitted: Stamp, nodeId: bv16, rand1: bv32, rand2: bv32)
    requires emitted.sequence <= MAX_SEQ + 1 && nodeId <= 0xff
    ensures var g := Groups(emitted, nodeId, rand1, rand2);
      && TimeOf(g) == Bits64(emitted.last) && SeqOf(g) == Bits64(emitted.sequence) && NodeOf(g) == nodeId
  {
    BitsSmall(emitted.sequence);
    PackDecodes(Bits64(emitted.last), Bits64(emitted.sequence), nodeId, rand1, rand2);
  }

  /** Unlike the extension's layout, this one packs any two different emittable pairs apart. */
  lemma GroupsApart(x: Stamp, y: Stamp, nodeId: bv16, rx1: bv32, rx2: bv32, ry1: bv32, ry2: bv32)
    requires x != y && x.sequence <= MAX_SEQ + 1 && y.sequence <= MAX_SEQ + 1 && nodeId <= 0xff
    ensures Groups(x, nodeId, rx1, rx2) != Groups(y, nodeId, ry1, ry2)
  {
    GroupsDecode(x, nodeId, rx1, rx2);
    GroupsDecode(y, nodeId, ry1, ry2);
    if x.last == y.last {
      if Bits64(x.sequence) == Bits64(y.sequence) {
        Bits64Injective(x.sequence, y.sequence);
      }
    } else if Bits64(x.last) == Bits64(y.last) {
      Bits64Injective(x.last, y.last);
    }
  }

  /** The globals `__last`, `__seq` and `__node_id` (without the lock they lack). */
  class Globals {
    var last: U64
    var sequence: U32
    var nodeId: bv16

    ghost predicate Valid()
      reads this
    {
      sequence <= MAX_SEQ + 1
    }

    function Current(): Stamp
      reads this
    {
      Stamp(last, sequence)
    }

    /** The static initialisers: all three start at zero. */
    constructor ()
      ensures Valid() && Current() == Initial && nodeId == 0
    {
      last := 0;
      sequence := 0;
      nodeId := 0;
    }

    /** `tuid_set_node_id`: stores any sixteen-bit argument, unchecked, and returns it. */
    method SetNodeId(id: bv16) returns (r: bv16)
      modifies this
      ensures nodeId == id && r == id
      ensures last == old(last) && sequence == old(sequence)
    {
      nodeId := id;
      r := nodeId;
    }

    /** `tuid_get_node_id` */
    method GetNodeId() returns (r: bv16)
      ensures r == nodeId
    {
      r := nodeId;
    }

    /**
      The setter with the check the layout needs: a node id that does not fit
      the eight-bit field is refused and nothing changes.
     */
    method SetNodeIdChecked(id: bv16) returns (r: Result<bv16, NodeIdError>)
      modifies this
      ensures id <= 0xff ==> r == Success(id) && nodeId == id
      ensures id > 0xff ==> r == Failure(NodeIdOutOfRange(id)) && nodeId == old(nodeId)
      ensures last == old(last) && sequence == old(sequence)
    {
      if id > 0xff {
        return Failure(NodeIdOutOfRange(id));
      }
      nodeId := id;
      r := Success(id);
    }

    /**
      The update of `__last` and `__seq` for the reading `tUs` (the section
      the source marks as needing a lock), returning the pair to emit.
     */
    method Advance(tUs: U64) returns (emitted: Stamp)
      requires Valid()
      modifies this
      ensures Valid() && nodeId == old(nodeId)
      ensures Current() == Next(old(Current()), tUs) && emitted == Current()
    {
      if tUs <= last {
        if sequence > MAX_SEQ {
          sequence := 0;
          last := (last + 1) % TWO_64;
          emitted := Stamp(last, 0);
        } else {
          sequence := sequence + 1;
          emitted := Stamp(last, sequence);
        }
      } else {
        sequence := 0;
        last := tUs;
        emitted := Stamp(tUs, 0);
      }
    }

    /**
      `tuid_generate` for the reading `tUs`: the clock/sequence rule on the
      globals, then the text of the emitted pair with the node id read at the
      start of the call; 36 characters whenever the node id is below 0x4000.
     */
    method Generate(tUs: U64, rand1: bv32, rand2: bv32) returns (text: string)
      requires Valid()
      modifies this
      ensures Valid() && nodeId == old(nodeId)
      ensures Current() == Next(old(Current()), tUs)
      ensures text == Text(Current(), nodeId, rand1, rand2)
      ensures nodeId < 0x4000 ==> |text| == 36
    {
      var node := nodeId;
      var emitted := Advance(tUs);
      if node < 0x4000 {
        TextShape(emitted, node, rand1, rand2);
      }
      text := Text(emitted, node, rand1, rand2);
    }
  }

  datatype NodeIdError = NodeIdOutOfRange(id: bv16)

  // ---------------------------------------------------------------------------
  // Findings

  /**
    As written the node id is not checked: shifted up by two, a node id of
    256 sets bit 10 of e, the bit of sequence 1, so node 256 at sequence 0
    and node 0 at sequence 1 give the same groups.
   */
  lemma WideNodeIdCollides(last: bv64, rand1: bv32, rand2: bv32)
    ensures Pack(last, 0, 256, rand1, rand2) == Pack(last, 1, 0, rand1, rand2)
  {
  }

  /**
    A node id from 0x4000 up no longer fits group e's four digits: `%04x`
    prints five, and the text grows to 37 characters.
   */
  lemma WideNodeIdLengthensText(last: bv64, sq: bv64, nodeId: bv16, rand1: bv32, rand2: bv32)
    requires nodeId >= 0x4000
    ensures |Format(Pack(last, sq, nodeId, rand1, rand2))| == 37
  {
    var g := Pack(last, sq, nodeId, rand1, rand2);
    WideE(last, sq, nodeId, rand1, rand2);
    FiveDigits(g);
  }

  lemma WideE(last: bv64, sq: bv64, nodeId: bv16, rand1: bv32, rand2: bv32)
    requires nodeId >= 0x4000
    ensures var g := Pack(last, sq, nodeId, rand1, rand2);
      && 0x1_0000 <= g.e < 0x10_0000 && g.b <= 0xffff && g.c <= 0xffff && g.d <= 0xffff
  {
  }

  /** Five hexadecimal digits for e, the usual widths elsewhere. */
  lemma FiveDigits(g: Fields)
    requires 0x1_0000 <= g.e < 0x10_0000 && g.b <= 0xffff && g.c <= 0xffff && g.d <= 0xffff
    ensures |Format(g)| == 37
  {
    Hex.Pow16Values();
    Below32(g.a);
    Below32(g.f);
    Below16(g.b);
    Below16(g.c);
    Below16(g.d);
    Below20(g.e);
    Hex.WidthFive(g.e as nat);
  }
}
