# TUID generators and ISAAC-64, modelled in Dafny

A TUID is a UUID-shaped identifier (it carries the version-4 and variant
markers). The 64-bit time in microseconds since the epoch fills the leading
groups around the version nibble 4 and the variant bits 10: time bits
63..16 come first, then the nibble, then time bits 15..4, then the variant
bits, then time bits 3..0. Then come a sequence number, for ids made in the
same microsecond or while the clock lags behind the last time handed out
(8 bits in the PostgreSQL extension and the Ruby port, 13 bits split over
two groups in `tuid.c`), a node id, and random bits. This project models
three generators of the repository and the ISAAC-64 random number generator
that ships beside them.

- **PostgreSQL extension** (`pg_c/tuid.c`, module `PgTuid`):
  - the microsecond clock arithmetic (`clock_gettime` and `gettimeofday`
    variants);
  - the `(last, seq)` struct in shared memory, updated inside one critical
    section (class `SharedState`);
  - the node id taken from the `tuid.node_id` setting and masked to a byte;
  - the packing of time, sequence, node id and two random words into the
    groups a..f, and their `snprintf` into a 40-byte buffer;
  - `tuid_generate`, which fails when the shared state was never set up.
  - beside it, `GenerateCorrected`, the generator as evidently intended
    (see Findings).
- **Stand-alone C generator** (`tuid.c`, module `LegacyTuid`): the globals
  `__last`, `__seq` and `__node_id` (class `Globals`), the node id setter and
  getter, and its own packing, which spreads the sequence over d and e.
- **Shared clock/sequence rule** (module `ClockSequence`): both C generators
  run the same branches on a 64-bit `last` and an unsigned `seq`.
- **Ruby port** (`ruby/tuid.rb`, module `RubyTuid`): a `TUID` object (class
  `Tuid`) with its own rule, which rolls the sequence over at 0xff, and
  `TUID.pack`, which lays sixteen bytes out and prints them with `%02x`.
  Ruby integers are unbounded; only `pack('Q>')` limits widths. It keeps
  the low 64 bits of its argument, so the model takes the time and the
  packed word modulo 2^64. Its runs of calls (`RubyTuid.Run`) are written
  out separately from the C ones (`ClockSequence.Run`): the state is an
  unbounded pair rather than 64- and 32-bit fields, and the step differs.
- **ISAAC-64** (`pg_c/isaac.c`, `pg_c/isaac.h`): module `Isaac64Spec` gives
  the value-level specification. It covers one call of `isaac64` as 256
  `rngstep`s, the `mix` macro, the two fill passes of `isaac64_randinit` and
  the `isaac64_rand` cursor. Module `Isaac64` runs the same code in place on
  arrays (class `Generator`), and each of its methods is proved equal to
  those functions.
- **Shared helpers**: the text layout of the groups (module `UuidText`), C's
  and Ruby's `%0Nx` hexadecimal formatting with its parse-back (module `Hex`),
  and unsigned 64-bit arithmetic and bit patterns (module `Uint`).

C integer widths are explicit in the model:
- `uint64` arithmetic wraps modulo 2^64, and so does `unsigned long`
  (`__last`, tuid.c:23), which is taken to be 64 bits wide as on LP64
  targets;
- an assignment to `unsigned int` keeps the low 32 bits;
- the bit-level packings work on `bv64`, `bv32` and `bv16`.

The clock readings and the random words are parameters of the operations.

## Model

| member | source | states |
|---|---|---|
| Hex.Printf | pg_c/tuid.c:207 | `%0Nx` prints exactly N lower-case hex digits when the value fits in N digits. Otherwise it prints all the value's digits and is never cut. The text always reads back as the value. |
| Hex.ValueOfDigits | pg_c/tuid.c:207 | Reading back the N digits written for v gives v modulo 16^N. |
| UuidText.Format | pg_c/tuid.c:204-209 | The text `%08x-%04x-%04x-%04x-%04x%08x` of a..f, cut to the 39 characters a 40-byte buffer holds with its terminator. |
| UuidText.PrintedFits | pg_c/tuid.c:204-209 | When b..e are below 0x10000, every group prints at its own width and the 40-byte buffer cuts nothing. |
| UuidText.FormatShape | pg_c/tuid.c:204-209 | Such groups give 36 characters with hyphens at 8, 13, 18 and 23. Every group is hex digits that read back as a..f. |
| UuidText.MarkedText | pg_c/tuid.c:191-192 | A c carrying nibble 4 and a d carrying bits 10 print as a third group in 0x4000..0x4fff and a fourth in 0x8000..0xbfff. |
| UuidText.Hyphenated | tuid.c:97-102 | Groups b..e below 0x10000 give the 36-character hyphenated text. |
| ClockSequence.Next | pg_c/tuid.c:165-176 | The update: a reading past `last` becomes the time with sequence 0. Otherwise the sequence is bumped, unless it is already above TUID_MAX_SEQ; then `last` moves on one microsecond (wrapping at 2^64) and the sequence restarts at 0. |
| ClockSequence.NextSeqBound | pg_c/tuid.c:165-176 | The sequence stays within 0..256. It reaches 256 exactly when the clock has not passed `last` and the sequence was 255. |
| ClockSequence.NextAdvances | pg_c/tuid.c:165-176 | While `last` is below 2^64-1, every update emits a pair strictly after the stored one and not earlier than the reading, and `last` never decreases. |
| ClockSequence.RunAfter | pg_c/tuid.c:165-176 | When the stored time and every reading stay below 2^64-1 by more than the run's length (so `++last` at line 168 cannot wrap), every pair of a run of updates comes after the starting state. |
| ClockSequence.RunStrictlyIncreasing | pg_c/tuid.c:165-176 | When the stored time plus the run's length and every reading plus the run's length stay below 2^64-1 (so `++last` at line 168 cannot wrap), the emitted pairs strictly increase (time, then sequence) even across backward clock jumps, so no two are equal. |
| ClockSequence.StalledClockCounts | pg_c/tuid.c:169-171 | k readings that do not pass `last` count the sequence from 0 up to k (k <= 256). |
| ClockSequence.NextCapped | pg_c/tuid.c:166 | The intended rule keeps every emitted sequence within 0..0xff and still moves strictly forward. |
| PgTuid.TimespecMicros | pg_c/tuid.c:131-138 | `sec * 1000000 + nsec / 1000` on uint64, wrapping modulo 2^64. |
| PgTuid.TimevalMicros | pg_c/tuid.c:142-149 | `sec * 1000000 + usec` on uint64, wrapping modulo 2^64. |
| PgTuid.TimespecMicrosExact | pg_c/tuid.c:131-138 | For nanoseconds below a second and seconds whose microsecond count fits uint64, the result splits back into the seconds and nsec/1000. |
| PgTuid.TimevalMicrosExact | pg_c/tuid.c:142-149 | The same for microseconds below a second. |
| PgTuid.NodeId | pg_c/tuid.c:158 | The node id used is the setting's low byte and never exceeds 0xff. |
| PgTuid.Pack | pg_c/tuid.c:189-194 | Groups a..f as the extension computes them: time bits 63..32, 31..16, nibble 4 over bits 15..4, bits 10 over bits 3..0 with the sequence shifted by two and node id bits 7..6, node id bits 5..0 shifted by two ORed with `rand1 & 0x3ff`, and rand2. Each group is truncated to 32 bits as `unsigned int`. |
| PgTuid.PackMarkers | pg_c/tuid.c:189-194 | For every sequence up to 256, c carries version nibble 4, d carries variant bits 10, and b..e fit in 16 bits. |
| PgTuid.PackDecodes | pg_c/tuid.c:189-194 | For sequences up to 255, the time, the sequence and the node id's top two bits read back from the groups, and f is rand2. |
| PgTuid.PackedTextShape | pg_c/tuid.c:189-209 | Every emittable pair prints as a 36-character UUID whose version and variant markers stand at their positions. |
| PgTuid.TextShape | pg_c/tuid.c:204-209 | Every pair the state can hold gives 36 characters with hyphens at 8, 13, 18 and 23. |
| PgTuid.GroupsDecode | pg_c/tuid.c:189-194 | For a stored pair with sequence up to 0xFF, the groups give back the time's bit pattern and the sequence. |
| PgTuid.GroupsApart | pg_c/tuid.c:189-194 | Two different pairs with sequences up to 0xFF are packed to different groups, whatever the random words. |
| PgTuid.SharedState.constructor | pg_c/tuid.c:115-118 | A freshly allocated state holds last 0 and seq 0. |
| PgTuid.SharedState.Advance | pg_c/tuid.c:164-177 | The critical section leaves the state at the next pair of the clock/sequence rule, returns that pair, and keeps seq <= 256. |
| PgTuid.Generate | pg_c/tuid.c:153-211 | A NULL state gives an error. Otherwise the state advances by the rule and the result is the text packed from the new pair and the masked node id, always 36 characters. |
| PgTuid.SeqOverflowPacksAsNextTime | pg_c/tuid.c:192 | Sequence 256 packs exactly like sequence 0 at the time with bit 0 set. |
| PgTuid.SeqOverflowCollides | pg_c/tuid.c:165-194 | A stalled clock leads from (L, 0) to (L, 256) and then to (L+1, 0). For even L the groups of (L, 256) equal those of (L+1, 0); for odd L they equal those of (L, 0). |
| PgTuid.CappedStampsPackApart | pg_c/tuid.c:166-172 | Under the intended cap, a pair and the next one are always packed apart. |
| PgTuid.NodeIdHiddenByRandom | pg_c/tuid.c:193 | When rand1 has bits 7..2 set, node ids with the same top two bits give identical groups. |
| PgTuid.PackCorrected | pg_c/tuid.c:180-194 | The layout the comment draws: the groups of `Pack` with e replaced by the node id's low six bits in bits 15..10 over rand1's ten low bits. |
| PgTuid.CorrectedPackDecodes | pg_c/tuid.c:180-193 | In the layout the comment draws, e = (nnnn)(nnrr), the time, the sequence and the whole node id read back, whatever the random words, and the markers stay. |
| PgTuid.SharedState.AdvanceCapped | pg_c/tuid.c:164-177 | The critical section with the intended cap leaves the state at the capped rule's next pair, returns it, and keeps seq <= 0xFF. |
| PgTuid.CorrectedGroupsDecode | pg_c/tuid.c:180-209 | With the cap and the corrected layout, every pair prints as 36 characters, and its time, sequence and node id read back from the groups. |
| PgTuid.CorrectedGroupsApart | pg_c/tuid.c:180-194 | In the corrected generator, different pairs or different node ids always give different groups, whatever the random words. |
| PgTuid.GenerateCorrected | pg_c/tuid.c:153-211 | The intended `tuid_generate`: a NULL state gives an error. Otherwise the state advances by the capped rule and the result is the 36-character text of the corrected groups. |
| LegacyTuid.Pack | tuid.c:90-95 | Groups a..f as tuid.c computes them: the time as in the extension, d with sequence bits 12..6, e with sequence bits 5..0 in bits 15..10, the node id shifted by two and rand1 bits 17..16. |
| LegacyTuid.PackMarkers | tuid.c:90-95 | For node ids below 0x4000, c carries nibble 4, d carries bits 10, and b..e fit in 16 bits. |
| LegacyTuid.PackDecodes | tuid.c:90-95 | For a sequence below 2^13 and a node id up to 0xff, the time, the sequence (split over d and e), the node id and rand1's two bits read back. |
| LegacyTuid.TextShape | tuid.c:97-102 | With a node id below 0x4000, every pair gives 36 characters with the four hyphens. |
| LegacyTuid.GroupsDecode | tuid.c:90-95 | Every pair the globals can emit (sequence 0..256) decodes. |
| LegacyTuid.GroupsApart | tuid.c:90-95 | With a one-byte node id, any two different emittable pairs are packed apart, including sequence 256. |
| LegacyTuid.Globals.constructor | tuid.c:23-25 | `__last`, `__seq` and `__node_id` start at zero. |
| LegacyTuid.Globals.SetNodeId | tuid.c:44-48 | Any 16-bit argument is stored unchecked and returned; last and seq are unchanged. |
| LegacyTuid.Globals.GetNodeId | tuid.c:50-53 | Returns the stored node id. |
| LegacyTuid.Globals.SetNodeIdChecked | tuid.c:44-48 | The intended setter: a node id up to 0xff is stored and returned. A larger one is refused and the node id is unchanged. |
| LegacyTuid.Globals.Advance | tuid.c:66-81 | The globals move to the next pair of the clock/sequence rule, and that pair is returned. |
| LegacyTuid.Globals.Generate | tuid.c:56-104 | The globals advance by the rule. The text is the packing of the new pair with the node id read at the start, and it has 36 characters while the node id is below 0x4000. |
| LegacyTuid.WideNodeIdCollides | tuid.c:94 | Node id 256 at sequence 0 and node id 0 at sequence 1 give the same groups. |
| LegacyTuid.WideNodeIdLengthensText | tuid.c:94-102 | A node id from 0x4000 up makes `%04x` print five digits, so the text has 37 characters. |
| RubyTuid.Next | ruby/tuid.rb:22-31 | After every call the sequence fits a byte. |
| RubyTuid.NextAdvances | ruby/tuid.rb:22-31 | Every call moves the pair strictly forward, to no less than the reading or the stored time, with no upper bound needed. |
| RubyTuid.AgreesWithCapped | ruby/tuid.rb:22-31 | On states the C generators can share, this rule is the capped C rule. |
| RubyTuid.RunAfter | ruby/tuid.rb:18-34 | Every pair of a run of calls comes after the starting pair. |
| RubyTuid.RunStrictlyIncreasing | ruby/tuid.rb:18-34 | Across any readings the emitted pairs strictly increase. |
| RubyTuid.Hex2 | ruby/tuid.rb:42 | `%02x` gives two hex digits that read back as the byte. |
| RubyTuid.HexBytes | ruby/tuid.rb:42 | n bytes give 2n hex digits. |
| RubyTuid.BigEndian | ruby/tuid.rb:37 | `[x].pack('Q>').bytes` of a 64-bit word: its eight bytes, most significant first (PackDecodes and Rejoin read the time back from them). |
| RubyTuid.Word | ruby/tuid.rb:40 | The packed word `0x4000800000 \| tb[6] << 28 \| (tb[7] & 0xf0) << 20 \| (tb[7] & 0xf) << 18 \| seq << 10 \| nid << 2 \| rb[0] & 3`, keeping its low 64 bits as `pack('Q>')` does. |
| RubyTuid.PackBytes | ruby/tuid.rb:36-41 | The sixteen bytes `pack` prints: tb[0..5], bytes 3..7 of the packed word, rb[1..5], with the time, sequence and node id taken modulo 2^64. Fewer than six random bytes are an error. |
| RubyTuid.Packed | ruby/tuid.rb:37-41 | For a time, node id and sequence below 2^64 and six random bytes: sixteen bytes, the last five rb[1..5]. |
| RubyTuid.Text | ruby/tuid.rb:42 | The `format` call: the sixteen bytes as `%02x` pairs in groups of 4, 2, 2, 2 and 6 bytes with hyphens between (TextShape, TextParts and TextInjective state its shape and that it determines the bytes). |
| RubyTuid.Pack | ruby/tuid.rb:36-43 | `TUID.pack`: those bytes printed in the 8-4-4-4-12 `%02x` layout, or the missing-byte error. |
| RubyTuid.WordBytes | ruby/tuid.rb:40 | In the packed word's low five bytes: the markers 4 and 10, tb[6] and the nibbles of tb[7] where `pack` puts them, and the sequence, node id and rb[0]'s two bits recoverable. |
| RubyTuid.PackParts | ruby/tuid.rb:37-41 | For a time below 2^64, the packed bytes are tb[0..5], then bytes 3..7 of the packed word, then rb[1..5]. |
| RubyTuid.PackLayout | ruby/tuid.rb:36-41 | For any time, a sequence and node id that fit a byte and six random bytes, `pack` succeeds with sixteen bytes: the top 48 bits of the time modulo 2^64 big-endian, rb[1..5] verbatim, version nibble 4 at the top of byte 6, variant bits 10 at the top of byte 8, and tb[6] and tb[7] split between them. |
| RubyTuid.PackDecodes | ruby/tuid.rb:36-41 | Round trip: the time modulo 2^64, the sequence, the node id and rb[0]'s two bits read back from the bytes. |
| RubyTuid.Rejoin | ruby/tuid.rb:37-40 | The time reads back from the nine bytes it is spread over. |
| RubyTuid.PackInjective | ruby/tuid.rb:36-41 | Equal bytes come from equal node id and sequence and from times equal modulo 2^64. |
| RubyTuid.PackWraps | ruby/tuid.rb:37 | Times 2^64 apart pack to the same bytes, since `pack('Q>')` keeps the low 64 bits. |
| RubyTuid.HexBytesInjective | ruby/tuid.rb:42 | Byte strings of one length print alike only if they are equal. |
| RubyTuid.TextShape | ruby/tuid.rb:42 | The text has 36 characters, hyphens at 8, 13, 18 and 23, and hex digits in every group. |
| RubyTuid.TextParts | ruby/tuid.rb:42 | Each group of the text is the `%02x` printing of its bytes. |
| RubyTuid.TextInjective | ruby/tuid.rb:42 | Different byte arrays print differently. |
| RubyTuid.PackFails | ruby/tuid.rb:36-42 | `pack` fails exactly when fewer than six random bytes are given. Whatever the time, sequence and node id, it otherwise gives 36 characters. |
| RubyTuid.Tuid.constructor | ruby/tuid.rb:11-16 | `@nid` is `nid & 0xff` (n mod 256, negatives included), and `@last` and `@seq` are 0. |
| RubyTuid.Tuid.Advance | ruby/tuid.rb:22-31 | `@last` and `@seq` move to the next pair of the Ruby rule, and `@nid` is unchanged. |
| RubyTuid.Tuid.Call | ruby/tuid.rb:18-34 | The state advances and the result is the text `pack` gives for the new pair, always 36 characters. |
| Isaac64Spec.BlockSize | pg_c/isaac.h:12-13 | RANDSIZ is 2^RANDSIZL = 256, and half a block is 128. |
| Isaac64Spec.Ind | pg_c/isaac.c:14 | `ind` always selects an index below 256. |
| Isaac64Spec.IndOffset | pg_c/isaac.c:14 | The byte offset `ind` adds is eight times that index: bits 10..3 of x. |
| Isaac64Spec.ShiftPowers | pg_c/isaac.c:30-33 | The shift amounts of the mixing expressions and of `mix` are the powers of two the model multiplies and divides by. |
| Isaac64Spec.Partner | pg_c/isaac.c:29-40 | `m2` is in the other half of the pool from `m`. |
| Isaac64Spec.Mix | pg_c/isaac.c:30-33 | The mixing expression of the k-th `rngstep` of a group of four: `~(a^(a<<21))`, `a^(a>>5)`, `a^(a<<12)`, `a^(a>>33)`, on uint64. |
| Isaac64Spec.Rng | pg_c/isaac.c:15-21 | `rngstep`: `a` becomes the mixed value plus `*m2`, the slot's word becomes `y = ind(mm,x) + a + b`, and `b = ind(mm, y >> 8) + x`, read after that write, goes to the result slot. |
| Isaac64Spec.Start | pg_c/isaac.c:27-28 | A call starts from the saved `aa` and from `bb + (cc + 1)`. |
| Isaac64Spec.Generate | pg_c/isaac.c:23-43 | `isaac64()`: 256 steps from that start, then the final `a` and `b` saved and `cc` counted, with the cursor untouched. |
| Isaac64Spec.Step | pg_c/isaac.c:15-21 | The i-th `rngstep` of a call: `m` and `r` at slot i, `m2` at the slot of the other half, and the mixing expression i's place in its group of four selects; both blocks keep 256 words. |
| Isaac64Spec.Steps | pg_c/isaac.c:29-40 | The first n `rngstep`s of the two loops in order; both blocks keep 256 words (StepsFrame, StepsKeep and WrittenOnce state which slots they write). |
| Isaac64Spec.StepsFour | pg_c/isaac.c:29-34 | One loop iteration is four consecutive `rngstep`s. |
| Isaac64Spec.GenerateCounters | pg_c/isaac.c:23-43 | A call adds exactly one to `cc` (wrapping), starts from `a = aa` and `b = bb + cc`, and saves the final `a` and `b` into `aa` and `bb`. |
| Isaac64Spec.GenerateCursor | pg_c/isaac.c:23-43 | The cursor plays no part in a call and comes out unchanged. |
| Isaac64Spec.Calls | pg_c/isaac.c:23-43 | k calls of `isaac64()` in a row, each keeping both blocks at 256 words. |
| Isaac64Spec.CallsCount | pg_c/isaac.c:28 | After k calls `cc` has moved on by k modulo 2^64 and the cursor is unchanged, by induction over the calls. |
| Isaac64Spec.StepWrites | pg_c/isaac.c:15-21 | An `rngstep` writes its own slot of `mm` and of `randrsl` and no other. |
| Isaac64Spec.StepsFrame | pg_c/isaac.c:29-40 | The first n steps leave slots n and above untouched. |
| Isaac64Spec.StepsKeep | pg_c/isaac.c:29-40 | Once step i has written slot i, no later step rewrites it. |
| Isaac64Spec.WrittenOnce | pg_c/isaac.c:29-40 | Every slot of `mm` and `randrsl` is written exactly once per call, by its own step, which found the slot's old word. |
| Isaac64Spec.PartnerWord | pg_c/isaac.c:29-40 | A first-half step reads the second half's old word. A second-half step reads the word its first-half partner has just written. |
| Isaac64Spec.Draw | pg_c/isaac.h:32-34 | After a draw the cursor is below 256. |
| Isaac64Spec.Draws | pg_c/isaac.h:32-34 | n draws give n values and keep the cursor within 0..256. |
| Isaac64Spec.DrawsFromBlock | pg_c/isaac.h:32-34 | While words are left, draws return them from the cursor downwards and change only the cursor: no regeneration. |
| Isaac64Spec.DrawsCycle | pg_c/isaac.h:32-34 | From an exhausted block, 256 draws regenerate exactly once, return the new block from word 255 down to 0, and leave it exhausted. |
| Isaac64Spec.MixAsWritten | pg_c/isaac.c:45-55 | The `mix` used by the model equals the macro's eight lines as written. |
| Isaac64Spec.MixOctet | pg_c/isaac.c:45-55 | The `mix` seeding uses: eight rotated lines of one pattern (MixAsWritten proves it equal to the macro's lines as written). |
| Isaac64Spec.MixMacro | pg_c/isaac.c:45-55 | The `mix` macro line by line: eight lines each subtracting, xoring a shifted word and adding, on uint64. |
| Isaac64Spec.Absorb | pg_c/isaac.c:68-87 | One fill loop of `isaac64_randinit`: each group of eight source words is added into a..h and mixed, and the result stored as that group of `mm`. |
| Isaac64Spec.Pool | pg_c/isaac.c:68-108 | The pool after both fill passes, the second over the words the first stored. |
| Isaac64Spec.Put | pg_c/isaac.c:79-86 | Storing a..h replaces slots i..i+7 and no others. |
| Isaac64Spec.FillingNext | pg_c/isaac.c:68-87 | One more iteration of a fill loop stores the newly mixed eight words over the next group of the pool. |
| Isaac64Spec.FillingDone | pg_c/isaac.c:68-108 | After 32 iterations the pool is exactly the absorbed words. |
| Isaac64Spec.AbsorbGroups | pg_c/isaac.c:68-108 | Word t of group j of a filled pool is word t of a..h right after group j was mixed in. |
| Isaac64Spec.AbsorbPrefix | pg_c/isaac.c:68-87 | The first k groups depend only on the first 8k source words. |
| Isaac64Spec.PoolFrom | pg_c/isaac.c:68-108 | The pool is the second pass applied to what the first pass left. |
| Isaac64Spec.Seeded | pg_c/isaac.c:57-112 | `isaac64_randinit()`: counters cleared, a..h the golden ratio mixed four times, the two fill passes, one call of `isaac64()` and the cursor set to 256. |
| Isaac64Spec.SeededBy | pg_c/isaac.c:57-112 | `isaac64_randinit()` for a given `mix` and fill step: counters cleared, the golden ratio scrambled four times, both fill passes, one call of `isaac64()`, the cursor at 256, and both blocks at 256 words. |
| Isaac64Spec.SeededReady | pg_c/isaac.c:57-112 | After seeding, the cursor is 256 and `cc` is 1. The next 256 draws return the block from its top word down without regenerating. |
| Isaac64.ScrambleLoop | pg_c/isaac.c:61-66 | The loop applies `mix` four times to the golden-ratio words. |
| Isaac64.Generator.constructor | pg_c/isaac.c:10-12 | Pool, result block, counters and cursor start at zero. |
| Isaac64.Generator.RngStep | pg_c/isaac.c:15-21 | The in-place macro leaves the arrays and the new `a` and `b` equal to one specification step. |
| Isaac64.Generator.RngGroup | pg_c/isaac.c:30-33 | The four `rngstep`s, with `~(a^(a<<21))`, `a^(a>>5)`, `a^(a<<12)` and `a^(a>>33)` in that order, are steps m..m+3. |
| Isaac64.Generator.Pass | pg_c/isaac.c:29-40 | Either loop of `isaac64` performs the 128 steps of its half. |
| Isaac64.Generator.Passes | pg_c/isaac.c:29-40 | The two loops perform all 256 steps. |
| Isaac64.Generator.Isaac64 | pg_c/isaac.c:23-43 | `isaac64()` leaves the state equal to the specification's `Generate` of the old state. |
| Isaac64.Generator.Rand | pg_c/isaac.h:32-34 | The macro returns the value and leaves the state that `Draw` specifies. |
| Isaac64.Generator.Store | pg_c/isaac.c:79-86 | The eight stores leave `mm` as `Put` says. |
| Isaac64.Generator.FillGroup | pg_c/isaac.c:70-86 | One fill iteration, reading its group from the seed or from the pool, advances the fill by one group. |
| Isaac64.Generator.FillFromSeed | pg_c/isaac.c:68-87 | The first fill loop absorbs the seed in `randrsl` into `mm`. |
| Isaac64.Generator.FillFromPool | pg_c/isaac.c:89-108 | The second loop absorbs the pool the first left, reading each group just before overwriting it. |
| Isaac64.Generator.FillPool | pg_c/isaac.c:61-108 | The scramble and both fill loops leave `mm` as the specified pool of the seed. |
| Isaac64.Generator.SeedWith | pg_c/isaac.c:57-112 | Clearing the counters, filling, generating once and setting the cursor to 256 give `SeededBy` of the seed. |
| Isaac64.Generator.RandInit | pg_c/isaac.c:57-112 | With the seed in `randrsl`, `isaac64_randinit()` leaves the state `Seeded(seed)`. |

## Left out

- PostgreSQL plumbing is not modelled. This covers `_PG_init` and `_PG_fini`, the GUC registration, shared-memory allocation, the `LWLock`, `elog` and the final `uuid_in` call. The critical section is one atomic method; a NULL state is an error result.
- Reading the clock (`clock_gettime`, `gettimeofday`, the Ruby clock lambda) and the random sources (`arc4random`, `SecureRandom`) are not modelled. Their values are parameters of the operations.
- The time computation of tuid.c:58-60 on signed `long` is not modelled: that generator takes the microsecond reading as a parameter.
- The missing lock in tuid.c (its own comments say one is needed) is not modelled. Each call is sequential.
- The Ruby class-level `TUID.call` singleton (ruby/tuid.rb:45-50) is not modelled. It only creates one object with node id 255 and calls it.
- The JavaScript and C# ports, the C test drivers and `standard.h` are not part of this model.
- The sequence is not limited to 0..255, although pg_c/tuid.c:192 gives it "seq bits 7..0", pg_c/tuid.c:199 counts "8 bits of seq" and tuid.c:31 speaks of 256 per microsecond. The C code lets it reach 256, and the model follows the code (see Findings).
- RubyTuid.Pack: the model's time, sequence and node id are naturals and its random bytes are `bv8`. A negative integer passed straight to `TUID.pack` (its two's complement low 64 bits) and a random element above 255 (which `%02x` prints with more than two digits) are not modelled; `call` passes neither, since `SecureRandom.random_bytes(6).bytes` gives bytes.
- ISAAC-64 has no "not yet seeded" check in the C code. The model has none either, and drawing before seeding works on the zeroed arrays.
- The ISAAC pointers `m`, `m2` and `r` are modelled as array indices.
- `mix` is modelled as eight rotated lines of one pattern, and MixAsWritten proves them equal to the macro as written. The fill loops are proved for any mix and step function, then instantiated with the macro.
- Isaac64Spec.Draw: requires the cursor to be at most 256. With a larger cursor the C macro reads past `isaac64_randrsl`, which the model does not describe.
- Isaac64.Generator.Rand: requires the cursor to be at most 256, for the same reason.

## Findings

| source | as written | input that shows it | evidently intended | confidence | as-written member | corrected member |
|---|---|---|---|---|---|---|
| pg_c/tuid.c:166-192 | The roll-over test `seq > TUID_MAX_SEQ` lets the sequence reach 256. `seq<<2` then sets bit 10 of d, which holds time bit 0. | Stored (L, 255) with L even, and the clock not passing L: the calls emit (L, 256) and then (L+1, 0), which pack to the same groups. | Roll over once the sequence reaches 0xFF, as the Ruby port does, so every sequence fits its 8-bit field. | not executed; follows from the bit layout | PgTuid.SeqOverflowCollides | ClockSequence.NextCapped, PgTuid.GenerateCorrected, PgTuid.CorrectedGroupsApart |
| pg_c/tuid.c:193 | `rand1&0x3ff` is ORed over bits 7..2 of e, where the node id's low six bits were placed. | rand1 = 0xfc with node ids 0x00 and 0x3f gives identical groups. | e = (nnnn)(nnrr) followed by random bits, as the comment at lines 180-181 draws it: node bits in 15..10. | not executed; follows from the bit layout | PgTuid.NodeIdHiddenByRandom | PgTuid.PackCorrected, PgTuid.CorrectedPackDecodes, PgTuid.GenerateCorrected |
| tuid.c:44-48 | `tuid_set_node_id` stores any 16-bit value, while line 94 has room for only 8 node bits. | Node id 256 at sequence 0 packs like node id 0 at sequence 1. Node id 0x4000 makes the text 37 characters. | Refuse node ids above 0xff, as the extension's setting does (minimum 0, maximum 255). | not executed; follows from the bit layout | LegacyTuid.WideNodeIdCollides, LegacyTuid.WideNodeIdLengthensText | LegacyTuid.Globals.SetNodeIdChecked, LegacyTuid.GroupsApart |
