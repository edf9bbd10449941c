/** The boot-info partition record of `calc_checksum_boot_info`: 55 one-value
    fields in declaration order, overridden from a configuration, a
    borrow-propagating difference checksum over fields 6..54 into fields 4
    and 5, and the `eb`/`NANDW` script that writes the record to flash. */
module BootInfo {
  import opened Wrappers
  import opened Bytes
  import opened Text
  import opened Commands

  /** The field defaults, in declaration order: magic (0, 1), version number
      (2, 3), checksum seed (4, 5), current and newest kernel/rootfs slot (6..9). */
  const RECORD_HEAD: seq<int> := [0x7c, 0x91, 0x00, 0x00, 0xff, 0xff, 0x0, 0x0, 0x0, 0x0]

  /** The four slot records (10..37): size in 4 bytes, checksum in 2, fail count. */
  const KERNEL0_DEFAULT: seq<int> := [0x00, 0x20, 0xec, 0x04, 0xcb, 0x43, 0x0]
  const KERNEL1_DEFAULT: seq<int> := [0x00, 0x20, 0x74, 0x04, 0xe8, 0x7e, 0x0]
  const ROOTFS0_DEFAULT: seq<int> := [0x00, 0x9a, 0x40, 0x04, 0x74, 0x2c, 0x0]
  const ROOTFS1_DEFAULT: seq<int> := [0x00, 0x75, 0x90, 0x04, 0xa4, 0x0a, 0x0]

  /** root_sum_check, watchdog_time, priv_mode (38..40), the version text
      `1.0.2.005` (41..49) and five reserved zeros (50..54). */
  const RECORD_TAIL: seq<int> := [
    0x0, 0x0, 0x1,
    0x31, 0x2e, 0x30, 0x2e, 0x32, 0x2e, 0x30, 0x30, 0x35,
    0x0, 0x0, 0x0, 0x0, 0x0
  ]

  /** All 55 defaults. */
  const DEFAULT_RECORD: seq<int> :=
    RECORD_HEAD + KERNEL0_DEFAULT + KERNEL1_DEFAULT + ROOTFS0_DEFAULT + ROOTFS1_DEFAULT + RECORD_TAIL

  const FIELD_COUNT: nat := 55

  /** Names of the four slot records, as the configuration keys spell them. */
  const SLOT_NAMES: seq<string> := ["kernel0", "kernel1", "rootfs0", "rootfs1"]

  /** Configuration keys of fields 6..9. */
  const POINTER_KEYS: seq<string> := ["kernel_curr", "rootfs_curr", "kernel_newest", "rootfs_newest"]

  /** RAM address the record is poked to, and the partition offset it is programmed at. */
  const BOOT_INFO_RAM: nat := 0xa0a00000
  const BOOT_INFO_NANDW: string := "NANDW 0xa0000 0xa0a00000 55\n"

  /** Index of the first field of slot record `s`. */
  function SlotBase(s: nat): nat
  {
    10 + 7 * s
  }

  /** The slot record a field index in 10..37 belongs to. */
  function SlotOf(p: nat): (s: nat)
    requires 10 <= p < 38
    ensures s < 4 && SlotBase(s) <= p < SlotBase(s) + 7
  {
    if p < 17 then 0 else if p < 24 then 1 else if p < 31 then 2 else 3
  }

  /** The loaded YAML mapping; only integer values are modelled. */
  type Config = map<string, int>

  /** `conf.get(key, 0x0)`. */
  function Get(conf: Config, key: string): int
  {
    if key in conf then conf[key] else 0
  }

  /** Field `p` after the first `sizeWrites` assignments of the size-byte
      loop, `sumWrites` of the checksum-byte loop and `scalarWrites` of the
      single-value fields, in the order the source makes them: round by
      round and, within a round, slot by slot; then the four fail counts and
      the four slot pointers. */
  function StageValue(conf: Config, p: nat, sizeWrites: nat, sumWrites: nat, scalarWrites: nat): int
    requires p < FIELD_COUNT
  {
    if 10 <= p < 38 then
      var s := SlotOf(p);
      var off := p - SlotBase(s);
      if off < 4 then
        if 4 * off + s < sizeWrites then ByteOf(Get(conf, SLOT_NAMES[s] + "_size"), 3 - off) else DEFAULT_RECORD[p]
      else if off < 6 then
        if 4 * (off - 4) + s < sumWrites then ByteOf(Get(conf, SLOT_NAMES[s] + "_checksum"), 5 - off) else DEFAULT_RECORD[p]
      else if s < scalarWrites then Get(conf, SLOT_NAMES[s] + "_fail") else DEFAULT_RECORD[p]
    else if 6 <= p < 10 then
      if 4 + (p - 6) < scalarWrites then Get(conf, POINTER_KEYS[p - 6]) else DEFAULT_RECORD[p]
    else DEFAULT_RECORD[p]
  }

  /** The 55 field values, in declaration order, after the configuration overrides. */
  function Populated(conf: Config): (r: seq<int>)
    ensures |r| == FIELD_COUNT
  {
    seq(FIELD_COUNT, p requires 0 <= p < FIELD_COUNT => StageValue(conf, p, 16, 8, 8))
  }

  /** Each slot's size is stored most significant byte first and reads back
      as the configured size reduced to 32 bits; its checksum likewise in two
      bytes reduced to 16 bits; its fail count is copied unmasked. Fields
      6..9 hold the configured slot pointers, unmasked. All fields outside
      6..37 keep their defaults. */
  lemma PopulatedLayout(conf: Config, s: nat)
    requires s < 4
    ensures Populated(conf)[SlotBase(s)..SlotBase(s) + 4] == Masked32(Get(conf, SLOT_NAMES[s] + "_size"))
    ensures BeValue(Masked32(Get(conf, SLOT_NAMES[s] + "_size"))) == Get(conf, SLOT_NAMES[s] + "_size") % TWO_POW_32
    ensures Populated(conf)[SlotBase(s) + 4..SlotBase(s) + 6] == Masked16(Get(conf, SLOT_NAMES[s] + "_checksum"))
    ensures BeValue(Masked16(Get(conf, SLOT_NAMES[s] + "_checksum"))) == Get(conf, SLOT_NAMES[s] + "_checksum") % 0x10000
    ensures Populated(conf)[SlotBase(s) + 6] == Get(conf, SLOT_NAMES[s] + "_fail")
    ensures forall p :: 6 <= p < 10 ==> Populated(conf)[p] == Get(conf, POINTER_KEYS[p - 6])
    ensures forall p :: 0 <= p < FIELD_COUNT && (p < 6 || p >= 38) ==> Populated(conf)[p] == DEFAULT_RECORD[p]
  {
    PopulatedSize(conf, s);
    PopulatedChecksum(conf, s);
    PopulatedFail(conf, s);
    forall p | 6 <= p < 10
      ensures Populated(conf)[p] == Get(conf, POINTER_KEYS[p - 6])
    {
      assert Populated(conf)[p] == StageValue(conf, p, 16, 8, 8);
    }
    forall p | 0 <= p < FIELD_COUNT && (p < 6 || p >= 38)
      ensures Populated(conf)[p] == DEFAULT_RECORD[p]
    {
      assert Populated(conf)[p] == StageValue(conf, p, 16, 8, 8);
    }
  }

  /** Field `off` of slot record `s` after all assignments. */
  lemma PopulatedSlotField(conf: Config, s: nat, off: nat)
    requires s < 4 && off < 7
    ensures Populated(conf)[SlotBase(s) + off]
         == if off < 4 then ByteOf(Get(conf, SLOT_NAMES[s] + "_size"), 3 - off)
            else if off < 6 then ByteOf(Get(conf, SLOT_NAMES[s] + "_checksum"), 5 - off)
            else Get(conf, SLOT_NAMES[s] + "_fail")
  {
    assert SlotOf(SlotBase(s) + off) == s;
    assert Populated(conf)[SlotBase(s) + off] == StageValue(conf, SlotBase(s) + off, 16, 8, 8);
  }

  lemma Slice4(r: seq<int>, b: nat)
    requires b + 4 <= |r|
    ensures r[b..b + 4] == [r[b], r[b + 1], r[b + 2], r[b + 3]]
  {
  }

  lemma Slice2(r: seq<int>, b: nat)
    requires b + 2 <= |r|
    ensures r[b..b + 2] == [r[b], r[b + 1]]
  {
  }

  lemma PopulatedSize(conf: Config, s: nat)
    requires s < 4
    ensures Populated(conf)[SlotBase(s)..SlotBase(s) + 4] == Masked32(Get(conf, SLOT_NAMES[s] + "_size"))
  {
    var r, b := Populated(conf), SlotBase(s);
    PopulatedSlotField(conf, s, 0);
    PopulatedSlotField(conf, s, 1);
    PopulatedSlotField(conf, s, 2);
    PopulatedSlotField(conf, s, 3);
    Slice4(r, b);
  }

  lemma PopulatedChecksum(conf: Config, s: nat)
    requires s < 4
    ensures Populated(conf)[SlotBase(s) + 4..SlotBase(s) + 6] == Masked16(Get(conf, SLOT_NAMES[s] + "_checksum"))
  {
    var r, b := Populated(conf), SlotBase(s);
    PopulatedSlotField(conf, s, 4);
    PopulatedSlotField(conf, s, 5);
    Slice2(r, b + 4);
  }

  lemma PopulatedFail(conf: Config, s: nat)
    requires s < 4
    ensures Populated(conf)[SlotBase(s) + 6] == Get(conf, SLOT_NAMES[s] + "_fail")
  {
    PopulatedSlotField(conf, s, 6);
  }

  // ---------------------------------------------------------------------------
  // The borrow-propagating checksum over fields 6..54
  // ---------------------------------------------------------------------------

  /** The two accumulators, `values[4]` and `values[5]`: unbounded ints. */
  datatype Acc = Acc(hi: int, lo: int)

  /** One round of the loop for field `i` holding `v`: an even field is
      subtracted from `hi`, borrowing from `lo`; an odd one from `lo`, borrowing from `hi`. */
  function BorrowStep(acc: Acc, v: int, i: nat): Acc
  {
    if i % 2 == 0 then
      if v > acc.hi then Acc(256 + acc.hi - v, acc.lo - 1) else Acc(acc.hi - v, acc.lo)
    else
      if v > acc.lo then Acc(acc.hi - 1, 256 + acc.lo - v) else Acc(acc.hi, acc.lo - v)
  }

  /** The accumulators after the rounds for fields 6..n-1. */
  function Accumulate(vals: seq<int>, n: nat): Acc
    requires 6 <= n <= |vals|
    decreases n
  {
    if n == 6 then Acc(vals[4], vals[5]) else BorrowStep(Accumulate(vals, n - 1), vals[n - 1], n - 1)
  }

  /** The record after the loop: fields 4 and 5 replaced, all others kept. */
  function Finalized(vals: seq<int>): (r: seq<int>)
    requires |vals| >= 6
    ensures |r| == |vals|
    ensures r[4] == Accumulate(vals, |vals|).hi && r[5] == Accumulate(vals, |vals|).lo
    ensures forall p :: 0 <= p < |vals| && p != 4 && p != 5 ==> r[p] == vals[p]
  {
    vals[4 := Accumulate(vals, |vals|).hi][5 := Accumulate(vals, |vals|).lo]
  }

  /** The fields 6..n-1 read as big-endian 16-bit words (an even field is a
      high byte, an odd one a low byte). */
  function Weighted(vals: seq<int>, n: nat): int
    requires 6 <= n <= |vals|
    decreases n
  {
    if n == 6 then 0 else Weighted(vals, n - 1) + (if (n - 1) % 2 == 0 then 256 * vals[n - 1] else vals[n - 1])
  }

  /** How many even rounds before field `n` borrowed from `lo`. */
  function HiBorrows(vals: seq<int>, n: nat): nat
    requires 6 <= n <= |vals|
    decreases n
  {
    if n == 6 then 0
    else
      var borrowed := (n - 1) % 2 == 0 && vals[n - 1] > Accumulate(vals, n - 1).hi;
      HiBorrows(vals, n - 1) + (if borrowed then 1 else 0)
  }

  /** Read as the word `256 * hi + lo`, the loop subtracts the fields' word sum
      exactly, except that a borrow out of `hi` adds back 0xffff: it is
      subtraction in ones'-complement arithmetic. */
  lemma {:induction false} AccumulateWord(vals: seq<int>, n: nat)
    requires 6 <= n <= |vals|
    ensures 256 * Accumulate(vals, n).hi + Accumulate(vals, n).lo + Weighted(vals, n)
         == 256 * vals[4] + vals[5] + 0xffff * HiBorrows(vals, n)
    decreases n
  {
    if n > 6 {
      AccumulateWord(vals, n - 1);
    }
  }

  lemma MultipleMod(x: int, b: int, m: int)
    requires m > 0 && x == m * b
    ensures x % m == 0
  {
    ModOfDecomposition(x, b, 0, m);
  }

  /** With byte-valued fields, after an even field `hi` is a byte and `lo`
      at least -1; after an odd field the other way round. `lo` (after an
      even field) or `hi` (after an odd one) either stays or drops by one. */
  lemma {:induction false} AccumulateBounds(vals: seq<int>, n: nat)
    requires 6 <= n <= |vals| && AllBytes(vals)
    ensures n == 6 ==> 0 <= Accumulate(vals, n).hi < 256 && 0 <= Accumulate(vals, n).lo < 256
    ensures n > 6 && (n - 1) % 2 == 0 ==>
      0 <= Accumulate(vals, n).hi < 256 && -1 <= Accumulate(vals, n).lo < 256 &&
      Accumulate(vals, n - 1).lo - 1 <= Accumulate(vals, n).lo <= Accumulate(vals, n - 1).lo
    ensures n > 6 && (n - 1) % 2 == 1 ==>
      -1 <= Accumulate(vals, n).hi < 256 && 0 <= Accumulate(vals, n).lo < 256 &&
      Accumulate(vals, n - 1).hi - 1 <= Accumulate(vals, n).hi <= Accumulate(vals, n - 1).hi
    decreases n
  {
    if n > 6 {
      AccumulateBounds(vals, n - 1);
    }
  }

  /** Fields 53 and 54 (reserved) are zero in every record, so with
      byte-valued fields both checksum fields end as bytes. */
  lemma FinalChecksumBytes(vals: seq<int>)
    requires |vals| == FIELD_COUNT && AllBytes(vals) && vals[53] == 0 && vals[54] == 0
    ensures AllBytes(Finalized(vals))
  {
    AccumulateBounds(vals, 53);
  }

  /** The checksum word of the final record plus the word sum of fields 6..
      is a multiple of 0xffff: the pair is the ones'-complement negation of
      the word sum. */
  predicate ComplementsWordSum(vals: seq<int>)
    requires |vals| >= 6
  {
    (256 * Finalized(vals)[4] + Finalized(vals)[5] + Weighted(vals, |vals|)) % 0xffff == 0
  }

  /** From the seed `ff ff` the loop leaves the complement of the word sum. */
  lemma SeededChecksum(vals: seq<int>)
    requires |vals| >= 6 && vals[4] == 0xff && vals[5] == 0xff
    ensures ComplementsWordSum(vals)
  {
    AccumulateWord(vals, |vals|);
    var f := Finalized(vals);
    var x := 256 * f[4] + f[5] + Weighted(vals, |vals|);
    var b := HiBorrows(vals, |vals|);
    assert x == 0xffff * (1 + b);
    MultipleMod(x, 1 + b, 0xffff);
  }

  /** The record with fields `2m` and `2m + 1` exchanged. */
  function SwapPair(vals: seq<int>, m: nat): (r: seq<int>)
    requires 2 * m + 1 < |vals|
    ensures |r| == |vals| && r[2 * m] == vals[2 * m + 1] && r[2 * m + 1] == vals[2 * m]
    ensures forall p :: 0 <= p < |vals| && p != 2 * m && p != 2 * m + 1 ==> r[p] == vals[p]
  {
    vals[2 * m := vals[2 * m + 1]][2 * m + 1 := vals[2 * m]]
  }

  /** Exchanging the high and low byte of one word changes the weighted sum
      by 255 times their difference once both are counted. */
  lemma {:induction false} WeightedSwap(vals: seq<int>, m: nat, n: nat)
    requires 6 <= 2 * m && 2 * m + 1 < |vals| && 6 <= n <= |vals|
    ensures var d := vals[2 * m + 1] - vals[2 * m];
      Weighted(SwapPair(vals, m), n)
      == Weighted(vals, n) + (if n <= 2 * m then 0 else if n == 2 * m + 1 then 256 * d else 255 * d)
    decreases n
  {
    if n > 6 {
      WeightedSwap(vals, m, n - 1);
    }
  }

  /** The checksum depends on the order of the fields: exchanging two
      distinct byte values of one word (fields `2m` and `2m + 1`, weights 256
      and 1) changes the final checksum pair. */
  lemma SwapChangesChecksum(vals: seq<int>, m: nat)
    requires |vals| >= 6 && vals[4] == 0xff && vals[5] == 0xff
    requires 3 <= m && 2 * m + 1 < |vals|
    requires 0 <= vals[2 * m] < 256 && 0 <= vals[2 * m + 1] < 256 && vals[2 * m] != vals[2 * m + 1]
    ensures (Finalized(SwapPair(vals, m))[4], Finalized(SwapPair(vals, m))[5]) != (Finalized(vals)[4], Finalized(vals)[5])
  {
    var w := SwapPair(vals, m);
    SeededChecksum(vals);
    SeededChecksum(w);
    WeightedSwap(vals, m, |vals|);
    var f1 := Finalized(vals);
    var f2 := Finalized(w);
    var d := vals[2 * m + 1] - vals[2 * m];
    var x1 := 256 * f1[4] + f1[5] + Weighted(vals, |vals|);
    var x2 := 256 * f2[4] + f2[5] + Weighted(w, |w|);
    assert x2 - x1 == 256 * (f2[4] - f1[4]) + (f2[5] - f1[5]) + 255 * d;
    MultipleDiff(x1, x2);
    ByteDiffNotMultiple(d);
  }

  lemma MultipleDiff(x1: int, x2: int)
    requires x1 % 0xffff == 0 && x2 % 0xffff == 0
    ensures (x2 - x1) % 0xffff == 0
  {
    ModOfDecomposition(x2 - x1, x2 / 0xffff - x1 / 0xffff, 0, 0xffff);
  }

  /** 0xffff is 255 * 257, so 255 times a nonzero byte difference is never a
      multiple of it. */
  lemma ByteDiffNotMultiple(d: int)
    requires -256 < d < 256 && d != 0
    ensures (255 * d) % 0xffff != 0
  {
    var q := (255 * d) / 0xffff;
    assert 255 * d == 0xffff * q + (255 * d) % 0xffff;
  }

  /** The single-value fields the configuration may set unmasked. */
  predicate ByteConfig(conf: Config)
  {
    (forall s :: 0 <= s < 4 ==> 0 <= Get(conf, SLOT_NAMES[s] + "_fail") < 256) &&
    (forall j :: 0 <= j < 4 ==> 0 <= Get(conf, POINTER_KEYS[j]) < 256)
  }

  lemma DefaultRecordBytes()
    ensures |DEFAULT_RECORD| == FIELD_COUNT
    ensures AllBytes(DEFAULT_RECORD)
  {
    assert AllBytes(RECORD_HEAD) && AllBytes(RECORD_TAIL);
    assert AllBytes(KERNEL0_DEFAULT) && AllBytes(KERNEL1_DEFAULT);
    assert AllBytes(ROOTFS0_DEFAULT) && AllBytes(ROOTFS1_DEFAULT);
  }

  lemma PopulatedBytes(conf: Config)
    requires ByteConfig(conf)
    ensures AllBytes(Populated(conf))
    ensures Populated(conf)[4] == 0xff && Populated(conf)[5] == 0xff
    ensures Populated(conf)[53] == 0 && Populated(conf)[54] == 0
  {
    var r := Populated(conf);
    DefaultRecordBytes();
    forall p | 0 <= p < FIELD_COUNT
      ensures 0 <= r[p] < 256
    {
      assert r[p] == StageValue(conf, p, 16, 8, 8);
      if 10 <= p < 38 {
        var s := SlotOf(p);
        if p - SlotBase(s) == 6 {
          assert r[p] == Get(conf, SLOT_NAMES[s] + "_fail");
        }
      }
    }
    assert r[4] == StageValue(conf, 4, 16, 8, 8);
    assert r[5] == StageValue(conf, 5, 16, 8, 8);
    assert r[53] == StageValue(conf, 53, 16, 8, 8);
    assert r[54] == StageValue(conf, 54, 16, 8, 8);
  }

  /** With byte-valued fail counts and slot pointers, every field of the final
      record is a byte, and the checksum pair complements the word sum of
      fields 6..54 in ones'-complement arithmetic. */
  lemma BootRecordChecksum(conf: Config)
    requires ByteConfig(conf)
    ensures AllBytes(Finalized(Populated(conf)))
    ensures ComplementsWordSum(Populated(conf))
  {
    var r := Populated(conf);
    PopulatedBytes(conf);
    FinalChecksumBytes(r);
    SeededChecksum(r);
  }

  // ---------------------------------------------------------------------------
  // The script
  // ---------------------------------------------------------------------------

  /** What `calc_checksum_boot_info` returns; `None` is a missing file (or no
      YAML module), where it returns the empty string. */
  function BootInfoScript(conf: Option<Config>): string
  {
    match conf
    case None => ""
    case Some(c) => Concat(EbLines(BOOT_INFO_RAM, Finalized(Populated(c)))) + BOOT_INFO_NANDW
  }

  /** The script is four `eb` lines, at `0xa0a00000 + 16k`, that together
      carry the final record in order, then the fixed `NANDW` line. */
  lemma BootInfoScriptShape(conf: Config)
    ensures |EbLines(BOOT_INFO_RAM, Finalized(Populated(conf)))| == 4
    ensures forall k :: 0 <= k < 4 ==>
      EbLines(BOOT_INFO_RAM, Finalized(Populated(conf)))[k]
        == EbLine(BOOT_INFO_RAM + 16 * k, Chunk(Finalized(Populated(conf)), k))
    ensures Flatten(Chunks(Finalized(Populated(conf)))) == Finalized(Populated(conf))
    ensures BootInfoScript(Some(conf))
         == Concat(EbLines(BOOT_INFO_RAM, Finalized(Populated(conf)))) + BOOT_INFO_NANDW
  {
    ChunksReassemble(Finalized(Populated(conf)));
  }

  lemma ConcatSnoc(lines: seq<string>, k: nat)
    requires k < |lines|
    ensures Concat(lines[..k + 1]) == Concat(lines[..k]) + lines[k]
  {
    assert lines[..k + 1] == lines[..k] + [lines[k]];
    ConcatAppend(lines[..k], [lines[k]]);
    assert Concat([lines[k]]) == lines[k] + Concat([]);
  }

  /** `calc_checksum_boot_info`: fill the record, run the borrow loop in
      place, then format it. */
  method CalcChecksumBootInfo(conf: Option<Config>) returns (script: string)
    ensures script == BootInfoScript(conf)
  {
    if conf.None? {
      return "";
    }
    var c := conf.value;
    var values := PopulateRecord(c);
    ApplyBorrow(values);
    assert values[..] == Finalized(Populated(c));
    var commands := FormatPokes(values, BOOT_INFO_RAM);
    script := commands + BOOT_INFO_NANDW;
  }

  /** `for i in range(0, len(values), 16): commands = "{}eb {} {}\n".format(...)`. */
  method FormatPokes(values: array<int>, base: nat) returns (commands: string)
    ensures commands == Concat(EbLines(base, values[..]))
  {
    ghost var vs := values[..];
    ghost var lines := EbLines(base, vs);
    commands := "";
    var i := 0;
    ghost var k := 0;
    while i < values.Length
      invariant i == 16 * k && k <= ChunkCount(|vs|)
      invariant commands == Concat(lines[..k])
    {
      var data := values[i..Min(i + 16, values.Length)];
      EbLinesAt(base, vs, k);
      assert data == vs[16 * k..Min(16 * k + 16, |vs|)];
      ConcatSnoc(lines, k);
      commands := commands + EbLine(base + i, data);
      i := i + 16;
      k := k + 1;
    }
    assert lines[..k] == lines;
  }

  /** The record after the given numbers of assignments. */
  predicate AtStage(values: array<int>, c: Config, sizeWrites: nat, sumWrites: nat, scalarWrites: nat)
    reads values
  {
    values.Length == FIELD_COUNT &&
    forall p :: 0 <= p < FIELD_COUNT ==> values[p] == StageValue(c, p, sizeWrites, sumWrites, scalarWrites)
  }

  /** The defaults, then the size bytes, checksum bytes and single-value
      fields copied from the configuration, in the order the source assigns them. */
  method PopulateRecord(c: Config) returns (values: array<int>)
    ensures fresh(values) && values[..] == Populated(c)
  {
    DefaultRecordBytes();
    values := new int[|DEFAULT_RECORD|](p => if 0 <= p < |DEFAULT_RECORD| then DEFAULT_RECORD[p] else 0);
    assert AtStage(values, c, 0, 0, 0);
    WriteSizeBytes(values, c);
    WriteChecksumBytes(values, c);
    WriteSingleFields(values, c);
    assert values[..] == Populated(c);
  }

  /** `for i in range(4, 0, -1)`: byte `4 - i` of each size, `(size >> 8(i-1)) & 0xff`. */
  method WriteSizeBytes(values: array<int>, c: Config)
    requires AtStage(values, c, 0, 0, 0)
    modifies values
    ensures AtStage(values, c, 16, 0, 0)
  {
    var i := 4;
    while i > 0
      invariant 0 <= i <= 4
      invariant AtStage(values, c, 4 * (4 - i), 0, 0)
    {
      ghost var w := 4 * (4 - i);
      SetSizeByte(values, c, 0, i, w);
      SetSizeByte(values, c, 1, i, w + 1);
      SetSizeByte(values, c, 2, i, w + 2);
      SetSizeByte(values, c, 3, i, w + 3);
      assert w + 4 == 4 * (4 - (i - 1));
      i := i - 1;
    }
  }

  /** `boot_info['<slot>_size_{5 - i}'] = (conf.get('<slot>_size', 0x0) >> (i - 1) * 8) & 0xff`
      for slot record `s`: assignment `w` of the size loop. */
  method SetSizeByte(values: array<int>, c: Config, s: nat, i: nat, ghost w: nat)
    requires s < 4 && 1 <= i <= 4 && w == 4 * (4 - i) + s
    requires AtStage(values, c, w, 0, 0)
    modifies values
    ensures AtStage(values, c, w + 1, 0, 0)
  {
    ghost var before := values[..];
    values[SlotBase(s) + 4 - i] := ByteOf(Get(c, SLOT_NAMES[s] + "_size"), i - 1);
    forall p | 0 <= p < FIELD_COUNT
      ensures values[p] == StageValue(c, p, w + 1, 0, 0)
    {
      if p != SlotBase(s) + 4 - i {
        assert values[p] == before[p];
        SizeWriteElsewhere(c, p, s, i, w);
      }
    }
  }

  /** Assignment `w` of the size loop changes no other field. */
  lemma SizeWriteElsewhere(c: Config, p: nat, s: nat, i: nat, w: nat)
    requires s < 4 && 1 <= i <= 4 && w == 4 * (4 - i) + s
    requires p < FIELD_COUNT && p != SlotBase(s) + 4 - i
    ensures StageValue(c, p, w + 1, 0, 0) == StageValue(c, p, w, 0, 0)
  {
  }

  /** `for i in range(2, 0, -1)`: byte `2 - i` of each checksum. */
  method WriteChecksumBytes(values: array<int>, c: Config)
    requires AtStage(values, c, 16, 0, 0)
    modifies values
    ensures AtStage(values, c, 16, 8, 0)
  {
    var i := 2;
    while i > 0
      invariant 0 <= i <= 2
      invariant AtStage(values, c, 16, 4 * (2 - i), 0)
    {
      ghost var w := 4 * (2 - i);
      SetChecksumByte(values, c, 0, i, w);
      SetChecksumByte(values, c, 1, i, w + 1);
      SetChecksumByte(values, c, 2, i, w + 2);
      SetChecksumByte(values, c, 3, i, w + 3);
      assert w + 4 == 4 * (2 - (i - 1));
      i := i - 1;
    }
  }

  /** `boot_info['<slot>_checksum_{3 - i}'] = (conf.get('<slot>_checksum', 0x0) >> (i - 1) * 8) & 0xff`
      for slot record `s`: assignment `w` of the checksum loop. */
  method SetChecksumByte(values: array<int>, c: Config, s: nat, i: nat, ghost w: nat)
    requires s < 4 && 1 <= i <= 2 && w == 4 * (2 - i) + s
    requires AtStage(values, c, 16, w, 0)
    modifies values
    ensures AtStage(values, c, 16, w + 1, 0)
  {
    ghost var before := values[..];
    values[SlotBase(s) + 6 - i] := ByteOf(Get(c, SLOT_NAMES[s] + "_checksum"), i - 1);
    forall p | 0 <= p < FIELD_COUNT
      ensures values[p] == StageValue(c, p, 16, w + 1, 0)
    {
      if p != SlotBase(s) + 6 - i {
        assert values[p] == before[p];
        ChecksumWriteElsewhere(c, p, s, i, w);
      }
    }
  }

  /** Assignment `w` of the checksum loop changes no other field. */
  lemma ChecksumWriteElsewhere(c: Config, p: nat, s: nat, i: nat, w: nat)
    requires s < 4 && 1 <= i <= 2 && w == 4 * (2 - i) + s
    requires p < FIELD_COUNT && p != SlotBase(s) + 6 - i
    ensures StageValue(c, p, 16, w + 1, 0) == StageValue(c, p, 16, w, 0)
  {
  }

  /** The fail counts and the current/newest slot pointers, copied unmasked. */
  method WriteSingleFields(values: array<int>, c: Config)
    requires AtStage(values, c, 16, 8, 0)
    modifies values
    ensures AtStage(values, c, 16, 8, 8)
  {
    SetSingleField(values, c, SlotBase(0) + 6, SLOT_NAMES[0] + "_fail", 0);
    SetSingleField(values, c, SlotBase(1) + 6, SLOT_NAMES[1] + "_fail", 1);
    SetSingleField(values, c, SlotBase(2) + 6, SLOT_NAMES[2] + "_fail", 2);
    SetSingleField(values, c, SlotBase(3) + 6, SLOT_NAMES[3] + "_fail", 3);
    SetSingleField(values, c, 6, POINTER_KEYS[0], 4);
    SetSingleField(values, c, 7, POINTER_KEYS[1], 5);
    SetSingleField(values, c, 8, POINTER_KEYS[2], 6);
    SetSingleField(values, c, 9, POINTER_KEYS[3], 7);
  }

  /** Field `p` of the single-value assignment `w` and its configuration key. */
  predicate SingleField(p: nat, key: string, w: nat)
  {
    if w < 4 then p == SlotBase(w) + 6 && key == SLOT_NAMES[w] + "_fail"
    else w < 8 && p == 6 + (w - 4) && key == POINTER_KEYS[w - 4]
  }

  /** `boot_info[key] = conf.get(key, 0x0)`: single-value assignment `w`. */
  method SetSingleField(values: array<int>, c: Config, p: nat, key: string, ghost w: nat)
    requires SingleField(p, key, w)
    requires AtStage(values, c, 16, 8, w)
    modifies values
    ensures AtStage(values, c, 16, 8, w + 1)
  {
    ghost var before := values[..];
    values[p] := Get(c, key);
    forall q | 0 <= q < FIELD_COUNT
      ensures values[q] == StageValue(c, q, 16, 8, w + 1)
    {
      if q != p {
        assert values[q] == before[q];
        SingleWriteElsewhere(c, p, key, q, w);
      } else {
        SingleWriteHere(c, p, key, w);
      }
    }
  }

  lemma SingleWriteElsewhere(c: Config, p: nat, key: string, q: nat, w: nat)
    requires SingleField(p, key, w) && q < FIELD_COUNT && q != p
    ensures StageValue(c, q, 16, 8, w + 1) == StageValue(c, q, 16, 8, w)
  {
  }

  lemma SingleWriteHere(c: Config, p: nat, key: string, w: nat)
    requires SingleField(p, key, w)
    ensures p < FIELD_COUNT && StageValue(c, p, 16, 8, w + 1) == Get(c, key)
  {
    if w < 4 {
      assert SlotOf(p) == w;
    }
  }

  /** The loop over fields 6..54, updating `values[4]` and `values[5]` in place. */
  method ApplyBorrow(values: array<int>)
    requires values.Length >= 6
    modifies values
    ensures values[..] == Finalized(old(values[..]))
  {
    ghost var rec := values[..];
    var i := 6;
    while i < values.Length
      invariant 6 <= i <= values.Length
      invariant forall p :: 0 <= p < values.Length && p != 4 && p != 5 ==> values[p] == rec[p]
      invariant Acc(values[4], values[5]) == Accumulate(rec, i)
    {
      if i % 2 == 0 {
        if values[i] > values[4] {
          values[5] := values[5] - 1;
          values[4] := 256 + values[4] - values[i];
        } else {
          values[4] := values[4] - values[i];
        }
      } else {
        if values[i] > values[5] {
          values[4] := values[4] - 1;
          values[5] := 256 + values[5] - values[i];
        } else {
          values[5] := values[5] - values[i];
        }
      }
      i := i + 1;
    }
    assert values[..] == Finalized(rec);
  }
}
