/** The two image checksums of `scripts/gateway3utils.py`: the inverted
    big-endian word sum that marks a raw image valid, and the "sum" label
    (a byte-pattern heuristic overridden by two tables of known file names). */
module Checksum {
  import opened Wrappers
  import opened Bytes
  import opened Text

  // ---------------------------------------------------------------------------
  // Inverted word sum (calc_checksum_of_firmware)
  // ---------------------------------------------------------------------------

  /** Sum of the file read as big-endian 16-bit words, unbounded as a Python int. */
  function WordSum(s: seq<byte>): nat
    requires |s| % 2 == 0
  {
    if |s| == 0 then 0 else WordSum(s[..|s| - 2]) + (s[|s| - 2] as int) * 256 + s[|s| - 1] as int
  }

  /** `(0x10000 - (sum & 0xffff)) & 0xffff`: the 16-bit value that brings the
      sum to a multiple of 0x10000. */
  function Invert16(sum: nat): (r: nat)
    ensures r < 0x10000 && (sum + r) % 0x10000 == 0
  {
    (0x10000 - sum % 0x10000) % 0x10000
  }

  /** The result of `calc_checksum_of_firmware` on a file with contents `raw`:
      `None` stands for the IndexError raised at `raw[i+1]` when the length is
      odd. A present result is the unique 16-bit value completing the word sum
      to a multiple of 0x10000. */
  function ImageChecksum(raw: seq<byte>): (r: Option<nat>)
    ensures r.Some? <==> |raw| % 2 == 0
    ensures r.Some? ==> r.value < 0x10000 && (WordSum(raw) + r.value) % 0x10000 == 0
  {
    if |raw| % 2 != 0 then None else Some(Invert16(WordSum(raw)))
  }

  /** The loop of `calc_checksum_of_firmware`, stepping two bytes at a time. */
  method CalcChecksumOfFirmware(raw: seq<byte>) returns (r: Option<nat>)
    ensures r == ImageChecksum(raw)
  {
    var checksum: nat := 0;
    var i := 0;
    while i < |raw|
      invariant 0 <= i <= |raw| && i % 2 == 0
      invariant checksum == WordSum(raw[..i])
    {
      if i + 1 >= |raw| {
        // raw[i + 1] is out of range: Python raises IndexError here.
        return None;
      }
      assert raw[..i + 2][..i] == raw[..i];
      checksum := checksum + (raw[i] as int) * 256 + raw[i + 1] as int;
      i := i + 2;
    }
    assert raw[..i] == raw;
    r := Some((0x10000 - checksum % 0x10000) % 0x10000);
  }

  lemma {:induction false} WordSumAppend(a: seq<byte>, b: seq<byte>)
    requires |a| % 2 == 0 && |b| % 2 == 0
    ensures WordSum(a + b) == WordSum(a) + WordSum(b)
    decreases |b|
  {
    if |b| == 0 {
      assert a + b == a;
    } else {
      var ab := a + b;
      assert ab[..|ab| - 2] == a + b[..|b| - 2];
      WordSumAppend(a, b[..|b| - 2]);
    }
  }

  /** Appending the returned checksum as one big-endian word makes the
      checksum of the result zero: the file then counts as a raw image. */
  lemma ChecksumTrailerWord(raw: seq<byte>)
    requires |raw| % 2 == 0
    ensures ImageChecksum(raw + Be16(ImageChecksum(raw).value)) == Some(0)
  {
    var c := ImageChecksum(raw).value;
    var t := Be16(c);
    WordSumAppend(raw, t);
    WordSumBe16(c);
    CompletedSum(raw + t, WordSum(raw), c);
  }

  /** An even run of zero bytes adds nothing to the word sum. */
  lemma {:induction false} WordSumZeros(n: nat)
    requires n % 2 == 0
    ensures WordSum(Fill(0, n)) == 0
    decreases n
  {
    if n > 0 {
      assert Fill(0, n)[..n - 2] == Fill(0, n - 2);
      WordSumZeros(n - 2);
    }
  }

  /** A 16-bit value written as four big-endian bytes contributes itself. */
  lemma WordSumBe32(c: nat)
    requires c < 0x10000
    ensures WordSum(Be32(c)) == c
  {
    assert Be32(c) == [0, 0] + Be16(c);
    WordSumAppend([0, 0], Be16(c));
    assert WordSum([0, 0]) == 0 by { assert [0, 0][..0] == []; }
    WordSumBe16(c);
  }

  /** Appending zero bytes (an even number of them) and then the checksum as
      the 4-byte big-endian value `00 00 hi lo`, as the fw_update wrapper
      does, also makes the checksum of the result zero. */
  lemma ChecksumTrailerLong(raw: seq<byte>, zeros: nat)
    requires |raw| % 2 == 0 && zeros % 2 == 0
    ensures ImageChecksum(raw + Fill(0, zeros) + Be32(ImageChecksum(raw).value)) == Some(0)
  {
    var c := ImageChecksum(raw).value;
    var t := Be32(c);
    WordSumZeros(zeros);
    WordSumBe32(c);
    WordSumAppend(raw, Fill(0, zeros));
    WordSumAppend(raw + Fill(0, zeros), t);
    CompletedSum(raw + Fill(0, zeros) + t, WordSum(raw), c);
  }

  lemma WordSumBe16(c: nat)
    requires c < 0x10000
    ensures WordSum(Be16(c)) == c
  {
    assert Be16(c)[..0] == [];
  }

  /** A word sum that is a multiple of 0x10000 has checksum zero. */
  lemma CompletedSum(s: seq<byte>, w: nat, c: nat)
    requires |s| % 2 == 0 && WordSum(s) == w + c && (w + c) % 0x10000 == 0
    ensures ImageChecksum(s) == Some(0)
  {
  }

  // ---------------------------------------------------------------------------
  // Sum label (calc_sum_of_firmware)
  // ---------------------------------------------------------------------------

  /** The heuristic's running state: `nsum` and `last_calc`. */
  datatype SumState = SumState(nsum: int, lastCalc: bool)

  const SUM_SEED: SumState := SumState(0xffff, false)

  /** `int.from_bytes(byte[k:k+1], 'little')`: 0 past the end of a short read. */
  function GroupByte(g: seq<byte>, k: nat): byte
  {
    if k < |g| then g[k] else 0
  }

  /** One pass of the loop body on a group `g` of at most four bytes. */
  function SumStep(st: SumState, g: seq<byte>): (r: SumState)
    ensures st.nsum - 2 <= r.nsum <= st.nsum
  {
    var b0, b1, b2, b3 := GroupByte(g, 0), GroupByte(g, 1), GroupByte(g, 2), GroupByte(g, 3);
    var n1 := if b0 >= 1 || b1 >= 1 || b2 >= 0xfe || b3 >= 0xfe then st.nsum - 1 else st.nsum;
    var n2 := if b0 >= 1 && st.lastCalc && b1 >= 1 && b2 >= 0xfe then n1 - 1 else n1;
    SumState(n2, b0 >= 1 && b1 >= 1 && b2 >= 0xfe && b3 >= 0xfe)
  }

  /** The state after the loop has read every 4-byte group of `s`, starting from `st`. */
  function HeuristicFrom(s: seq<byte>, st: SumState): SumState
    decreases |s|
  {
    if |s| == 0 then st
    else
      var n := Min(4, |s|);
      HeuristicFrom(s[n..], SumStep(st, s[..n]))
  }

  /** The heuristic's `nsum` over the whole file. */
  function Heuristic(raw: seq<byte>): int
  {
    HeuristicFrom(raw, SUM_SEED).nsum
  }

  /** The heuristic only counts down, by at most two per 4-byte group. */
  lemma {:induction false} HeuristicFromBounds(s: seq<byte>, st: SumState)
    ensures st.nsum - 2 * ((|s| + 3) / 4) <= HeuristicFrom(s, st).nsum <= st.nsum
    decreases |s|
  {
    if |s| > 0 {
      var n := Min(4, |s|);
      HeuristicFromBounds(s[n..], SumStep(st, s[..n]));
      assert (|s[n..]| + 3) / 4 == (|s| + 3) / 4 - 1;
    }
  }

  lemma HeuristicBounds(raw: seq<byte>)
    ensures 0xffff - 2 * ((|raw| + 3) / 4) <= Heuristic(raw) <= 0xffff
  {
    HeuristicFromBounds(raw, SUM_SEED);
  }

  /** A file of zero bytes never triggers a decrement: its heuristic is the seed. */
  lemma {:induction false} HeuristicOfZeros(s: seq<byte>, nsum: int)
    requires forall i :: 0 <= i < |s| ==> s[i] == 0
    ensures HeuristicFrom(s, SumState(nsum, false)) == SumState(nsum, false)
    decreases |s|
  {
    if |s| > 0 {
      var n := Min(4, |s|);
      assert SumStep(SumState(nsum, false), s[..n]) == SumState(nsum, false);
      HeuristicOfZeros(s[n..], nsum);
    }
  }

  /** `official_firmware_sum`, in declaration order. */
  const OfficialSums: seq<(string, nat)> := [
    ("linux_1.4.7_0065.bin", 0xcb43),
    ("rootfs_1.4.7_0065.bin", 0x742c),
    ("linux_1.4.6_0043.bin", 0xc8cc),
    ("rootfs_1.4.6_0043.bin", 0x742c),
    ("linux_1.4.6_0012.bin", 0xc8cf),
    ("rootfs_1.4.6_0012.bin", 0x62c6),
    ("linux_1.4.5_0016.bin", 0xe87e),
    ("rootfs_1.4.5_0016.bin", 0xa40a)
  ]

  /** `modified_firmware_sum`. */
  const ModifiedSums: seq<(string, nat)> := [
    ("rootfs_1.4.7_0065_modified.bin", 0x742c)
  ]

  /** Entry `k` is the first of `table` whose key occurs in `name`. */
  predicate IsFirstMatch(table: seq<(string, nat)>, name: string, k: int)
  {
    0 <= k < |table| && Contains(name, table[k].0) &&
    forall j :: 0 <= j < k ==> !Contains(name, table[j].0)
  }

  /** The value the `for key, val in ...: if key in name: ...; break` loop picks. */
  function FirstMatch(table: seq<(string, nat)>, name: string): Option<nat>
  {
    if |table| == 0 then None
    else if Contains(name, table[0].0) then Some(table[0].1)
    else FirstMatch(table[1..], name)
  }

  /** The lookup returns the value of the first matching entry, and nothing
      exactly when no key occurs in the name. */
  lemma {:induction false} FirstMatchSpec(table: seq<(string, nat)>, name: string)
    ensures FirstMatch(table, name).None? <==> forall k :: 0 <= k < |table| ==> !Contains(name, table[k].0)
    ensures FirstMatch(table, name).Some? ==>
              exists k :: IsFirstMatch(table, name, k) && FirstMatch(table, name).value == table[k].1
  {
    if |table| > 0 {
      if Contains(name, table[0].0) {
        assert IsFirstMatch(table, name, 0);
      } else {
        FirstMatchSpec(table[1..], name);
        if FirstMatch(table[1..], name).Some? {
          var k :| IsFirstMatch(table[1..], name, k) && FirstMatch(table[1..], name).value == table[1..][k].1;
          assert IsFirstMatch(table, name, k + 1);
        } else {
          forall k | 0 <= k < |table|
            ensures !Contains(name, table[k].0)
          {
            if k > 0 { assert table[k] == table[1..][k - 1]; }
          }
        }
      }
    }
  }

  /** The first match is unique. */
  lemma FirstMatchUnique(table: seq<(string, nat)>, name: string, j: int, k: int)
    requires IsFirstMatch(table, name, j) && IsFirstMatch(table, name, k)
    ensures j == k
  {
  }

  /** The chosen value: a hit in `modified` beats a hit in `official`, which
      beats the heuristic's `nsum`. */
  function Chosen(official: seq<(string, nat)>, modified: seq<(string, nat)>, name: string, nsum: int): int
  {
    match FirstMatch(modified, name)
    case Some(v) => v
    case None =>
      match FirstMatch(official, name)
      case Some(v) => v
      case None => nsum
  }

  /** What `calc_sum_of_firmware` returns for a file at `path` with contents `raw`. */
  function SumLabel(path: string, raw: seq<byte>): string
  {
    Hex(Chosen(OfficialSums, ModifiedSums, Basename(path), Heuristic(raw)) % 0x10000)
  }

  /** A hit in the modified table decides, whatever else matches. */
  lemma ChosenModified(official: seq<(string, nat)>, modified: seq<(string, nat)>, name: string, nsum: int, k: int)
    requires IsFirstMatch(modified, name, k)
    ensures Chosen(official, modified, name, nsum) == modified[k].1
  {
    FirstMatchSpec(modified, name);
    var m :| IsFirstMatch(modified, name, m) && FirstMatch(modified, name).value == modified[m].1;
    FirstMatchUnique(modified, name, k, m);
  }

  /** Without a modified-table hit, the first official key, in declaration
      order, that occurs in the name decides. */
  lemma ChosenOfficial(official: seq<(string, nat)>, modified: seq<(string, nat)>, name: string, nsum: int, k: int)
    requires forall j :: 0 <= j < |modified| ==> !Contains(name, modified[j].0)
    requires IsFirstMatch(official, name, k)
    ensures Chosen(official, modified, name, nsum) == official[k].1
  {
    FirstMatchSpec(modified, name);
    FirstMatchSpec(official, name);
    var m :| IsFirstMatch(official, name, m) && FirstMatch(official, name).value == official[m].1;
    FirstMatchUnique(official, name, k, m);
  }

  /** Without any table hit, the heuristic's value is kept. */
  lemma ChosenHeuristic(official: seq<(string, nat)>, modified: seq<(string, nat)>, name: string, nsum: int)
    requires forall j :: 0 <= j < |modified| ==> !Contains(name, modified[j].0)
    requires forall j :: 0 <= j < |official| ==> !Contains(name, official[j].0)
    ensures Chosen(official, modified, name, nsum) == nsum
  {
    FirstMatchSpec(modified, name);
    FirstMatchSpec(official, name);
  }

  /** Every label is `0x` and the lowercase hex of a 16-bit value. */
  lemma SumLabelIs16Bit(path: string, raw: seq<byte>)
    ensures |SumLabel(path, raw)| >= 3 && SumLabel(path, raw)[..2] == "0x"
    ensures IsHexString(SumLabel(path, raw)[2..]) && HexValue(SumLabel(path, raw)[2..]) < 0x10000
  {
    var v := Chosen(OfficialSums, ModifiedSums, Basename(path), Heuristic(raw)) % 0x10000;
    assert SumLabel(path, raw)[2..] == HexDigits(v);
    HexRoundTrip(v);
  }

  /** The published example: `linux_1.4.7_0065.bin` reports `0xcb43` for any content. */
  lemma SumLabelExample(raw: seq<byte>)
    ensures SumLabel("linux_1.4.7_0065.bin", raw) == "0xcb43"
  {
    var name := "linux_1.4.7_0065.bin";
    BasenamePlain(name);
    assert !Contains(name, ModifiedSums[0].0);
    assert FirstMatch(ModifiedSums, name) == None by {
      assert ModifiedSums[1..] == [];
    }
    assert Contains(name, OfficialSums[0].0) by {
      assert name[..|OfficialSums[0].0|] == OfficialSums[0].0;
    }
    var v := Chosen(OfficialSums, ModifiedSums, Basename(name), Heuristic(raw));
    assert v == 0xcb43;
    assert SumLabel(name, raw) == Hex(v % 0x10000);
    HexCb43();
  }

  lemma HexCb43()
    ensures Hex(0xcb43) == "0xcb43"
  {
    assert HexDigits(0xc) == "c";
    assert HexDigits(0xcb) == "cb";
    assert HexDigits(0xcb4) == "cb4";
    assert HexDigits(0xcb43) == "cb43";
  }

  /** The loop of `calc_sum_of_firmware`, then its two table lookups. */
  method CalcSumOfFirmware(path: string, raw: seq<byte>) returns (r: string)
    ensures r == SumLabel(path, raw)
  {
    var nsum: int := 0xffff;
    var lastCalc := false;
    var i := 0;
    while i < |raw|
      invariant 0 <= i <= |raw|
      invariant HeuristicFrom(raw[i..], SumState(nsum, lastCalc)) == HeuristicFrom(raw, SUM_SEED)
    {
      var n := Min(4, |raw| - i);
      var g := raw[i..i + n];
      assert raw[i..][..n] == g && raw[i..][n..] == raw[i + n..];
      var b0, b1, b2, b3 := GroupByte(g, 0), GroupByte(g, 1), GroupByte(g, 2), GroupByte(g, 3);
      if b0 >= 1 || b1 >= 1 || b2 >= 0xfe || b3 >= 0xfe {
        nsum := nsum - 1;
      }
      if b0 >= 1 && lastCalc {
        if b1 >= 1 && b2 >= 0xfe {
          nsum := nsum - 1;
        }
      }
      lastCalc := b0 >= 1 && b1 >= 1 && b2 >= 0xfe && b3 >= 0xfe;
      i := i + n;
    }
    assert raw[i..] == [];
    var name := Basename(path);
    var found := Lookup(OfficialSums, name);
    if found.Some? {
      nsum := found.value;
    }
    found := Lookup(ModifiedSums, name);
    if found.Some? {
      nsum := found.value;
    }
    r := Hex(nsum % 0x10000);
  }

  /** `for key, val in table.items(): if key in name: ...; break`. */
  method Lookup(table: seq<(string, nat)>, name: string) returns (r: Option<nat>)
    ensures r == FirstMatch(table, name)
  {
    var k := 0;
    while k < |table|
      invariant 0 <= k <= |table|
      invariant FirstMatch(table, name) == FirstMatch(table[k..], name)
    {
      if Contains(name, table[k].0) {
        return Some(table[k].1);
      }
      assert table[k..][1..] == table[k + 1..];
      k := k + 1;
    }
    return None;
  }
}
