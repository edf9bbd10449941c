/** The console commands the utilities emit, as the exact text written, and
    the 16-value chunking that every `eb` (memory poke) sequence shares. */
module Commands {
  import opened Text

  /** `"eb {} {}\n".format(hex(addr), data)` where `data` is the values as
      space-separated `{:02x}` fields. */
  function EbLine(addr: nat, data: seq<int>): string
  {
    "eb " + Hex(addr) + " " + JoinHex(data) + "\n"
  }

  /** `'NANDW {} {} {}\n'.format(hex(offset), hex(addr), hex(length))`: program
      `length` bytes at flash `offset` from RAM address `addr`. */
  function NandwLine(offset: nat, addr: nat, length: nat): string
  {
    "NANDW " + Hex(offset) + " " + Hex(addr) + " " + Hex(length) + "\n"
  }

  /** One write to the console: a poke, a flash-program command, or text
      written as is. The bytes sent are `Render` of it. */
  datatype Command =
    | Eb(addr: nat, data: seq<int>)
    | Nandw(offset: nat, addr: nat, length: nat)
    | Raw(text: string)

  function Render(cmd: Command): string
  {
    match cmd
    case Eb(addr, data) => EbLine(addr, data)
    case Nandw(offset, addr, length) => NandwLine(offset, addr, length)
    case Raw(text) => text
  }

  /** The confirmation the flasher asks for after `NANDW`. */
  const CONFIRM: string := "y\n"
  const NEWLINE: string := "\n"

  /** `vs[16 * k:16 * k + 16]`, empty past the end as in Python. */
  function Chunk(vs: seq<int>, k: nat): (r: seq<int>)
    ensures 16 * k < |vs| ==> |r| == Min(16, |vs| - 16 * k) && r == vs[16 * k..16 * k + |r|]
    ensures 16 * k >= |vs| ==> r == []
  {
    if 16 * k >= |vs| then [] else vs[16 * k..Min(16 * k + 16, |vs|)]
  }

  /** Number of iterations of `for i in range(0, n, 16)`. */
  function ChunkCount(n: nat): nat
  {
    (n + 15) / 16
  }

  /** The chunks `vs[i:i+16]` for `i in range(0, len(vs), 16)`. */
  function Chunks(vs: seq<int>): (r: seq<seq<int>>)
    ensures |r| == ChunkCount(|vs|)
  {
    seq(ChunkCount(|vs|), k requires 0 <= k < ChunkCount(|vs|) => Chunk(vs, k))
  }

  /** `for i in range(0, len(vs), 16): eb hex(base + i) <vs[i:i+16]>`. */
  function EbLines(base: nat, vs: seq<int>): (r: seq<string>)
    ensures |r| == ChunkCount(|vs|)
  {
    seq(ChunkCount(|vs|), k requires 0 <= k < ChunkCount(|vs|) => EbLine(base + 16 * k, Chunks(vs)[k]))
  }

  /** Line `k` of a poke sequence, spelled out. */
  lemma EbLinesAt(base: nat, vs: seq<int>, k: nat)
    requires k < ChunkCount(|vs|)
    ensures 16 * k < |vs|
    ensures EbLines(base, vs)[k] == EbLine(base + 16 * k, vs[16 * k..Min(16 * k + 16, |vs|)])
  {
    ChunkStart(|vs|, k);
  }

  function Flatten(ss: seq<seq<int>>): seq<int>
  {
    if |ss| == 0 then [] else ss[0] + Flatten(ss[1..])
  }

  /** The chunks put back together are the original values: nothing is
      dropped, repeated or reordered. */
  lemma {:induction false} ChunksReassemble(vs: seq<int>)
    ensures Flatten(Chunks(vs)) == vs
    decreases |vs|
  {
    if |vs| > 0 {
      var cs := Chunks(vs);
      if |vs| <= 16 {
        assert ChunkCount(|vs|) == 1;
        assert cs[0] == Chunk(vs, 0) == vs[0..|vs|];
        assert vs[0..|vs|] == vs;
        assert |cs| == 1;
        assert cs == [vs];
        assert cs[1..] == [];
      } else {
        var rest := vs[16..];
        ChunksReassemble(rest);
        ChunksTail(vs);
        assert cs[0] == vs[..16];
        assert vs == vs[..16] + rest;
      }
    }
  }

  /** Dropping the first chunk is chunking what follows the first 16 values. */
  lemma ChunksTail(vs: seq<int>)
    requires |vs| > 16
    ensures Chunks(vs)[1..] == Chunks(vs[16..])
  {
    var cs, rest := Chunks(vs), vs[16..];
    assert |cs[1..]| == |Chunks(rest)|;
    forall k | 0 <= k < |cs[1..]|
      ensures cs[1..][k] == Chunks(rest)[k]
    {
      ChunkShift(vs, k);
    }
  }

  lemma ChunkShift(vs: seq<int>, k: nat)
    requires 16 * (k + 1) < |vs|
    ensures Chunk(vs[16..], k) == Chunk(vs, k + 1)
  {
    var rest := vs[16..];
    assert Min(16 * k + 16, |rest|) + 16 == Min(16 * (k + 1) + 16, |vs|);
    SliceShift(vs, 16, 16 * k, Min(16 * k + 16, |rest|));
  }

  lemma ChunkStart(n: nat, k: nat)
    requires k < ChunkCount(n)
    ensures 16 * k < n
  {
  }

  /** Every value lands in exactly one chunk, at its offset within it. */
  lemma ChunkCovers(vs: seq<int>, p: nat)
    requires p < |vs|
    ensures p / 16 < ChunkCount(|vs|)
    ensures p % 16 < |Chunk(vs, p / 16)| && Chunk(vs, p / 16)[p % 16] == vs[p]
  {
  }

  /** All lines written, in order, as one string. */
  function Concat(lines: seq<string>): string
  {
    if |lines| == 0 then "" else lines[0] + Concat(lines[1..])
  }

  lemma {:induction false} ConcatAppend(a: seq<string>, b: seq<string>)
    ensures Concat(a + b) == Concat(a) + Concat(b)
    decreases |a|
  {
    if |a| == 0 {
      assert a + b == b;
    } else {
      assert (a + b)[1..] == a[1..] + b;
      ConcatAppend(a[1..], b);
    }
  }

  // ---------------------------------------------------------------------------
  // Kernel command line poke (convert_cmdline)
  // ---------------------------------------------------------------------------

  /** The command line used when one of at most one character is given. */
  const DEFAULT_CMDLINE: string := "root=/dev/mtdblock6 console=ttyS0,38400 rootfstype=squashfs"

  /** RAM address the command line is poked to. */
  const CMDLINE_BASE: nat := 0x81f00000

  /** The command line actually poked: the default for a too-short argument,
      then NUL-terminated unless it already ends in NUL. */
  function TerminatedCmdline(cmdline: string): (r: string)
    ensures |r| >= 2 && r[|r| - 1] == '\0'
    ensures |cmdline| <= 1 ==> r == DEFAULT_CMDLINE + "\0"
    ensures |cmdline| > 1 && cmdline[|cmdline| - 1] == '\0' ==> r == cmdline
    ensures |cmdline| > 1 && cmdline[|cmdline| - 1] != '\0' ==> r == cmdline + "\0"
  {
    var c := if |cmdline| <= 1 then DEFAULT_CMDLINE else cmdline;
    if c[|c| - 1] == '\0' then c else c + "\0"
  }

  /** The lines `convert_cmdline` prints. */
  function ConvertCmdline(cmdline: string): seq<string>
  {
    EbLines(CMDLINE_BASE, Ords(TerminatedCmdline(cmdline)))
  }

  /** Value `p` of a poke sequence is carried by line `p / 16`, which pokes
      address `base + 16 * (p / 16)`, as value `p % 16` of that line. */
  lemma EbLinesCarry(base: nat, vs: seq<int>, p: nat)
    requires p < |vs|
    ensures p / 16 < |EbLines(base, vs)|
    ensures EbLines(base, vs)[p / 16] == EbLine(base + 16 * (p / 16), Chunk(vs, p / 16))
    ensures Chunk(vs, p / 16)[p % 16] == vs[p]
  {
    ChunkCovers(vs, p);
  }

  /** Character `p` of the poked command line is carried by line `p / 16`
      as value `p % 16`; the last value poked is the NUL terminator. */
  lemma ConvertCmdlinePokes(cmdline: string, p: nat)
    requires p < |TerminatedCmdline(cmdline)|
    ensures p / 16 < |ConvertCmdline(cmdline)|
    ensures ConvertCmdline(cmdline)[p / 16] == EbLine(CMDLINE_BASE + 16 * (p / 16), Chunk(Ords(TerminatedCmdline(cmdline)), p / 16))
    ensures Chunk(Ords(TerminatedCmdline(cmdline)), p / 16)[p % 16] == TerminatedCmdline(cmdline)[p] as int
    ensures Ords(TerminatedCmdline(cmdline))[|TerminatedCmdline(cmdline)| - 1] == 0
  {
    EbLinesCarry(CMDLINE_BASE, Ords(TerminatedCmdline(cmdline)), p);
  }
}
