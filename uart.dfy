/** The programming loop of `burn_by_uart`: the padded image is poked into
    RAM 16 bytes per `eb` line, and after every further 8 KiB the loop asks
    the flasher to program one page with `NANDW`, then restarts poking at
    a second RAM base. */
module Uart {
  import opened Wrappers
  import opened Bytes
  import opened Text
  import opened Commands
  import opened Serial
  import opened Settings

  /** Bytes the `NANDW` after a page boundary programs. */
  const PAGE: nat := 8192
  /** Chunks of 16 bytes per page. */
  const PAGE_CHUNKS: nat := 512
  /** The RAM base used once the first page has been programmed. */
  const SECOND_BASE: nat := 0x81000000

  /** Iteration `k` (`i == 16 * k`) is followed by a `NANDW`: `i % 8192 == 0`
      and `int(i / 8192) >= 1`. */
  predicate ProgramsPage(k: nat)
  {
    k >= PAGE_CHUNKS && k % PAGE_CHUNKS == 0
  }

  /** The loop's test `i % 8192 == 0 and int(i / 8192) >= 1`. */
  predicate PageBoundary(i: nat)
  {
    i % PAGE == 0 && i / PAGE >= 1
  }

  /** `params['ddr_base']` during iteration `k`. */
  function BaseAt(base0: nat, k: nat): nat
  {
    if k <= PAGE_CHUNKS then base0 else SECOND_BASE
  }

  /** `j` during iteration `k`: it grows by 16 per line and restarts at 0
      after each `NANDW`. */
  function OffsetAt(k: nat): nat
  {
    if k <= PAGE_CHUNKS then 16 * k else 16 * ((k - PAGE_CHUNKS - 1) % PAGE_CHUNKS)
  }

  /** The lines iteration `k` writes; with no offset in `params` the `NANDW`
      raises KeyError right after the `eb` line. */
  function Segment(raw: seq<byte>, offset: Option<nat>, base0: nat, k: nat): seq<Command>
  {
    var eb := Eb(BaseAt(base0, k) + OffsetAt(k), Chunk(raw, k));
    if ProgramsPage(k) && offset.Some? then
      [eb, Nandw(offset.value + 16 * k, BaseAt(base0, k), PAGE), Raw(CONFIRM), Raw(NEWLINE)]
    else [eb]
  }

  /** True when the loop stops with KeyError: no offset, and a page boundary is reached. */
  predicate UartFails(n: nat, offset: Option<nat>)
  {
    offset.None? && ChunkCount(n) > PAGE_CHUNKS
  }

  /** How many iterations run. */
  function Iterations(n: nat, offset: Option<nat>): nat
  {
    if UartFails(n, offset) then PAGE_CHUNKS + 1 else ChunkCount(n)
  }

  /** The lines of the first `k` iterations, in order, iteration `i`
      writing `f(i)`. */
  function WrittenBy(f: nat -> seq<Command>, k: nat): seq<Command>
  {
    if k == 0 then [] else WrittenBy(f, k - 1) + f(k - 1)
  }

  function Written(raw: seq<byte>, offset: Option<nat>, base0: nat, k: nat): seq<Command>
  {
    WrittenBy((i: nat) => Segment(raw, offset, base0, i), k)
  }

  /** After what was logged before, iteration `k` appends its segment. */
  lemma WrittenNext(log0: seq<Command>, raw: seq<byte>, offset: Option<nat>, base0: nat, k: nat)
    ensures log0 + Written(raw, offset, base0, k + 1) == log0 + Written(raw, offset, base0, k) + Segment(raw, offset, base0, k)
  {
    assert Written(raw, offset, base0, k + 1) == Written(raw, offset, base0, k) + Segment(raw, offset, base0, k);
  }

  /** Everything the loop writes to the console. */
  function UartLog(raw: seq<byte>, offset: Option<nat>, base0: nat): seq<Command>
  {
    Written(raw, offset, base0, Iterations(|raw|, offset))
  }

  // ---------------------------------------------------------------------------
  // Index arithmetic
  // ---------------------------------------------------------------------------

  /** `i % 8192 == 0 and int(i / 8192) >= 1` for `i == 16 * k`. */
  lemma PageTest(k: nat)
    ensures (16 * k % PAGE == 0 && 16 * k / PAGE >= 1) <==> ProgramsPage(k)
  {
    var q, r := k / PAGE_CHUNKS, k % PAGE_CHUNKS;
    assert 16 * k == q * PAGE + 16 * r;
    ModOfDecomposition(16 * k, q, 16 * r, PAGE);
  }

  /** How `j` moves from one iteration to the next. */
  lemma OffsetStep(k: nat)
    ensures ProgramsPage(k) ==> OffsetAt(k + 1) == 0
    ensures !ProgramsPage(k) ==> OffsetAt(k + 1) == OffsetAt(k) + 16
  {
    if k > PAGE_CHUNKS {
      var q, r := (k - PAGE_CHUNKS - 1) / PAGE_CHUNKS, (k - PAGE_CHUNKS - 1) % PAGE_CHUNKS;
      if r + 1 < PAGE_CHUNKS {
        ModOfDecomposition(k - PAGE_CHUNKS, q, r + 1, PAGE_CHUNKS);
        ModOfDecomposition(k, q + 1, r + 1, PAGE_CHUNKS);
      } else {
        ModOfDecomposition(k - PAGE_CHUNKS, q + 1, 0, PAGE_CHUNKS);
        ModOfDecomposition(k, q + 2, 0, PAGE_CHUNKS);
      }
    }
  }

  /** Every `eb` line pokes inside the 8 KiB window of the base in use (up
      to the one extra line that lands at `base0 + 8192` before the first
      page is programmed). */
  lemma EbWindow(base0: nat, k: nat)
    ensures k <= PAGE_CHUNKS ==> BaseAt(base0, k) == base0 && OffsetAt(k) <= PAGE
    ensures k > PAGE_CHUNKS ==> BaseAt(base0, k) == SECOND_BASE && OffsetAt(k) < PAGE && OffsetAt(k) % 16 == 0
  {
  }

  /** The first `NANDW` comes after the `eb` of chunk 512, which lands at
      `base0 + 8192`, and programs the 8 KiB at `base0` (chunks 0..511) to
      flash `offset + 8192`. So chunk 512 is poked outside every programmed
      window, and no `NANDW` ever targets flash `offset .. offset + 8191`. */
  lemma FirstPageShifted(raw: seq<byte>, o: nat, base0: nat)
    ensures Segment(raw, Some(o), base0, PAGE_CHUNKS)
         == [Eb(base0 + PAGE, Chunk(raw, PAGE_CHUNKS)), Nandw(o + PAGE, base0, PAGE), Raw(CONFIRM), Raw(NEWLINE)]
    ensures forall k: nat :: ProgramsPage(k) ==> o + 16 * k >= o + PAGE
  {
    assert ProgramsPage(PAGE_CHUNKS);
  }

  // ---------------------------------------------------------------------------
  // What the schedule carries
  // ---------------------------------------------------------------------------

  /** Iteration `k` starts with the `eb` line of chunk `k`, and the two hex
      digits at field `p` of that line's data read back as byte `16 k + p`
      of the image. */
  lemma UartCarries(raw: seq<byte>, offset: Option<nat>, base0: nat, k: nat, p: nat)
    requires k < ChunkCount(|raw|) && p < 16 && 16 * k + p < |raw|
    ensures Render(Segment(raw, offset, base0, k)[0])
         == "eb " + Hex(BaseAt(base0, k) + OffsetAt(k)) + " " + JoinHex(Chunk(raw, k)) + "\n"
    ensures var data := JoinHex(Chunk(raw, k));
      3 * p + 2 <= |data| && IsHexString(data[3 * p..3 * p + 2]) && HexValue(data[3 * p..3 * p + 2]) == raw[16 * k + p]
  {
    var chunk: seq<int> := Chunk(raw, k);
    var cmd := Segment(raw, offset, base0, k)[0];
    assert cmd == Eb(BaseAt(base0, k) + OffsetAt(k), chunk);
    assert Render(cmd) == EbLine(BaseAt(base0, k) + OffsetAt(k), chunk);
    ChunkStart(|raw|, k);
    assert AllBytes(chunk);
    assert p < |chunk| && chunk[p] == raw[16 * k + p] as int;
    JoinHexBytes(chunk, p);
    var data := JoinHex(chunk);
    assert HexValue(data[3 * p..3 * p + 2]) == chunk[p];
  }

  /** A flash-program command. */
  predicate IsNandw(cmd: Command)
  {
    cmd.Nandw?
  }

  /** Among the pokes and flash-program commands, those whose text starts
      with `NANDW ` are exactly the flash-program commands. */
  lemma NandwText(cmd: Command)
    requires cmd.Eb? || cmd.Nandw?
    ensures (|Render(cmd)| >= 6 && Render(cmd)[..6] == "NANDW ") <==> IsNandw(cmd)
  {
    var t := Render(cmd);
    if cmd.Eb? {
      assert t == "eb " + Hex(cmd.addr) + " " + JoinHex(cmd.data) + "\n";
      assert t[0] == 'e';
      if |t| >= 6 { assert t[..6][0] == 'e'; }
    } else {
      assert t == "NANDW " + Hex(cmd.offset) + " " + Hex(cmd.addr) + " " + Hex(cmd.length) + "\n";
      assert t[..6] == "NANDW ";
    }
  }

  function CountNandw(cmds: seq<Command>): nat
  {
    if |cmds| == 0 then 0 else CountNandw(cmds[..|cmds| - 1]) + (if IsNandw(cmds[|cmds| - 1]) then 1 else 0)
  }

  lemma {:induction false} CountNandwAppend(a: seq<Command>, b: seq<Command>)
    ensures CountNandw(a + b) == CountNandw(a) + CountNandw(b)
    decreases |b|
  {
    if |b| == 0 {
      assert a + b == a;
    } else {
      assert (a + b)[..|a + b| - 1] == a + b[..|b| - 1];
      CountNandwAppend(a, b[..|b| - 1]);
    }
  }

  /** A log without flash-program commands counts none. */
  lemma {:induction false} CountNandwNone(cmds: seq<Command>)
    requires forall i :: 0 <= i < |cmds| ==> !IsNandw(cmds[i])
    ensures CountNandw(cmds) == 0
    decreases |cmds|
  {
    if |cmds| > 0 {
      CountNandwNone(cmds[..|cmds| - 1]);
    }
  }

  /** Each iteration holds one `NANDW` exactly when it programs a page. */
  lemma SegmentNandw(raw: seq<byte>, offset: Option<nat>, base0: nat, k: nat)
    requires offset.Some?
    ensures CountNandw(Segment(raw, offset, base0, k)) == if ProgramsPage(k) then 1 else 0
  {
    var s := Segment(raw, offset, base0, k);
    if ProgramsPage(k) {
      assert |s| == 4 && s[3].Raw? && s[2].Raw? && s[1].Nandw? && s[0].Eb?;
      assert s[..3][..2] == s[..2] && s[..2][..1] == s[..1] && s[..1][..0] == [];
      assert CountNandw(s[..1]) == 0;
      assert CountNandw(s[..2]) == 1;
      assert CountNandw(s[..3]) == 1;
    } else {
      assert s[..0] == [];
    }
  }

  /** Page boundaries among the first `m` iterations. */
  function Pages(m: nat): nat
  {
    if m == 0 then 0 else Pages(m - 1) + (if ProgramsPage(m - 1) then 1 else 0)
  }

  lemma {:induction false} PagesClosed(m: nat)
    requires m >= 1
    ensures Pages(m) == (m - 1) / PAGE_CHUNKS
  {
    if m > 1 {
      PagesClosed(m - 1);
      var q, r := (m - 2) / PAGE_CHUNKS, (m - 2) % PAGE_CHUNKS;
      if r + 1 < PAGE_CHUNKS {
        ModOfDecomposition(m - 1, q, r + 1, PAGE_CHUNKS);
      } else {
        ModOfDecomposition(m - 1, q + 1, 0, PAGE_CHUNKS);
      }
    }
  }

  lemma {:induction false} CountWrittenBy(f: nat -> seq<Command>, k: nat)
    requires forall i :: 0 <= i < k ==> CountNandw(f(i)) == if ProgramsPage(i) then 1 else 0
    ensures CountNandw(WrittenBy(f, k)) == Pages(k)
  {
    if k > 0 {
      CountWrittenBy(f, k - 1);
      CountNandwAppend(WrittenBy(f, k - 1), f(k - 1));
    }
  }

  lemma LogNandw(raw: seq<byte>, offset: Option<nat>, base0: nat, k: nat)
    requires offset.Some?
    ensures CountNandw(Written(raw, offset, base0, k)) == Pages(k)
  {
    var f := (i: nat) => Segment(raw, offset, base0, i);
    forall i | 0 <= i < k
      ensures CountNandw(f(i)) == if ProgramsPage(i) then 1 else 0
    {
      SegmentNandw(raw, offset, base0, i);
    }
    CountWrittenBy(f, k);
  }

  /** For an image of `n >= 1` bytes the loop writes one `eb` line per 16-byte
      chunk and `ceil(n / 8192) - 1` `NANDW` commands. */
  lemma UartCounts(raw: seq<byte>, offset: Option<nat>, base0: nat)
    requires offset.Some? && |raw| >= 1
    ensures Iterations(|raw|, offset) == (|raw| + 15) / 16
    ensures CountNandw(UartLog(raw, offset, base0)) == (|raw| - 1) / PAGE
  {
    var n := |raw|;
    LogNandw(raw, offset, base0, ChunkCount(n));
    PagesClosed(ChunkCount(n));
    var a, rem := (n - 1) / PAGE, (n - 1) % PAGE;
    var b, c := rem / 16, rem % 16;
    assert n + 15 == (PAGE_CHUNKS * a + b + 1) * 16 + c;
    ModOfDecomposition(n + 15, PAGE_CHUNKS * a + b + 1, c, 16);
    ModOfDecomposition(PAGE_CHUNKS * a + b, a, b, PAGE_CHUNKS);
  }

  // ---------------------------------------------------------------------------
  // The loop
  // ---------------------------------------------------------------------------

  /** How the loop's variables move from iteration `k` to `k + 1`. */
  lemma LoopStep(base0: nat, k: nat)
    ensures PageBoundary(16 * k) <==> ProgramsPage(k)
    ensures ProgramsPage(k) ==> OffsetAt(k + 1) == 0 && BaseAt(base0, k + 1) == SECOND_BASE
    ensures !ProgramsPage(k) ==> OffsetAt(k + 1) == OffsetAt(k) + 16 && BaseAt(base0, k + 1) == BaseAt(base0, k)
  {
    PageTest(k);
    OffsetStep(k);
  }

  /** Chunk `k` is the slice `raw[i:i+16]` the loop reads at `i == 16 * k`. */
  lemma ChunkSlice(raw: seq<byte>, k: nat, i: nat)
    requires i == 16 * k && i < |raw|
    ensures Chunk(raw, k) == raw[i..Min(i + 16, |raw|)]
  {
  }

  /** An iteration the loop enters is one of those that run, and the last
      one allowed before a KeyError is at a page boundary. */
  lemma LoopGuard(n: nat, offset: Option<nat>, k: nat)
    requires 16 * k < n && k <= Iterations(n, offset)
    requires UartFails(n, offset) ==> k <= PAGE_CHUNKS
    ensures k < Iterations(n, offset)
    ensures UartFails(n, offset) && k == PAGE_CHUNKS ==> ProgramsPage(k)
  {
  }

  /** One pass of the loop body, at `i == 16 * k` with `j` the running RAM
      offset; `false` is the KeyError of a missing `offset` at a page. */
  method ProgramChunk(c: Console, p: Params, raw: seq<byte>, i: nat, j: nat, ghost base0: nat, ghost k: nat)
      returns (next: nat, ok: bool)
    requires i == 16 * k && k < Iterations(|raw|, p.offset)
    requires p.ddrBase == Some(BaseAt(base0, k)) && j == OffsetAt(k)
    modifies c`log, p`ddrBase
    ensures c.log == old(c.log) + Segment(raw, p.offset, base0, k)
    ensures ok == !(ProgramsPage(k) && p.offset.None?)
    ensures ok ==> p.ddrBase == Some(BaseAt(base0, k + 1)) && next == OffsetAt(k + 1)
    ensures !ok ==> p.ddrBase == old(p.ddrBase)
  {
    ChunkStart(|raw|, k);
    LoopStep(base0, k);
    ChunkSlice(raw, k, i);
    c.Write(Eb(p.ddrBase.value + j, raw[i..Min(i + 16, |raw|)]));
    next := j + 16;
    if PageBoundary(i) {
      if p.offset.None? {
        return next, false;
      }
      c.Write(Nandw(p.offset.value + i, p.ddrBase.value, PAGE));
      c.Write(Raw(CONFIRM));
      c.Write(Raw(NEWLINE));
      p.ddrBase := Some(SECOND_BASE);
      next := 0;
    }
    ok := true;
  }

  /** The `for i in range(0, len(raw), 16)` loop of `burn_by_uart` over the
      padded image `raw`, through `params`; `false` is the KeyError of a
      missing `ddr_base` or `offset`. */
  method ProgramByEb(c: Console, p: Params, raw: seq<byte>) returns (ok: bool)
    modifies c`log, p`ddrBase
    ensures old(p.ddrBase).None? ==> ok == (|raw| == 0) && c.log == old(c.log) && p.ddrBase == old(p.ddrBase)
    ensures old(p.ddrBase).Some? ==>
      ok == !UartFails(|raw|, old(p.offset))
      && c.log == old(c.log) + UartLog(raw, old(p.offset), old(p.ddrBase).value)
      && p.ddrBase == Some(BaseAt(old(p.ddrBase).value, if ok then Iterations(|raw|, old(p.offset)) else PAGE_CHUNKS))
  {
    if p.ddrBase.None? {
      return |raw| == 0;
    }
    ok := ProgramFrom(c, p, raw, p.ddrBase.value);
  }

  /** The loop itself, once `params['ddr_base']` holds `base0`. */
  method ProgramFrom(c: Console, p: Params, raw: seq<byte>, ghost base0: nat) returns (ok: bool)
    requires p.ddrBase == Some(base0)
    modifies c`log, p`ddrBase
    ensures ok == !UartFails(|raw|, p.offset)
    ensures c.log == old(c.log) + UartLog(raw, p.offset, base0)
    ensures p.ddrBase == Some(BaseAt(base0, if ok then Iterations(|raw|, p.offset) else PAGE_CHUNKS))
  {
    ghost var offset := p.offset;
    ghost var log0 := c.log;
    var j := 0;
    var i := 0;
    ghost var k := 0;
    while i < |raw|
      invariant i == 16 * k && k <= Iterations(|raw|, offset)
      invariant p.ddrBase == Some(BaseAt(base0, k)) && j == OffsetAt(k)
      invariant c.log == log0 + Written(raw, offset, base0, k)
      invariant UartFails(|raw|, offset) ==> k <= PAGE_CHUNKS
      decreases |raw| - i
    {
      LoopGuard(|raw|, offset, k);
      var more;
      j, more := ProgramChunk(c, p, raw, i, j, base0, k);
      WrittenNext(log0, raw, offset, base0, k);
      if !more {
        assert k + 1 == Iterations(|raw|, offset);
        assert c.log == log0 + UartLog(raw, offset, base0);
        return false;
      }
      i := i + 16;
      k := k + 1;
    }
    assert k == Iterations(|raw|, offset);
    assert c.log == log0 + UartLog(raw, offset, base0);
    return true;
  }
}
