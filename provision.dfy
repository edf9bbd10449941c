/** The burning tool above the formats: the partition table and transport
    dispatch of `burn_firmware`, `burn_all_firmwares` for a full container,
    and the three burn functions `burn_by_uart`, `burn_by_xmodem` and
    `burn_by_tftp` with the console commands each of them writes. */
module Provision {
  import opened Wrappers
  import opened Bytes
  import opened Text
  import opened Commands
  import opened Checksum
  import opened Container
  import opened Serial
  import opened Settings
  import opened Uart

  // ---------------------------------------------------------------------------
  // Partition table (firmware_info of burn_firmware)
  // ---------------------------------------------------------------------------

  /** Flash offset of every partition type the tool knows, in declared order. */
  const FIRMWARE_INFO: seq<(string, nat)> := [
    ("bootloader", 0x00000000), ("boot_info", 0x000a0000), ("factory", 0x000c0000),
    ("mtd_oops", 0x000e0000), ("bbt", 0x00100000), ("linux_0", 0x00200000),
    ("rootfs_0", 0x00500000), ("linux_1", 0x01e00000), ("rootfs_1", 0x02100000),
    ("homekit", 0x03a00000), ("AppData", 0x03b00000), ("resvered_bb", 0x7320000)]

  /** `dict.get(key)` over a table of entries: the value of the first entry
      with exactly that key. */
  function DictGet(table: seq<(string, nat)>, key: string): (r: Option<nat>)
    ensures r.None? <==> forall i :: 0 <= i < |table| ==> table[i].0 != key
    ensures r.Some? ==> exists i :: 0 <= i < |table| && table[i] == (key, r.value)
                                      && forall j :: 0 <= j < i ==> table[j].0 != key
  {
    if |table| == 0 then None
    else if table[0].0 == key then Some(table[0].1)
    else
      var r := DictGet(table[1..], key);
      assert forall i :: 1 <= i < |table| ==> table[i] == table[1..][i - 1];
      if r.Some? then
        var i :| 0 <= i < |table[1..]| && table[1..][i] == (key, r.value)
                 && forall j :: 0 <= j < i ==> table[1..][j].0 != key;
        assert table[i + 1] == (key, r.value);
        r
      else r
  }

  /** `firmware_info.get(fwtype)`; `None` is the `'0'` default. */
  function PartitionOffset(fwtype: string): Option<nat>
  {
    DictGet(FIRMWARE_INFO, fwtype)
  }

  /** The names of the table. */
  const PARTITION_TYPES: seq<string> := [
    "bootloader", "boot_info", "factory", "mtd_oops", "bbt", "linux_0",
    "rootfs_0", "linux_1", "rootfs_1", "homekit", "AppData", "resvered_bb"]

  /** A type is known exactly when it is one of the twelve names, and each
      name has the offset declared beside it; the bootloader is known although
      its offset is 0, because the test against the default compares strings. */
  lemma PartitionOffsetKnown(fwtype: string)
    ensures PartitionOffset(fwtype).Some? <==> fwtype in PARTITION_TYPES
    ensures PartitionOffset(fwtype).Some? ==>
      exists i :: 0 <= i < |FIRMWARE_INFO| && FIRMWARE_INFO[i] == (fwtype, PartitionOffset(fwtype).value)
    ensures PartitionOffset("bootloader") == Some(0)
  {
    assert forall i :: 0 <= i < |FIRMWARE_INFO| ==> FIRMWARE_INFO[i].0 == PARTITION_TYPES[i];
    if fwtype in PARTITION_TYPES {
      var i :| 0 <= i < |PARTITION_TYPES| && PARTITION_TYPES[i] == fwtype;
      assert FIRMWARE_INFO[i].0 == fwtype;
    }
    assert FIRMWARE_INFO[0] == ("bootloader", 0);
  }

  /** `firmware_info.get(name, '0')` read by `int(_, 0)`: a missing key is offset 0. */
  function OffsetOrZero(name: string): nat
  {
    PartitionOffset(name).GetOr(0)
  }

  /** The kernel and rootfs offsets `burn_firmware` sets for a full
      container of type `fwtype`: those of `linux<fwtype[-2:]>` and
      `rootfs<fwtype[-2:]>`. */
  function ContainerOffsets(fwtype: string): (nat, nat)
  {
    (OffsetOrZero("linux" + Last2(fwtype)), OffsetOrZero("rootfs" + Last2(fwtype)))
  }

  /** The first entry with the key gives the lookup its value. */
  lemma DictGetAt(table: seq<(string, nat)>, key: string, i: nat)
    requires i < |table| && table[i].0 == key && forall j :: 0 <= j < i ==> table[j].0 != key
    ensures DictGet(table, key) == Some(table[i].1)
  {
  }

  /** Two names that differ in length, first or last character. */
  predicate Distinguishable(n: string, name: string)
  {
    |n| != |name| || (|n| > 0 && (n[0] != name[0] || n[|n| - 1] != name[|name| - 1]))
  }

  /** The entry of the table that `name` finds, when every earlier entry is
      distinguishable from it. */
  lemma PartitionOffsetAt(name: string, i: nat)
    requires i < |FIRMWARE_INFO| && FIRMWARE_INFO[i].0 == name
    requires forall j :: 0 <= j < i ==> Distinguishable(FIRMWARE_INFO[j].0, name)
    ensures PartitionOffset(name) == Some(FIRMWARE_INFO[i].1)
  {
    DictGetAt(FIRMWARE_INFO, name, i);
  }

  /** `all_0` and `all_1` select the two slots. */
  lemma ContainerOffsetsOfSlots(fwtype: string)
    requires |fwtype| >= 2 && (Last2(fwtype) == "_0" || Last2(fwtype) == "_1")
    ensures Last2(fwtype) == "_0" ==> ContainerOffsets(fwtype) == (0x00200000, 0x00500000)
    ensures Last2(fwtype) == "_1" ==> ContainerOffsets(fwtype) == (0x01e00000, 0x02100000)
  {
    var s := Last2(fwtype);
    var kernel, rootfs := "linux" + s, "rootfs" + s;
    var k, r := if s == "_0" then 5 else 7, if s == "_0" then 6 else 8;
    assert FIRMWARE_INFO[k].0 == kernel && FIRMWARE_INFO[r].0 == rootfs;
    assert |kernel| == 7 && kernel[0] == 'l' && kernel[6] == s[1];
    assert |rootfs| == 8 && rootfs[0] == 'r' && rootfs[7] == s[1];
    forall j | 0 <= j < r
      ensures Distinguishable(FIRMWARE_INFO[j].0, rootfs)
      ensures j < k ==> Distinguishable(FIRMWARE_INFO[j].0, kernel)
    {
    }
    PartitionOffsetAt(kernel, k);
    PartitionOffsetAt(rootfs, r);
  }

  /** Any other suffix selects flash offset 0, the bootloader, for both images. */
  lemma ContainerOffsetsOther(fwtype: string)
    requires |fwtype| >= 2 && Last2(fwtype) != "_0" && Last2(fwtype) != "_1"
    ensures ContainerOffsets(fwtype) == (0, 0)
  {
    var s := Last2(fwtype);
    var kernel, rootfs := "linux" + s, "rootfs" + s;
    assert |kernel| == 7 && kernel[0] == 'l' && kernel[5..] == s;
    assert |rootfs| == 8 && rootfs[0] == 'r' && rootfs[6..] == s;
    forall j | 0 <= j < |FIRMWARE_INFO|
      ensures FIRMWARE_INFO[j].0 != kernel && FIRMWARE_INFO[j].0 != rootfs
    {
      var name := FIRMWARE_INFO[j].0;
      if j == 5 || j == 7 {
        assert name[5..] != kernel[5..];
      } else if j == 6 || j == 8 {
        assert name[6..] != rootfs[6..];
      } else {
        assert Distinguishable(name, kernel) && Distinguishable(name, rootfs);
      }
    }
  }

  // ---------------------------------------------------------------------------
  // Boot-info update (update_boot_info)
  // ---------------------------------------------------------------------------

  /** `fw_type.replace('_', '').replace('linux', 'kernel')`. */
  function SlotName(fwtype: string): string
  {
    ReplaceAll(ReplaceAll(fwtype, "_", ""), "linux", "kernel")
  }

  /** The two `boot_ctrl` commands: the size (in decimal) and sum of the new
      image for its slot, then the slot to boot, `fw_type[:-1]` and `fw_type[-1:]`. */
  function BootCtrlLines(fwtype: string, sum: string, size: nat): seq<Command>
  {
    [Raw("boot_ctrl set_" + SlotName(fwtype) + " " + Decimal(size) + " " + sum + "\n"),
     Raw("boot_ctrl set_" + DropLast(fwtype) + "_newest " + LastChar(fwtype) + "\n")]
  }

  /** A replacement that introduces no `c` keeps a string free of `c`. */
  lemma {:induction false} ReplaceAllKeepsOut(s: string, pattern: string, replacement: string, c: char)
    requires |pattern| > 0 && c !in s && c !in replacement
    ensures c !in ReplaceAll(s, pattern, replacement)
    decreases |s|
  {
    if |s| >= |pattern| {
      if s[..|pattern|] == pattern {
        ReplaceAllKeepsOut(s[|pattern|..], pattern, replacement, c);
      } else {
        ReplaceAllKeepsOut(s[1..], pattern, replacement, c);
      }
    }
  }

  /** The slot of the first command has no underscore, and the second command
      splits the type back into all but its last character and that character. */
  lemma BootCtrlShape(fwtype: string, sum: string, size: nat)
    requires |fwtype| >= 1
    ensures '_' !in SlotName(fwtype)
    ensures BootCtrlLines(fwtype, sum, size)[1].text
         == "boot_ctrl set_" + fwtype[..|fwtype| - 1] + "_newest " + [fwtype[|fwtype| - 1]] + "\n"
  {
    ReplaceAllRemoves(fwtype);
    ReplaceAllKeepsOut(ReplaceAll(fwtype, "_", ""), "linux", "kernel", '_');
  }

  /** A pattern with a character the string lacks is never replaced. */
  lemma {:induction false} ReplaceAllAbsent(s: string, pattern: string, replacement: string, c: char)
    requires |pattern| > 0 && c in pattern && c !in s
    ensures ReplaceAll(s, pattern, replacement) == s
    decreases |s|
  {
    if |s| >= |pattern| {
      assert s[..|pattern|] != pattern by {
        var i :| 0 <= i < |pattern| && pattern[i] == c;
        assert s[..|pattern|][i] == s[i];
      }
      ReplaceAllAbsent(s[1..], pattern, replacement, c);
      assert [s[0]] + s[1..] == s;
    }
  }

  /** Deleting underscores around one underscore deletes it and works on both sides. */
  lemma {:induction false} ReplaceAllSplit(a: string, b: string)
    ensures ReplaceAll(a + "_" + b, "_", "") == ReplaceAll(a, "_", "") + ReplaceAll(b, "_", "")
    decreases |a|
  {
    var s := a + "_" + b;
    if |a| == 0 {
      assert s[..1] == "_" && s[1..] == b;
    } else {
      ReplaceAllSplit(a[1..], b);
      assert s[..1] == a[..1] && s[1..] == a[1..] + "_" + b && s[0] == a[0];
    }
  }

  /** Dropping the underscore of a slot suffix `_N` after a name without one. */
  lemma StripSuffixUnderscore(name: string, suffix: string)
    requires '_' !in name && |suffix| == 2 && suffix[0] == '_' && suffix[1] != '_'
    ensures ReplaceAll(name + suffix, "_", "") == name + suffix[1..]
  {
    var digit := suffix[1..];
    assert name + suffix == name + "_" + digit;
    ReplaceAllSplit(name, digit);
    ReplaceAllAbsent(name, "_", "", '_');
    ReplaceAllAbsent(digit, "_", "", '_');
  }

  /** A digit suffix: `_0`, `_1`, ... */
  predicate SlotSuffix(suffix: string)
  {
    |suffix| == 2 && suffix[0] == '_' && '0' <= suffix[1] <= '9'
  }

  /** `linux_N` and `kernel_N` both name boot slot `kernelN`. */
  lemma SlotNameKernel(suffix: string)
    requires SlotSuffix(suffix)
    ensures SlotName("linux" + suffix) == "kernel" + suffix[1..]
    ensures SlotName("kernel" + suffix) == "kernel" + suffix[1..]
  {
    var digit := suffix[1..];
    StripSuffixUnderscore("linux", suffix);
    StripSuffixUnderscore("kernel", suffix);
    var l := "linux" + digit;
    assert l[..5] == "linux" && l[5..] == digit;
    ReplaceAllAbsent(digit, "linux", "kernel", 'l');
    ReplaceAllAbsent("kernel" + digit, "linux", "kernel", 'i');
  }

  /** `rootfs_N` names boot slot `rootfsN`. */
  lemma SlotNameRootfs(suffix: string)
    requires SlotSuffix(suffix)
    ensures SlotName("rootfs" + suffix) == "rootfs" + suffix[1..]
  {
    StripSuffixUnderscore("rootfs", suffix);
    ReplaceAllAbsent("rootfs" + suffix[1..], "linux", "kernel", 'l');
  }

  /** The slot to boot is written with `fw_type[:-1]`, so the command for
      `kernel_N` reads `set_kernel__newest N`, with two underscores. */
  lemma NewestCommand(name: string, suffix: string, sum: string, size: nat)
    requires SlotSuffix(suffix)
    ensures BootCtrlLines(name + suffix, sum, size)[1]
      == Raw("boot_ctrl set_" + name + "__newest " + suffix[1..] + "\n")
  {
    var t := name + suffix;
    assert DropLast(t) == name + "_" && LastChar(t) == suffix[1..];
  }

  /** `update_boot_info`: the two commands written one after the other. */
  method UpdateBootInfo(c: Console, fwtype: string, sum: string, size: nat)
    modifies c`log
    ensures c.log == old(c.log) + BootCtrlLines(fwtype, sum, size)
  {
    var lines := BootCtrlLines(fwtype, sum, size);
    c.Write(lines[0]);
    c.Write(lines[1]);
    assert c.log == old(c.log) + [lines[0]] + [lines[1]];
    assert [lines[0]] + [lines[1]] == lines;
  }

  // ---------------------------------------------------------------------------
  // How a burn ends
  // ---------------------------------------------------------------------------

  /** How a burn function ends: it returns (`ok` is the truth of what it
      returns), it blocks because the lines ran out while it waits for the
      console, or it raises (KeyError on a missing entry of `params`,
      IndexError in the checksum of an odd-length image, ValueError on a
      length read past the end of a container). */
  datatype Status = Done(ok: bool) | Blocked | Raised

  /** A stretch of a session: how it ends, what it writes, the lines left unread. */
  datatype Run = Run(status: Status, log: seq<Command>, rest: seq<string>)

  /** A whole burn: its run and the entries of `params` afterwards. */
  datatype Burn = Burn(run: Run, params: Entries)

  /** `a` followed by `b`: `b` starts on the lines `a` left. */
  function Then(a: Run, b: Run): Run
  {
    Run(b.status, a.log + b.log, b.rest)
  }

  /** The console after `r`, on a log that held `log0` before it. */
  function After(log0: seq<Command>, r: Run): Run
  {
    Run(r.status, log0 + r.log, r.rest)
  }

  /** `After`, for a whole burn. */
  function AfterBurn(log0: seq<Command>, b: Burn): Burn
  {
    Burn(After(log0, b.run), b.params)
  }

  /** What a log grows to over two stretches. */
  lemma ThenLog(log0: seq<Command>, a: Run, b: Run)
    ensures log0 + a.log + b.log == log0 + Then(a, b).log
  {
  }

  lemma Appended(log0: seq<Command>, a: seq<Command>, b: seq<Command>)
    ensures log0 + a + b == log0 + (a + b)
  {
  }

  /** The lines after the first one holding the prompt, as
      `wait_for_realtek_cli` leaves them. */
  function AfterPrompt(lines: seq<string>): (r: Option<seq<string>>)
    ensures r.Some? ==> |r.value| < |lines| && r.value == lines[|lines| - |r.value|..]
                        && Contains(lines[|lines| - |r.value| - 1], CLI_PROMPT)
  {
    match WaitCli(lines)
    case None => None
    case Some(m) => Some(lines[m + 1..])
  }

  /** `wait_for_realtek_cli`, stated on `AfterPrompt`. */
  method AwaitPrompt(c: Console) returns (found: bool)
    modifies c
    ensures found == AfterPrompt(old(c.input)).Some?
    ensures c.input == (if found then AfterPrompt(old(c.input)).value else [])
    ensures c.log == old(c.log)
  {
    found := WaitForRealtekCli(c);
  }

  /** `console.read(console.in_waiting)` after a transfer: the next line,
      empty once the lines have run out. */
  function NextLine(lines: seq<string>): (string, seq<string>)
  {
    if lines == [] then ("", []) else (lines[0], lines[1..])
  }

  // ---------------------------------------------------------------------------
  // The common preamble: unwrap, then pad
  // ---------------------------------------------------------------------------

  /** How a failed `generate_padded_firmware` ends the burn. */
  function PadStatus(e: PadError): Status
  {
    if e == OddLength2 then Raised else Done(false)
  }

  /** `generate_padded_firmware`: the checksum loop, then the 0xFF padding. */
  method GeneratePaddedFirmware(raw: seq<byte>) returns (r: Result<seq<byte>, PadError>)
    ensures r == PaddedFirmware(raw)
  {
    var sum := CalcChecksumOfFirmware(raw);
    if sum.None? {
      return Err(OddLength2);
    }
    if sum.value >= 1 {
      return Err(NotRaw);
    }
    r := Ok(raw + Fill(0xFF, PadCount(|raw|, ERASE_BLOCK)));
  }

  /** The unwrap step and the padding that open every burn function. */
  method Prepare(p: Params, file: seq<byte>) returns (raw: seq<byte>, padded: Result<seq<byte>, PadError>)
    modifies p`fwfile
    ensures (p.fwfile, raw) == Unwrap(old(p.fwfile), file)
    ensures padded == PaddedFirmware(raw)
  {
    if IsWrapped(file) {
      p.fwfile := p.fwfile + "_raw";
      raw := Strip16(file);
    } else {
      raw := file;
    }
    padded := GeneratePaddedFirmware(raw);
  }

  // ---------------------------------------------------------------------------
  // Starting the flasher from the ROM console
  // ---------------------------------------------------------------------------

  /** Load the flasher into RAM at 0xa0000000. */
  const XMRX: string := "xmrx 0xa0000000\n"
  /** Jump into the loaded flasher. */
  const JUMP: string := "j a0000000\n"
  /** The newlines `burn_by_uart` sends after `xmrx`. */
  const UART_KICK: string := "\n\n\n\n\n"

  function Kick(kick: Option<string>): seq<Command>
  {
    if kick.Some? then [Raw(kick.value)] else []
  }

  /** The flasher download of a burn not yet in the flasher: the ROM console
      handshake, then `xmrx`, the transport's `kick` if any, and the jump.
      The XMODEM transfer of `flasher.bin` in between writes no command. */
  function FlasherSession(lines: seq<string>, pending: nat, kick: Option<string>): Run
  {
    var s := BootromSession(lines, pending);
    match s.0
    case NotReady => Run(Done(false), s.1, s.2)
    case Hung => Run(Blocked, s.1, s.2)
    case Ready => Run(Done(true), s.1 + ([Raw(XMRX)] + Kick(kick) + [Raw(JUMP)]), s.2)
  }

  /** The flasher is started exactly when the ROM console handshake succeeds,
      the download fails exactly when boot text came first, having written
      nothing but wake-up keys, and a started
      flasher was sent the four ready commands, `xmrx`, the kick and the jump,
      in that order, after the wake-up keys. */
  lemma FlasherSessionSpec(lines: seq<string>, pending: nat, kick: Option<string>)
    ensures FlasherSession(lines, pending, kick).status == Done(true) <==> BootromSession(lines, pending).0 == Ready
    ensures FlasherSession(lines, pending, kick).status == Done(false) <==>
      exists k :: 0 <= k < |lines| && UndecidedBefore(lines, k) && IsBootText(lines[k])
    ensures FlasherSession(lines, pending, kick).status == Done(false) ==>
      forall i :: 0 <= i < |FlasherSession(lines, pending, kick).log| ==> FlasherSession(lines, pending, kick).log[i] == Raw("u")
    ensures FlasherSession(lines, pending, kick).status == Done(true) ==>
      var w := FlasherSession(lines, pending, kick).log;
      var tail := READY_COMMANDS + [Raw(XMRX)] + Kick(kick) + [Raw(JUMP)];
      |w| >= |tail| + 2 && w[|w| - |tail|..] == tail && forall i :: 0 <= i < |w| - |tail| ==> w[i] == Raw("u")
  {
    SessionFailsIff(lines, pending);
    SessionWrites(lines, pending);
    var s := BootromSession(lines, pending);
    if s.0 == Ready {
      var w := FlasherSession(lines, pending, kick).log;
      var tail := READY_COMMANDS + [Raw(XMRX)] + Kick(kick) + [Raw(JUMP)];
      var ups := s.1[..|s.1| - 4];
      assert s.1 == ups + READY_COMMANDS;
      assert w == ups + tail;
    }
  }

  /** The flasher download of the three burn functions. */
  method DownloadFlasher(c: Console, pending: nat, kick: Option<string>) returns (status: Status)
    modifies c
    ensures Run(status, c.log, c.input) == After(old(c.log), FlasherSession(old(c.input), pending, kick))
  {
    ghost var log0 := c.log;
    var outcome := EnterBootromConsole(c, pending);
    if outcome == NotReady {
      return Done(false);
    }
    if outcome == Hung {
      return Blocked;
    }
    ghost var log1 := c.log;
    c.Write(Raw(XMRX));
    if kick.Some? {
      c.Write(Raw(kick.value));
    }
    c.Write(Raw(JUMP));
    assert c.log == log1 + ([Raw(XMRX)] + Kick(kick) + [Raw(JUMP)]);
    status := Done(true);
  }

  /** A burn function's start: nothing when `in_flasher`, the flasher
      download otherwise. */
  function StartFlasher(inFlasher: bool, lines: seq<string>, pending: nat, kick: Option<string>): Run
  {
    if inFlasher then Run(Done(true), [], lines) else FlasherSession(lines, pending, kick)
  }

  method EnsureFlasher(c: Console, inFlasher: bool, pending: nat, kick: Option<string>) returns (status: Status)
    modifies c
    ensures Run(status, c.log, c.input) == After(old(c.log), StartFlasher(inFlasher, old(c.input), pending, kick))
  {
    if inFlasher {
      return Done(true);
    }
    status := DownloadFlasher(c, pending, kick);
  }

  // ---------------------------------------------------------------------------
  // burn_by_xmodem
  // ---------------------------------------------------------------------------

  /** What `burn_by_xmodem` writes to wake the flasher. */
  const XMODEM_KICK: string := "\n\n"
  /** What the flasher reports once it has received an XMODEM transfer. */
  const RX_REPORT: string := "Rx len="

  /** The transfer to the flasher: the kick, the prompt, `xmod <ddr_base>`,
      then the flasher's report; `Done(true)` when it reports the reception. */
  function XmodemSend(e: Entries, lines: seq<string>): (r: Run)
    ensures r.status == Done(true) ==> e.ddrBase.Some?
  {
    var kick := [Raw(XMODEM_KICK)];
    match AfterPrompt(lines)
    case None => Run(Blocked, kick, [])
    case Some(rest) =>
      if e.ddrBase.None? then Run(Raised, kick, rest)
      else
        var reply := NextLine(rest);
        Run(Done(Contains(reply.0, RX_REPORT)), kick + [Raw("xmod " + Hex(e.ddrBase.value) + "\n")], reply.1)
  }

  /** After the transfer: program `size` bytes at `offset` from `ddr_base`,
      confirm, wait for the prompt, then update the boot info with the sum
      of the unpadded image `raw`. */
  function XmodemProgram(e: Entries, raw: seq<byte>, size: nat, lines: seq<string>): Run
  {
    if e.offset.None? || e.ddrBase.None? then Run(Raised, [], lines)
    else
      var programmed := [Nandw(e.offset.value, e.ddrBase.value, size), Raw(CONFIRM)];
      match AfterPrompt(lines)
      case None => Run(Blocked, programmed, [])
      case Some(rest) => Run(Done(true), programmed + BootCtrlLines(e.fwtype, SumLabel(e.fwfile, raw), size), rest)
  }

  /** `burn_by_xmodem` once the flasher runs. */
  function XmodemFlash(e: Entries, raw: seq<byte>, size: nat, lines: seq<string>): Run
  {
    var s := XmodemSend(e, lines);
    if s.status != Done(true) then s else Then(s, XmodemProgram(e, raw, size, s.rest))
  }

  /** The whole of `burn_by_xmodem` on the contents `file` of `params['fwfile']`. */
  function XmodemBurn(e: Entries, file: seq<byte>, inFlasher: bool, lines: seq<string>, pending: nat): Burn
  {
    var u := Unwrap(e.fwfile, file);
    var e' := e.(fwfile := u.0);
    match PaddedFirmware(u.1)
    case Err(err) => Burn(Run(PadStatus(err), [], lines), e')
    case Ok(padded) =>
      var f := StartFlasher(inFlasher, lines, pending, None);
      if f.status != Done(true) then Burn(f, e')
      else Burn(Then(f, XmodemFlash(e', u.1, |padded|, f.rest)), e')
  }

  method XmodemSendStep(c: Console, p: Params) returns (status: Status)
    modifies c
    ensures Run(status, c.log, c.input) == After(old(c.log), XmodemSend(p.Value(), old(c.input)))
  {
    c.Write(Raw(XMODEM_KICK));
    var found := AwaitPrompt(c);
    if !found {
      return Blocked;
    }
    if p.ddrBase.None? {
      return Raised;
    }
    c.Write(Raw("xmod " + Hex(p.ddrBase.value) + "\n"));
    var line := c.ReadLine();
    var reply := if line.Some? then line.value else "";
    status := Done(Contains(reply, RX_REPORT));
  }

  method XmodemProgramStep(c: Console, p: Params, raw: seq<byte>, size: nat) returns (status: Status)
    modifies c
    ensures Run(status, c.log, c.input) == After(old(c.log), XmodemProgram(p.Value(), raw, size, old(c.input)))
  {
    if p.offset.None? || p.ddrBase.None? {
      return Raised;
    }
    ghost var e := p.Value();
    var programmed := [Nandw(p.offset.value, p.ddrBase.value, size), Raw(CONFIRM)];
    c.Write(programmed[0]);
    c.Write(programmed[1]);
    assert c.log == old(c.log) + programmed;
    var found := AwaitPrompt(c);
    if !found {
      return Blocked;
    }
    var sum := CalcSumOfFirmware(p.fwfile, raw);
    UpdateBootInfo(c, p.fwtype, sum, size);
    Appended(old(c.log), programmed, BootCtrlLines(p.fwtype, sum, size));
    assert AfterPrompt(old(c.input)).Some? && e.offset.Some? && e.ddrBase.Some?;
    assert XmodemProgram(e, raw, size, old(c.input)) == Run(Done(true), programmed + BootCtrlLines(e.fwtype, sum, size), c.input);
    status := Done(true);
  }

  /** `burn_by_xmodem` once the flasher runs. */
  method XmodemInFlasher(c: Console, p: Params, raw: seq<byte>, size: nat) returns (status: Status)
    modifies c
    ensures Run(status, c.log, c.input) == After(old(c.log), XmodemFlash(p.Value(), raw, size, old(c.input)))
  {
    ghost var s := XmodemSend(p.Value(), c.input);
    status := XmodemSendStep(c, p);
    if status != Done(true) {
      return;
    }
    ghost var t := XmodemProgram(p.Value(), raw, size, c.input);
    ThenLog(old(c.log), s, t);
    status := XmodemProgramStep(c, p, raw, size);
  }

  /** `burn_by_xmodem(params, in_flasher)` on the contents `file` of
      `params['fwfile']`, `pending` lines buffered when the ROM console is drained. */
  method BurnByXmodem(c: Console, p: Params, file: seq<byte>, inFlasher: bool, pending: nat) returns (status: Status)
    modifies c, p`fwfile
    ensures Burn(Run(status, c.log, c.input), p.Value()) == AfterBurn(old(c.log), XmodemBurn(old(p.Value()), file, inFlasher, old(c.input), pending))
  {
    var raw, padded := Prepare(p, file);
    if padded.Err? {
      return PadStatus(padded.error);
    }
    ghost var f := StartFlasher(inFlasher, c.input, pending, None);
    status := EnsureFlasher(c, inFlasher, pending, None);
    if status != Done(true) {
      return;
    }
    ghost var t := XmodemFlash(p.Value(), raw, |padded.value|, c.input);
    ThenLog(old(c.log), f, t);
    status := XmodemInFlasher(c, p, raw, |padded.value|);
  }

  // ---------------------------------------------------------------------------
  // burn_by_tftp
  // ---------------------------------------------------------------------------

  /** The fetch of `burn_by_tftp`: `<basename>_padding` to `ddr_base`, then
      the prompt. */
  function TftpFetch(e: Entries, lines: seq<string>): (r: Run)
    ensures r.status == Done(true) ==> e.ddrBase.Some?
  {
    if e.ddrBase.None? then Run(Raised, [], lines)
    else
      var fetch := [Raw("tftp " + Hex(e.ddrBase.value) + " " + Basename(e.fwfile) + "_padding\n")];
      match AfterPrompt(lines)
      case None => Run(Blocked, fetch, [])
      case Some(rest) => Run(Done(true), fetch, rest)
  }

  /** After the fetch: program the size of the unpadded image `raw` at
      `offset` from `ddr_base`, and confirm. */
  function TftpProgram(e: Entries, raw: seq<byte>, lines: seq<string>): Run
  {
    if e.offset.None? || e.ddrBase.None? then Run(Raised, [], lines)
    else Run(Done(true), [Nandw(e.offset.value, e.ddrBase.value, |raw|), Raw(CONFIRM)], lines)
  }

  /** `burn_by_tftp` once the flasher runs. */
  function TftpFlash(e: Entries, raw: seq<byte>, lines: seq<string>): Run
  {
    var s := TftpFetch(e, lines);
    if s.status != Done(true) then s else Then(s, TftpProgram(e, raw, s.rest))
  }

  /** The whole of `burn_by_tftp` on the contents `file` of `params['fwfile']`. */
  function TftpBurn(e: Entries, file: seq<byte>, inFlasher: bool, lines: seq<string>, pending: nat): Burn
  {
    var u := Unwrap(e.fwfile, file);
    var e' := e.(fwfile := u.0);
    match PaddedFirmware(u.1)
    case Err(err) => Burn(Run(PadStatus(err), [], lines), e')
    case Ok(_) =>
      var f := StartFlasher(inFlasher, lines, pending, None);
      if f.status != Done(true) then Burn(f, e')
      else Burn(Then(f, TftpFlash(e', u.1, f.rest)), e')
  }

  method TftpFetchStep(c: Console, p: Params) returns (status: Status)
    modifies c
    ensures Run(status, c.log, c.input) == After(old(c.log), TftpFetch(p.Value(), old(c.input)))
  {
    if p.ddrBase.None? {
      return Raised;
    }
    c.Write(Raw("tftp " + Hex(p.ddrBase.value) + " " + Basename(p.fwfile) + "_padding\n"));
    var found := AwaitPrompt(c);
    status := if found then Done(true) else Blocked;
  }

  method TftpProgramStep(c: Console, p: Params, raw: seq<byte>) returns (status: Status)
    modifies c`log
    ensures Run(status, c.log, c.input) == After(old(c.log), TftpProgram(p.Value(), raw, c.input))
  {
    if p.offset.None? || p.ddrBase.None? {
      return Raised;
    }
    c.Write(Nandw(p.offset.value, p.ddrBase.value, |raw|));
    c.Write(Raw(CONFIRM));
    status := Done(true);
  }

  /** `burn_by_tftp` once the flasher runs. */
  method TftpInFlasher(c: Console, p: Params, raw: seq<byte>) returns (status: Status)
    modifies c
    ensures Run(status, c.log, c.input) == After(old(c.log), TftpFlash(p.Value(), raw, old(c.input)))
  {
    ghost var s := TftpFetch(p.Value(), c.input);
    status := TftpFetchStep(c, p);
    if status != Done(true) {
      return;
    }
    ghost var t := TftpProgram(p.Value(), raw, c.input);
    ThenLog(old(c.log), s, t);
    status := TftpProgramStep(c, p, raw);
  }

  /** `burn_by_tftp(params, in_flasher)` on the contents `file` of `params['fwfile']`. */
  method BurnByTftp(c: Console, p: Params, file: seq<byte>, inFlasher: bool, pending: nat) returns (status: Status)
    modifies c, p`fwfile
    ensures Burn(Run(status, c.log, c.input), p.Value()) == AfterBurn(old(c.log), TftpBurn(old(p.Value()), file, inFlasher, old(c.input), pending))
  {
    var raw, padded := Prepare(p, file);
    if padded.Err? {
      return PadStatus(padded.error);
    }
    ghost var f := StartFlasher(inFlasher, c.input, pending, None);
    status := EnsureFlasher(c, inFlasher, pending, None);
    if status != Done(true) {
      return;
    }
    ghost var t := TftpFlash(p.Value(), raw, c.input);
    ThenLog(old(c.log), f, t);
    status := TftpInFlasher(c, p, raw);
  }

  // ---------------------------------------------------------------------------
  // burn_by_uart
  // ---------------------------------------------------------------------------

  /** `burn_by_uart` once the flasher runs: a newline, the prompt, then the
      `eb`/`NANDW` loop over the padded image. Returns the run and the final
      `ddr_base`; `Done(true)` is reaching the end (the function then returns
      `None`). */
  function UartFlash(e: Entries, padded: seq<byte>, lines: seq<string>): (Run, Option<nat>)
  {
    var kick := [Raw(NEWLINE)];
    match AfterPrompt(lines)
    case None => (Run(Blocked, kick, []), e.ddrBase)
    case Some(rest) =>
      match e.ddrBase
      case None => (Run(if |padded| == 0 then Done(true) else Raised, kick, rest), None)
      case Some(base) =>
        var ok := !UartFails(|padded|, e.offset);
        (Run(if ok then Done(true) else Raised, kick + UartLog(padded, e.offset, base), rest),
         Some(BaseAt(base, if ok then Iterations(|padded|, e.offset) else PAGE_CHUNKS)))
  }

  /** The whole of `burn_by_uart` on the contents `file` of `params['fwfile']`. */
  function UartBurn(e: Entries, file: seq<byte>, inFlasher: bool, lines: seq<string>, pending: nat): Burn
  {
    var u := Unwrap(e.fwfile, file);
    var e' := e.(fwfile := u.0);
    match PaddedFirmware(u.1)
    case Err(err) => Burn(Run(PadStatus(err), [], lines), e')
    case Ok(padded) =>
      var f := StartFlasher(inFlasher, lines, pending, Some(UART_KICK));
      if f.status != Done(true) then Burn(f, e')
      else
        var t := UartFlash(e', padded, f.rest);
        Burn(Then(f, t.0), e'.(ddrBase := t.1))
  }

  /** `burn_by_uart` once the flasher runs. */
  method UartInFlasher(c: Console, p: Params, padded: seq<byte>) returns (status: Status)
    modifies c, p`ddrBase
    ensures (Run(status, c.log, c.input), p.ddrBase)
         == (After(old(c.log), UartFlash(old(p.Value()), padded, old(c.input)).0), UartFlash(old(p.Value()), padded, old(c.input)).1)
  {
    ghost var e := p.Value();
    var kick := [Raw(NEWLINE)];
    c.Write(kick[0]);
    var found := AwaitPrompt(c);
    if !found {
      return Blocked;
    }
    ghost var rest := c.input;
    assert AfterPrompt(old(c.input)) == Some(rest);
    var ok := ProgramByEb(c, p, padded);
    status := if ok then Done(true) else Raised;
    if e.ddrBase.Some? {
      Appended(old(c.log), kick, UartLog(padded, e.offset, e.ddrBase.value));
    }
  }

  /** `burn_by_uart(params, in_flasher)` on the contents `file` of `params['fwfile']`. */
  method BurnByUart(c: Console, p: Params, file: seq<byte>, inFlasher: bool, pending: nat) returns (status: Status)
    modifies c, p`fwfile, p`ddrBase
    ensures Burn(Run(status, c.log, c.input), p.Value()) == AfterBurn(old(c.log), UartBurn(old(p.Value()), file, inFlasher, old(c.input), pending))
  {
    var raw, padded := Prepare(p, file);
    if padded.Err? {
      return PadStatus(padded.error);
    }
    ghost var f := StartFlasher(inFlasher, c.input, pending, Some(UART_KICK));
    status := EnsureFlasher(c, inFlasher, pending, Some(UART_KICK));
    if status != Done(true) {
      return;
    }
    ghost var t := UartFlash(p.Value(), padded.value, c.input);
    ThenLog(old(c.log), f, t.0);
    status := UartInFlasher(c, p, padded.value);
  }

  // ---------------------------------------------------------------------------
  // The transport of a container's images
  // ---------------------------------------------------------------------------

  /** `burn_by_tftp` when `params['tftp']`, else `burn_by_xmodem` when
      `params['xmodem']`, else nothing. */
  function TransportBurn(e: Entries, file: seq<byte>, inFlasher: bool, lines: seq<string>, pending: nat): Burn
  {
    if e.tftp then TftpBurn(e, file, inFlasher, lines, pending)
    else if e.xmodem then XmodemBurn(e, file, inFlasher, lines, pending)
    else Burn(Run(Done(false), [], lines), e)
  }

  method BurnByTransport(c: Console, p: Params, file: seq<byte>, inFlasher: bool, pending: nat) returns (status: Status)
    modifies c, p`fwfile
    ensures Burn(Run(status, c.log, c.input), p.Value()) == AfterBurn(old(c.log), TransportBurn(old(p.Value()), file, inFlasher, old(c.input), pending))
  {
    if p.tftp {
      status := BurnByTftp(c, p, file, inFlasher, pending);
    } else if p.xmodem {
      status := BurnByXmodem(c, p, file, inFlasher, pending);
    } else {
      status := Done(false);
    }
  }

  // ---------------------------------------------------------------------------
  // burn_all_firmwares
  // ---------------------------------------------------------------------------

  /** One image of a container: `params['fwfile']` becomes `name`,
      `params['fwtype']` becomes `kind` followed by the last two characters of
      the type, `params['offset']` becomes `offset` (a KeyError when it was
      never set), and the image is burned over the chosen transport. */
  function StageBurn(e: Entries, name: string, kind: string, offset: Option<nat>, image: seq<byte>,
                     inFlasher: bool, lines: seq<string>, pending: nat): Burn
  {
    var e1 := e.(fwfile := name, fwtype := kind + Last2(e.fwtype));
    if offset.None? then Burn(Run(Raised, [], lines), e1)
    else TransportBurn(e1.(offset := offset), image, inFlasher, lines, pending)
  }

  /** `burn_all_firmwares` on the contents `file` of `params['fwfile']`;
      `version` is the version the file's name carries (the first match of
      `[0-9].[0-9].[0-9]_[0-9]+`), `None` when it carries none, which raises.
      The kernel is burned after a flasher download and the rootfs inside the
      same flasher; whatever the kernel burn returns, the rootfs burn follows,
      and only an exception or a hang stops it. `Done(true)` is reaching the
      end, `Done(false)` an early return. */
  function BurnAll(e: Entries, file: seq<byte>, version: Option<string>, lines: seq<string>, pending: nat): Burn
  {
    if !e.tftp && !e.xmodem then Burn(Run(Done(false), [], lines), e)
    else
      match Extract(file)
      case Err(err) => Burn(Run(if err == Unreadable then Raised else Done(false), [], lines), e)
      case Ok(images) =>
        if version.None? then Burn(Run(Raised, [], lines), e)
        else
          var k := StageBurn(e, "linux_" + version.value + ".bin_raw", "kernel", e.linuxOffset, Strip16(images.0), false, lines, pending);
          if !k.run.status.Done? then k
          else
            var r := StageBurn(k.params, "rootfs_" + version.value + ".bin_raw", "rootfs", k.params.rootfsOffset, Strip16(images.1), true, k.run.rest, pending);
            var t := if r.run.status.Done? then r.run.(status := Done(true)) else r.run;
            Burn(Then(k.run, t), r.params)
  }

  method BurnStage(c: Console, p: Params, name: string, kind: string, offset: Option<nat>, image: seq<byte>,
                   inFlasher: bool, pending: nat) returns (status: Status)
    modifies c, p`fwfile, p`fwtype, p`offset
    ensures Burn(Run(status, c.log, c.input), p.Value())
         == AfterBurn(old(c.log), StageBurn(old(p.Value()), name, kind, offset, image, inFlasher, old(c.input), pending))
  {
    p.fwfile := name;
    p.fwtype := kind + Last2(p.fwtype);
    if offset.None? {
      return Raised;
    }
    p.offset := offset;
    status := BurnByTransport(c, p, image, inFlasher, pending);
  }

  /** `burn_all_firmwares(params)` on the contents `file` of `params['fwfile']`. */
  method BurnAllFirmwares(c: Console, p: Params, file: seq<byte>, version: Option<string>, pending: nat) returns (status: Status)
    modifies c, p`fwfile, p`fwtype, p`offset
    ensures Burn(Run(status, c.log, c.input), p.Value()) == AfterBurn(old(c.log), BurnAll(old(p.Value()), file, version, old(c.input), pending))
  {
    if !p.tftp && !p.xmodem {
      return Done(false);
    }
    var images := Extract(file);
    if images.Err? {
      return if images.error == Unreadable then Raised else Done(false);
    }
    if version.None? {
      return Raised;
    }
    ghost var k := StageBurn(p.Value(), "linux_" + version.value + ".bin_raw", "kernel", p.linuxOffset, Strip16(images.value.0), false, c.input, pending);
    status := BurnStage(c, p, "linux_" + version.value + ".bin_raw", "kernel", p.linuxOffset, Strip16(images.value.0), false, pending);
    if !status.Done? {
      return;
    }
    ghost var r := StageBurn(p.Value(), "rootfs_" + version.value + ".bin_raw", "rootfs", p.rootfsOffset, Strip16(images.value.1), true, c.input, pending);
    ThenLog(old(c.log), k.run, r.run);
    status := BurnStage(c, p, "rootfs_" + version.value + ".bin_raw", "rootfs", p.rootfsOffset, Strip16(images.value.1), true, pending);
    if status.Done? {
      status := Done(true);
    }
  }

  // ---------------------------------------------------------------------------
  // burn_firmware
  // ---------------------------------------------------------------------------

  /** The RAM base `burn_firmware` sets before any burn. */
  const DDR_BASE: nat := 0xa1000000

  /** The type names a container (`'all' in fwtype`). */
  predicate IsContainerType(fwtype: string)
  {
    Contains(fwtype, "all")
  }

  /** `burn_firmware` returns before anything else: a container type whose
      file does not start with `MIOT`, or any other type the table does not
      know. */
  predicate Rejected(fwtype: string, file: seq<byte>)
  {
    if IsContainerType(fwtype) then !HasMagic(file, MIOT_MAGIC) else PartitionOffset(fwtype).None?
  }

  /** The burn `burn_firmware` chooses once its checks pass: tftp is
      preferred to xmodem; a container sets the two slot offsets and burns
      all of it, another type sets its own offset; with neither transport the
      image goes over UART, whose offset nothing sets. */
  function DispatchBurn(e: Entries, file: seq<byte>, version: Option<string>, lines: seq<string>, pending: nat): Burn
  {
    if e.tftp || e.xmodem then
      if IsContainerType(e.fwtype) then
        var o := ContainerOffsets(e.fwtype);
        BurnAll(e.(linuxOffset := Some(o.0), rootfsOffset := Some(o.1)), file, version, lines, pending)
      else TransportBurn(e.(offset := PartitionOffset(e.fwtype)), file, false, lines, pending)
    else UartBurn(e, file, false, lines, pending)
  }

  /** `burn_firmware(params)` on the contents `file` of `params['fwfile']`:
      after the checks, `ddr_base` is 0xa1000000 and the burn is dispatched.
      The source returns `None` on every path: `Done(false)` is an early
      return at the checks, and after the dispatch the status is that of the
      burn it called, whose result `burn_firmware` only prints or drops. */
  function FirmwareBurn(e: Entries, file: seq<byte>, version: Option<string>, lines: seq<string>, pending: nat): Burn
  {
    if Rejected(e.fwtype, file) then Burn(Run(Done(false), [], lines), e)
    else DispatchBurn(e.(ddrBase := Some(DDR_BASE)), file, version, lines, pending)
  }

  /** The container branch of `burn_firmware`. */
  method DispatchContainer(c: Console, p: Params, file: seq<byte>, version: Option<string>, pending: nat) returns (status: Status)
    modifies c, p
    ensures var o := ContainerOffsets(old(p.fwtype));
      Burn(Run(status, c.log, c.input), p.Value())
      == AfterBurn(old(c.log), BurnAll(old(p.Value()).(linuxOffset := Some(o.0), rootfsOffset := Some(o.1)), file, version, old(c.input), pending))
  {
    var offsets := ContainerOffsets(p.fwtype);
    p.linuxOffset := Some(offsets.0);
    p.rootfsOffset := Some(offsets.1);
    status := BurnAllFirmwares(c, p, file, version, pending);
  }

  method Dispatch(c: Console, p: Params, file: seq<byte>, version: Option<string>, pending: nat) returns (status: Status)
    modifies c, p
    ensures Burn(Run(status, c.log, c.input), p.Value()) == AfterBurn(old(c.log), DispatchBurn(old(p.Value()), file, version, old(c.input), pending))
  {
    if p.tftp || p.xmodem {
      if Contains(p.fwtype, "all") {
        status := DispatchContainer(c, p, file, version, pending);
      } else {
        p.offset := PartitionOffset(p.fwtype);
        status := BurnByTransport(c, p, file, false, pending);
      }
    } else {
      status := BurnByUart(c, p, file, false, pending);
    }
  }

  /** `burn_firmware(params)`. */
  method BurnFirmware(c: Console, p: Params, file: seq<byte>, version: Option<string>, pending: nat) returns (status: Status)
    modifies c, p
    ensures Burn(Run(status, c.log, c.input), p.Value()) == AfterBurn(old(c.log), FirmwareBurn(old(p.Value()), file, version, old(c.input), pending))
  {
    var offset := PartitionOffset(p.fwtype);
    var all := Contains(p.fwtype, "all");
    if all && !HasMagic(file, MIOT_MAGIC) {
      return Done(false);
    }
    if !all && offset.None? {
      return Done(false);
    }
    p.ddrBase := Some(DDR_BASE);
    status := Dispatch(c, p, file, version, pending);
  }
}
