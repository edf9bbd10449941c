/** What the burn functions promise about the commands they write, the
    order of their steps and the parameters they leave behind. */
module BurnProperties {
  import opened Wrappers
  import opened Bytes
  import opened Text
  import opened Commands
  import opened Checksum
  import opened Container
  import opened Serial
  import opened Uart
  import opened Settings
  import opened Provision

  /** The last `|tail|` commands of `log` are `tail`. */
  predicate EndsWith(log: seq<Command>, tail: seq<Command>)
  {
    |log| >= |tail| && log[|log| - |tail|..] == tail
  }

  lemma EndsWithAppend(a: seq<Command>, b: seq<Command>, tail: seq<Command>)
    requires EndsWith(b, tail)
    ensures EndsWith(a + b, tail)
  {
    assert (a + b)[|a + b| - |tail|..] == b[|b| - |tail|..];
  }

  // ---------------------------------------------------------------------------
  // The image checks every burn function starts with
  // ---------------------------------------------------------------------------

  /** An image that fails the padding step is never burned: nothing is
      written, and the burn raises exactly when the image has an odd length
      (the checksum's IndexError); an image whose checksum is not zero just
      returns. */
  lemma BadImageWritesNothing(e: Entries, file: seq<byte>, inFlasher: bool, lines: seq<string>, pending: nat)
    requires PaddedFirmware(Unwrap(e.fwfile, file).1).Err?
    ensures var odd := |Unwrap(e.fwfile, file).1| % 2 != 0;
      && XmodemBurn(e, file, inFlasher, lines, pending).run == Run(if odd then Raised else Done(false), [], lines)
      && TftpBurn(e, file, inFlasher, lines, pending).run == Run(if odd then Raised else Done(false), [], lines)
      && UartBurn(e, file, inFlasher, lines, pending).run == Run(if odd then Raised else Done(false), [], lines)
  {
  }

  // ---------------------------------------------------------------------------
  // burn_by_xmodem and burn_by_tftp
  // ---------------------------------------------------------------------------

  /** A completed XMODEM burn ends by programming the PADDED image, whose
      size is a whole number of erase blocks, at the partition's offset from
      the RAM base, confirming, and then recording the size and the sum of
      the UNPADDED image in the boot info. */
  lemma XmodemProgramsPadded(e: Entries, file: seq<byte>, inFlasher: bool, lines: seq<string>, pending: nat)
    requires XmodemBurn(e, file, inFlasher, lines, pending).run.status == Done(true)
    ensures var b := XmodemBurn(e, file, inFlasher, lines, pending);
      var raw := Unwrap(e.fwfile, file).1;
      var padded := PaddedFirmware(raw);
      && padded.Ok? && e.offset.Some? && e.ddrBase.Some?
      && var size := |padded.value|;
      && size % ERASE_BLOCK == 0 && |raw| <= size < |raw| + ERASE_BLOCK
      && EndsWith(b.run.log, [Nandw(e.offset.value, e.ddrBase.value, size), Raw(CONFIRM)]
                               + BootCtrlLines(e.fwtype, SumLabel(b.params.fwfile, raw), size))
  {
    var u := Unwrap(e.fwfile, file);
    var e' := e.(fwfile := u.0);
    var padded := PaddedFirmware(u.1).value;
    var f := StartFlasher(inFlasher, lines, pending, None);
    var s := XmodemSend(e', f.rest);
    var t := XmodemProgram(e', u.1, |padded|, s.rest);
    var tail := [Nandw(e.offset.value, e.ddrBase.value, |padded|), Raw(CONFIRM)]
                + BootCtrlLines(e.fwtype, SumLabel(e'.fwfile, u.1), |padded|);
    assert t.log == tail;
    assert EndsWith(t.log, tail);
    EndsWithAppend(s.log, t.log, tail);
    EndsWithAppend(f.log, s.log + t.log, tail);
  }

  /** A started flasher has been sent no flash-program command. */
  lemma FlasherWritesNoNandw(inFlasher: bool, lines: seq<string>, pending: nat, kick: Option<string>)
    requires StartFlasher(inFlasher, lines, pending, kick).status == Done(true)
    ensures CountNandw(StartFlasher(inFlasher, lines, pending, kick).log) == 0
  {
    var f := StartFlasher(inFlasher, lines, pending, kick);
    if !inFlasher {
      FlasherSessionSpec(lines, pending, kick);
      var tail := READY_COMMANDS + [Raw(XMRX)] + Kick(kick) + [Raw(JUMP)];
      forall i | 0 <= i < |f.log|
        ensures !IsNandw(f.log[i])
      {
        if i >= |f.log| - |tail| {
          assert f.log[i] == f.log[|f.log| - |tail|..][i - (|f.log| - |tail|)];
        }
      }
    }
    CountNandwNone(f.log);
  }

  /** A `NANDW` and then plain text commands count one. */
  lemma NandwThenText(c: Command, d: Command, rest: seq<Command>)
    requires c.Nandw? && d.Raw? && forall i :: 0 <= i < |rest| ==> rest[i].Raw?
    ensures CountNandw([c, d] + rest) == 1
  {
    var text := [d] + rest;
    assert [c, d] + rest == [c] + text;
    CountNandwNone(text);
    assert CountNandw([c]) == 1 by { assert [c][..0] == []; }
    CountNandwAppend([c], text);
  }

  /** The boot-info update writes only text commands. */
  lemma BootCtrlText(fwtype: string, sum: string, size: nat)
    ensures forall i :: 0 <= i < |BootCtrlLines(fwtype, sum, size)| ==> BootCtrlLines(fwtype, sum, size)[i].Raw?
  {
  }

  /** The programming step of a completed XMODEM burn writes one `NANDW`. */
  lemma XmodemProgramNandwOnce(e: Entries, raw: seq<byte>, size: nat, lines: seq<string>)
    requires XmodemProgram(e, raw, size, lines).status == Done(true)
    ensures CountNandw(XmodemProgram(e, raw, size, lines).log) == 1
  {
    assert e.offset.Some? && e.ddrBase.Some? && AfterPrompt(lines).Some?;
    var b := BootCtrlLines(e.fwtype, SumLabel(e.fwfile, raw), size);
    var n := Nandw(e.offset.value, e.ddrBase.value, size);
    assert XmodemProgram(e, raw, size, lines).log == [n, Raw(CONFIRM)] + b;
    BootCtrlText(e.fwtype, SumLabel(e.fwfile, raw), size);
    NandwThenText(n, Raw(CONFIRM), b);
  }

  /** The transfer step writes only text commands. */
  lemma XmodemSendText(e: Entries, lines: seq<string>)
    ensures forall i :: 0 <= i < |XmodemSend(e, lines).log| ==> !IsNandw(XmodemSend(e, lines).log[i])
  {
  }

  /** A completed transfer and programming step write one `NANDW`. */
  lemma XmodemFlashNandwOnce(e: Entries, raw: seq<byte>, size: nat, lines: seq<string>)
    requires XmodemFlash(e, raw, size, lines).status == Done(true)
    ensures CountNandw(XmodemFlash(e, raw, size, lines).log) == 1
  {
    var s := XmodemSend(e, lines);
    assert s.status == Done(true);
    var t := XmodemProgram(e, raw, size, s.rest);
    assert XmodemFlash(e, raw, size, lines).log == s.log + t.log;
    XmodemSendText(e, lines);
    CountNandwNone(s.log);
    XmodemProgramNandwOnce(e, raw, size, s.rest);
    CountNandwAppend(s.log, t.log);
  }

  /** A completed XMODEM burn writes exactly one flash-program command, the
      one of the padded image: the flasher download, the transfer and the
      boot-info update write none. */
  lemma XmodemProgramsOnce(e: Entries, file: seq<byte>, inFlasher: bool, lines: seq<string>, pending: nat)
    requires XmodemBurn(e, file, inFlasher, lines, pending).run.status == Done(true)
    ensures CountNandw(XmodemBurn(e, file, inFlasher, lines, pending).run.log) == 1
  {
    var u := Unwrap(e.fwfile, file);
    var e' := e.(fwfile := u.0);
    var padded := PaddedFirmware(u.1).value;
    var f := StartFlasher(inFlasher, lines, pending, None);
    FlasherWritesNoNandw(inFlasher, lines, pending, None);
    XmodemFlashNandwOnce(e', u.1, |padded|, f.rest);
    CountNandwAppend(f.log, XmodemFlash(e', u.1, |padded|, f.rest).log);
  }

  /** A completed TFTP burn fetches `<basename>_padding`, the PADDED image,
      but programs only the size of the UNPADDED image, and it never
      touches the boot info: its last three commands are the fetch, the
      `NANDW` and the confirmation. */
  lemma TftpProgramsUnpadded(e: Entries, file: seq<byte>, inFlasher: bool, lines: seq<string>, pending: nat)
    requires TftpBurn(e, file, inFlasher, lines, pending).run.status == Done(true)
    ensures var b := TftpBurn(e, file, inFlasher, lines, pending);
      var raw := Unwrap(e.fwfile, file).1;
      && PaddedFirmware(raw).Ok? && e.offset.Some? && e.ddrBase.Some?
      && EndsWith(b.run.log, [Raw("tftp " + Hex(e.ddrBase.value) + " " + Basename(b.params.fwfile) + "_padding\n"),
                              Nandw(e.offset.value, e.ddrBase.value, |raw|), Raw(CONFIRM)])
  {
    var u := Unwrap(e.fwfile, file);
    var e' := e.(fwfile := u.0);
    var f := StartFlasher(inFlasher, lines, pending, None);
    var s := TftpFetch(e', f.rest);
    var t := TftpProgram(e', u.1, s.rest);
    var tail := [Raw("tftp " + Hex(e.ddrBase.value) + " " + Basename(e'.fwfile) + "_padding\n"),
                 Nandw(e.offset.value, e.ddrBase.value, |u.1|), Raw(CONFIRM)];
    assert s.log + t.log == tail;
    EndsWithAppend(f.log, s.log + t.log, tail);
  }

  /** A burn that has to download the flasher and finds the gateway booting
      its operating system instead returns `False` having written only
      wake-up keys. */
  lemma NotReadyWritesOnlyKeys(e: Entries, file: seq<byte>, lines: seq<string>, pending: nat)
    requires PaddedFirmware(Unwrap(e.fwfile, file).1).Ok?
    requires BootromSession(lines, pending).0 == NotReady
    ensures var runs := [XmodemBurn(e, file, false, lines, pending).run, TftpBurn(e, file, false, lines, pending).run,
                         UartBurn(e, file, false, lines, pending).run];
      forall j, i :: 0 <= j < 3 && 0 <= i < |runs[j].log| ==> runs[j].status == Done(false) && runs[j].log[i] == Raw("u")
  {
    FlasherSessionSpec(lines, pending, None);
    FlasherSessionSpec(lines, pending, Some(UART_KICK));
  }

  // ---------------------------------------------------------------------------
  // burn_all_firmwares
  // ---------------------------------------------------------------------------

  /** The transports leave every entry of `params` but `fwfile` alone. */
  lemma TransportKeepsEntries(e: Entries, file: seq<byte>, inFlasher: bool, lines: seq<string>, pending: nat)
    requires e.tftp || e.xmodem
    ensures TransportBurn(e, file, inFlasher, lines, pending).params == e.(fwfile := Unwrap(e.fwfile, file).0)
  {
  }

  lemma Last2Suffix(kind: string, s: string)
    requires |s| >= 2
    ensures Last2(kind + Last2(s)) == Last2(s)
  {
    var t := kind + Last2(s);
    assert t[|t| - 2..] == Last2(s);
  }

  /** One stage of a container burn renames the file to `name` (with `_raw`
      appended when the image is wrapped), gives the type the stage's `kind`
      and the old slot suffix, and the offset `offset`; a missing offset
      raises before anything is written. */
  lemma StageEntries(e: Entries, name: string, kind: string, offset: Option<nat>, image: seq<byte>,
                     inFlasher: bool, lines: seq<string>, pending: nat)
    requires e.tftp || e.xmodem
    ensures var b := StageBurn(e, name, kind, offset, image, inFlasher, lines, pending);
      && b.params.fwtype == kind + Last2(e.fwtype)
      && (b.params.fwfile == name || b.params.fwfile == name + "_raw")
      && b.params.(fwfile := e.fwfile, fwtype := e.fwtype, offset := e.offset) == e
      && (offset.Some? ==> b.params.offset == offset)
      && (offset.None? ==> b.run == Run(Raised, [], lines))
  {
    var e1 := e.(fwfile := name, fwtype := kind + Last2(e.fwtype));
    if offset.Some? {
      TransportKeepsEntries(e1.(offset := offset), image, inFlasher, lines, pending);
    }
  }

  /** Once the container is extracted and its version known, the kernel burn
      never ends `burn_all_firmwares`, whatever it returns: the run stops
      early only by an exception or a hang. A completed run has the rootfs
      burned last, with type `rootfs` and the slot suffix of the original
      type, at the rootfs offset, from `rootfs_<version>.bin_raw`, or from
      that name plus `_raw` when the stripped rootfs is unwrapped again. */
  lemma BurnAllBurnsBoth(e: Entries, file: seq<byte>, version: Option<string>, lines: seq<string>, pending: nat)
    requires (e.tftp || e.xmodem) && Extract(file).Ok? && version.Some?
    ensures BurnAll(e, file, version, lines, pending).run.status != Done(false)
    ensures BurnAll(e, file, version, lines, pending).run.status == Done(true) && |e.fwtype| >= 2 ==>
      var b := BurnAll(e, file, version, lines, pending);
      var name := "rootfs_" + version.value + ".bin_raw";
      && e.linuxOffset.Some? && e.rootfsOffset.Some?
      && b.params.fwtype == "rootfs" + Last2(e.fwtype) && b.params.offset == e.rootfsOffset
      && (b.params.fwfile == name || b.params.fwfile == name + "_raw")
  {
    var b := BurnAll(e, file, version, lines, pending);
    var images := Extract(file).value;
    var kernel := "linux_" + version.value + ".bin_raw";
    var k := StageBurn(e, kernel, "kernel", e.linuxOffset, Strip16(images.0), false, lines, pending);
    StageEntries(e, kernel, "kernel", e.linuxOffset, Strip16(images.0), false, lines, pending);
    if k.run.status.Done? {
      var rootfs := "rootfs_" + version.value + ".bin_raw";
      var r := StageBurn(k.params, rootfs, "rootfs", k.params.rootfsOffset, Strip16(images.1), true, k.run.rest, pending);
      assert b.params == r.params;
      StageEntries(k.params, rootfs, "rootfs", k.params.rootfsOffset, Strip16(images.1), true, k.run.rest, pending);
      if |e.fwtype| >= 2 {
        Last2Suffix("kernel", e.fwtype);
      }
    }
  }

  /** Without an extracted container or a version, nothing is written at all. */
  lemma BurnAllChecks(e: Entries, file: seq<byte>, version: Option<string>, lines: seq<string>, pending: nat)
    requires Extract(file).Err? || version.None? || (!e.tftp && !e.xmodem)
    ensures BurnAll(e, file, version, lines, pending).run.log == []
    ensures BurnAll(e, file, version, lines, pending).params == e
    ensures (e.tftp || e.xmodem) ==>
      (BurnAll(e, file, version, lines, pending).run.status == Raised <==> (Extract(file) == Err(Unreadable) || (Extract(file).Ok? && version.None?)))
  {
  }

  // ---------------------------------------------------------------------------
  // burn_firmware
  // ---------------------------------------------------------------------------

  lemma ContainsLength(s: string, t: string)
    requires Contains(s, t)
    ensures |s| >= |t|
  {
    ContainsIff(s, t);
  }

  /** `burn_firmware` refuses a container file without the `MIOT` magic and
      a type outside the twelve names of the table, and then nothing is
      written and `params` stays as it was. */
  lemma FirmwareBurnChecks(e: Entries, file: seq<byte>, version: Option<string>, lines: seq<string>, pending: nat)
    ensures Rejected(e.fwtype, file) <==>
      if IsContainerType(e.fwtype) then !HasMagic(file, MIOT_MAGIC) else e.fwtype !in PARTITION_TYPES
    ensures Rejected(e.fwtype, file) ==> FirmwareBurn(e, file, version, lines, pending) == Burn(Run(Done(false), [], lines), e)
  {
    PartitionOffsetKnown(e.fwtype);
  }

  /** A single image over tftp or xmodem is burned at the offset the table
      declares for its type, after the flasher download, with the RAM base
      0xa1000000; tftp wins when both are set. */
  lemma SingleImageOffset(e: Entries, file: seq<byte>, version: Option<string>, lines: seq<string>, pending: nat)
    requires !IsContainerType(e.fwtype) && e.fwtype in PARTITION_TYPES && (e.tftp || e.xmodem)
    ensures exists i :: (0 <= i < |FIRMWARE_INFO| && FIRMWARE_INFO[i].0 == e.fwtype &&
                         var e1 := e.(ddrBase := Some(DDR_BASE), offset := Some(FIRMWARE_INFO[i].1));
                         FirmwareBurn(e, file, version, lines, pending)
                           == if e.tftp then TftpBurn(e1, file, false, lines, pending) else XmodemBurn(e1, file, false, lines, pending))
  {
    PartitionOffsetKnown(e.fwtype);
    var i :| 0 <= i < |FIRMWARE_INFO| && FIRMWARE_INFO[i] == (e.fwtype, PartitionOffset(e.fwtype).value);
    assert FIRMWARE_INFO[i].0 == e.fwtype;
  }

  /** A container over tftp or xmodem burns both its images into the slot its
      type names: `_0` the first, `_1` the second, and any other suffix
      offset 0, which is the bootloader's. */
  lemma ContainerSlots(e: Entries, file: seq<byte>, version: Option<string>, lines: seq<string>, pending: nat)
    requires IsContainerType(e.fwtype) && HasMagic(file, MIOT_MAGIC) && (e.tftp || e.xmodem)
    ensures var s := Last2(e.fwtype);
      var o := if s == "_0" then (0x00200000, 0x00500000) else if s == "_1" then (0x01e00000, 0x02100000) else (0, 0);
      FirmwareBurn(e, file, version, lines, pending)
        == BurnAll(e.(ddrBase := Some(DDR_BASE), linuxOffset := Some(o.0), rootfsOffset := Some(o.1)), file, version, lines, pending)
  {
    ContainsLength(e.fwtype, "all");
    if Last2(e.fwtype) == "_0" || Last2(e.fwtype) == "_1" {
      ContainerOffsetsOfSlots(e.fwtype);
    } else {
      ContainerOffsetsOther(e.fwtype);
    }
  }

  /** A padded image of at least one erase block has more than one page of
      16-byte chunks. */
  lemma BlockExceedsPage(n: nat)
    requires n >= ERASE_BLOCK
    ensures UartFails(n, None)
  {
    assert (n + 15) / 16 >= ERASE_BLOCK / 16;
  }

  lemma WholeBlocks(n: nat)
    requires n > 0 && n % ERASE_BLOCK == 0
    ensures n >= ERASE_BLOCK
  {
  }

  /** Over UART with no offset, a padded image that is not empty never
      reaches the end. */
  lemma UartFlashFails(e: Entries, padded: seq<byte>, lines: seq<string>)
    requires e.offset.None? && e.ddrBase.Some? && |padded| >= ERASE_BLOCK
    ensures UartFlash(e, padded, lines).0.status != Done(true)
  {
    BlockExceedsPage(|padded|);
  }

  /** Without tftp or xmodem the image goes over UART, and since nothing sets
      `params['offset']` there, a non-empty image never completes: the first
      `NANDW` after its first 8 KiB page raises KeyError. */
  lemma UartWithoutOffsetFails(e: Entries, file: seq<byte>, version: Option<string>, lines: seq<string>, pending: nat)
    requires !e.tftp && !e.xmodem && e.offset.None? && !Rejected(e.fwtype, file)
    requires |Unwrap(e.fwfile, file).1| > 0
    ensures FirmwareBurn(e, file, version, lines, pending).run.status != Done(true)
  {
    var e1 := e.(ddrBase := Some(DDR_BASE));
    assert FirmwareBurn(e, file, version, lines, pending) == UartBurn(e1, file, false, lines, pending);
    var u := Unwrap(e1.fwfile, file);
    var padded := PaddedFirmware(u.1);
    if padded.Ok? {
      var f := StartFlasher(false, lines, pending, Some(UART_KICK));
      if f.status == Done(true) {
        WholeBlocks(|padded.value|);
        UartFlashFails(e1.(fwfile := u.0), padded.value, f.rest);
      }
    }
  }
}
