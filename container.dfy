/** The firmware file formats: the multi-section container that
    `extract_firmwares` splits into a kernel and a rootfs image, the
    `fw_update` wrapper of `generate_firmware_for_fw_update`, the 16-byte
    unwrap step of the burn functions, and the erase-block padding of
    `generate_padded_firmware`. */
module Container {
  import opened Wrappers
  import opened Bytes
  import opened Text
  import opened Checksum

  // ---------------------------------------------------------------------------
  // File reads
  // ---------------------------------------------------------------------------

  /** `f.seek(pos); f.read(n)`: at most `n` bytes from `pos`, fewer at the
      end of the file; a negative `n` reads to the end. */
  function ReadAt(f: seq<byte>, pos: nat, n: int): (r: seq<byte>)
  {
    if pos >= |f| then [] else if n < 0 then f[pos..] else f[pos..Min(pos + n, |f|)]
  }

  /** `int(f.read(4).hex(), 16)` at `pos`: the big-endian value of the (up to
      four) bytes there; `None` is the ValueError of an empty read. */
  function ReadLength(f: seq<byte>, pos: nat): (r: Option<nat>)
    ensures r.None? <==> pos >= |f|
  {
    var bs := ReadAt(f, pos, 4);
    if |bs| == 0 then None else Some(BeValueUpTo4(bs))
  }

  /** `s` occurs in `f` at position `pos`. */
  predicate At(f: seq<byte>, pos: nat, s: seq<byte>)
  {
    pos + |s| <= |f| && f[pos..pos + |s|] == s
  }

  lemma AtEnd(p: seq<byte>, s: seq<byte>)
    ensures At(p + s, |p|, s)
  {
    assert (p + s)[|p|..|p| + |s|] == s;
  }

  lemma AtExtend(f: seq<byte>, pos: nat, s: seq<byte>, t: seq<byte>)
    requires At(f, pos, s)
    ensures At(f + t, pos, s)
  {
    assert (f + t)[pos..pos + |s|] == f[pos..pos + |s|];
  }

  lemma AtPrefix(f: seq<byte>, pos: nat, s: seq<byte>, k: nat)
    requires At(f, pos, s) && k <= |s|
    ensures At(f, pos, s[..k])
  {
    assert f[pos..pos + k] == f[pos..pos + |s|][..k];
  }

  lemma AtSuffix(f: seq<byte>, pos: nat, s: seq<byte>, k: nat)
    requires At(f, pos, s) && k <= |s|
    ensures At(f, pos + k, s[k..])
  {
    assert f[pos + k..pos + |s|] == f[pos..pos + |s|][k..];
  }

  /** A length written with `Be32` reads back as itself. */
  lemma ReadLengthAt(f: seq<byte>, pos: nat, v: nat)
    requires v < TWO_POW_32 && At(f, pos, Be32(v))
    ensures ReadLength(f, pos) == Some(v)
  {
    assert ReadAt(f, pos, 4) == Be32(v);
    BeValueUpTo4Agrees(Be32(v));
  }

  /** A read of exactly the payload's length at its position returns the payload. */
  lemma ReadAtPayload(f: seq<byte>, pos: nat, payload: seq<byte>)
    requires At(f, pos, payload)
    ensures ReadAt(f, pos, |payload|) == payload
  {
  }

  // ---------------------------------------------------------------------------
  // The container (extract_firmwares)
  // ---------------------------------------------------------------------------

  /** Where the chain of section lengths starts, past the 0x2e00-byte
      apploader and three more bytes. */
  const CHAIN_START: nat := 0x2e03

  /** Bytes before a kernel or rootfs image in its section: its 4-byte length and 6 more. */
  const SECTION_HEADER: nat := 10

  datatype ExtractError =
    | Unreadable      // a length read past the end of the file: the ValueError of `int('', 16)`
    | BadKernelMagic  // the kernel section does not start with `cr6c`
    | BadRootfsMagic  // the rootfs section does not start with `r6cr`

  /** The section at `pos`: its 4-byte length `n` and the image read from
      10 bytes in, `n - 10` bytes long (to the end of the file if `n < 10`). */
  function SectionImage(f: seq<byte>, pos: nat): (r: Option<(nat, seq<byte>)>)
    ensures r.None? <==> pos >= |f|
  {
    match ReadLength(f, pos)
    case None => None
    case Some(n) => Some((n, ReadAt(f, pos + SECTION_HEADER, n - SECTION_HEADER)))
  }

  /** One link of the chain: the length at `pos` skips a section, and the
      image section after it must start with `magic` (else `bad`). The
      result is the position right after the image section and the image. */
  function ChainImage(f: seq<byte>, pos: nat, magic: seq<byte>, bad: ExtractError): Result<(nat, seq<byte>), ExtractError>
  {
    match ReadLength(f, pos)
    case None => Err(Unreadable)
    case Some(n) =>
      match SectionImage(f, pos + n)
      case None => Err(Unreadable)
      case Some(section) =>
        if !HasMagic(section.1, magic) then Err(bad)
        else Ok((pos + n + section.0, section.1))
  }

  /** What `extract_firmwares` writes to `linux.bin` and `rootfs.bin`: the
      full.gbl length at the chain start leads to the kernel section, and the
      OTA-file length right after that section leads to the rootfs section. */
  function Extract(f: seq<byte>): Result<(seq<byte>, seq<byte>), ExtractError>
  {
    match ChainImage(f, CHAIN_START, KERNEL_MAGIC, BadKernelMagic)
    case Err(e) => Err(e)
    case Ok(k) =>
      match ChainImage(f, k.0, ROOTFS_MAGIC, BadRootfsMagic)
      case Err(e) => Err(e)
      case Ok(r) => Ok((k.1, r.1))
  }

  /** A section whose 4-byte length counts itself and the body after it
      (the full.gbl and OTA-file sections). */
  function LengthSection(body: seq<byte>): (r: seq<byte>)
    requires 4 + |body| < TWO_POW_32
    ensures |r| == 4 + |body|
  {
    Be32(4 + |body|) + body
  }

  /** A section holding an image after its 4-byte length and a 6-byte header
      (the kernel and rootfs sections). */
  function ImageSection(header: seq<byte>, image: seq<byte>): (r: seq<byte>)
    requires |header| == 6 && SECTION_HEADER + |image| < TWO_POW_32
    ensures |r| == SECTION_HEADER + |image|
  {
    Be32(SECTION_HEADER + |image|) + header + image
  }

  /** A container laid out as the chain expects: `apploader` up to the chain
      start, the full.gbl, kernel, OTA-file and rootfs sections, then anything. */
  function BuildContainer(apploader: seq<byte>, gbl: seq<byte>,
                          kernelHeader: seq<byte>, kernel: seq<byte>,
                          ota: seq<byte>,
                          rootfsHeader: seq<byte>, rootfs: seq<byte>,
                          trailer: seq<byte>): seq<byte>
    requires |kernelHeader| == 6 && |rootfsHeader| == 6
    requires 4 + |gbl| < TWO_POW_32 && 4 + |ota| < TWO_POW_32
    requires SECTION_HEADER + |kernel| < TWO_POW_32 && SECTION_HEADER + |rootfs| < TWO_POW_32
  {
    apploader + LengthSection(gbl) + ImageSection(kernelHeader, kernel)
      + LengthSection(ota) + ImageSection(rootfsHeader, rootfs) + trailer
  }

  lemma LengthSectionRead(f: seq<byte>, pos: nat, body: seq<byte>)
    requires 4 + |body| < TWO_POW_32 && At(f, pos, LengthSection(body))
    ensures ReadLength(f, pos) == Some(4 + |body|)
  {
    AtPrefix(f, pos, LengthSection(body), 4);
    assert LengthSection(body)[..4] == Be32(4 + |body|);
    ReadLengthAt(f, pos, 4 + |body|);
  }

  lemma ImageSectionRead(f: seq<byte>, pos: nat, header: seq<byte>, image: seq<byte>)
    requires |header| == 6 && SECTION_HEADER + |image| < TWO_POW_32
    requires At(f, pos, ImageSection(header, image))
    ensures SectionImage(f, pos) == Some((SECTION_HEADER + |image|, image))
  {
    var n := SECTION_HEADER + |image|;
    var section := ImageSection(header, image);
    AtPrefix(f, pos, section, 4);
    assert section[..4] == Be32(n);
    ReadLengthAt(f, pos, n);
    AtSuffix(f, pos, section, SECTION_HEADER);
    assert section[SECTION_HEADER..] == image;
    ReadAtPayload(f, pos + SECTION_HEADER, image);
  }

  /** Extraction inverts building: it returns the two images unmodified, or
      reports exactly the first image whose magic is wrong. */
  lemma ExtractBuilt(apploader: seq<byte>, gbl: seq<byte>,
                     kernelHeader: seq<byte>, kernel: seq<byte>,
                     ota: seq<byte>,
                     rootfsHeader: seq<byte>, rootfs: seq<byte>,
                     trailer: seq<byte>)
    requires |apploader| == CHAIN_START && |kernelHeader| == 6 && |rootfsHeader| == 6
    requires 4 + |gbl| < TWO_POW_32 && 4 + |ota| < TWO_POW_32
    requires SECTION_HEADER + |kernel| < TWO_POW_32 && SECTION_HEADER + |rootfs| < TWO_POW_32
    ensures Extract(BuildContainer(apploader, gbl, kernelHeader, kernel, ota, rootfsHeader, rootfs, trailer))
         == if !HasMagic(kernel, KERNEL_MAGIC) then Err(BadKernelMagic)
            else if !HasMagic(rootfs, ROOTFS_MAGIC) then Err(BadRootfsMagic)
            else Ok((kernel, rootfs))
  {
    var f := BuildContainer(apploader, gbl, kernelHeader, kernel, ota, rootfsHeader, rootfs, trailer);
    var gs, ks, os := LengthSection(gbl), ImageSection(kernelHeader, kernel), LengthSection(ota);
    BuiltLayout(apploader, gs, ks, os, ImageSection(rootfsHeader, rootfs), trailer);
    ExtractLayout(f, |apploader|, |apploader| + |gs|, |apploader| + |gs| + |ks|, |apploader| + |gs| + |ks| + |os|,
                  gbl, kernelHeader, kernel, ota, rootfsHeader, rootfs);
  }

  /** Extraction of any file holding the four sections at the positions the
      chain computes. */
  lemma ExtractLayout(f: seq<byte>, p1: nat, p2: nat, p3: nat, p4: nat,
                      gbl: seq<byte>, kernelHeader: seq<byte>, kernel: seq<byte>,
                      ota: seq<byte>, rootfsHeader: seq<byte>, rootfs: seq<byte>)
    requires |kernelHeader| == 6 && |rootfsHeader| == 6
    requires 4 + |gbl| < TWO_POW_32 && 4 + |ota| < TWO_POW_32
    requires SECTION_HEADER + |kernel| < TWO_POW_32 && SECTION_HEADER + |rootfs| < TWO_POW_32
    requires p1 == CHAIN_START && p2 == p1 + 4 + |gbl|
    requires p3 == p2 + SECTION_HEADER + |kernel| && p4 == p3 + 4 + |ota|
    requires At(f, p1, LengthSection(gbl)) && At(f, p2, ImageSection(kernelHeader, kernel))
    requires At(f, p3, LengthSection(ota)) && At(f, p4, ImageSection(rootfsHeader, rootfs))
    ensures Extract(f)
         == if !HasMagic(kernel, KERNEL_MAGIC) then Err(BadKernelMagic)
            else if !HasMagic(rootfs, ROOTFS_MAGIC) then Err(BadRootfsMagic)
            else Ok((kernel, rootfs))
  {
    LinkAt(f, p1, p2, p3, gbl, kernelHeader, kernel, KERNEL_MAGIC, BadKernelMagic);
    LinkAt(f, p3, p4, p4 + SECTION_HEADER + |rootfs|, ota, rootfsHeader, rootfs, ROOTFS_MAGIC, BadRootfsMagic);
    if HasMagic(kernel, KERNEL_MAGIC) {
      ExtractOfLinks(f, p3, kernel, ChainImage(f, p3, ROOTFS_MAGIC, BadRootfsMagic));
    }
  }

  /** A link laid out as a length section followed by an image section
      yields the image, or `bad` when its magic is wrong. */
  lemma LinkAt(f: seq<byte>, pos: nat, mid: nat, end: nat, body: seq<byte>, header: seq<byte>, image: seq<byte>, magic: seq<byte>, bad: ExtractError)
    requires |header| == 6 && 4 + |body| < TWO_POW_32 && SECTION_HEADER + |image| < TWO_POW_32
    requires mid == pos + 4 + |body| && end == mid + SECTION_HEADER + |image|
    requires At(f, pos, LengthSection(body)) && At(f, mid, ImageSection(header, image))
    ensures HasMagic(image, magic) ==> ChainImage(f, pos, magic, bad) == Ok((end, image))
    ensures !HasMagic(image, magic) ==> ChainImage(f, pos, magic, bad) == Err(bad)
  {
    LengthSectionRead(f, pos, body);
    ImageSectionRead(f, mid, header, image);
    ChainImageOf(f, pos, 4 + |body|, SECTION_HEADER + |image|, image, magic, bad);
  }

  /** Extraction in terms of its two links. */
  lemma ExtractOfLinks(f: seq<byte>, pos: nat, kernel: seq<byte>, rootfsLink: Result<(nat, seq<byte>), ExtractError>)
    requires ChainImage(f, CHAIN_START, KERNEL_MAGIC, BadKernelMagic) == Ok((pos, kernel))
    requires ChainImage(f, pos, ROOTFS_MAGIC, BadRootfsMagic) == rootfsLink
    ensures rootfsLink.Err? ==> Extract(f) == Err(rootfsLink.error)
    ensures rootfsLink.Ok? ==> Extract(f) == Ok((kernel, rootfsLink.value.1))
  {
  }

  /** Where each of the four sections sits in the container. */
  lemma BuiltLayout(apploader: seq<byte>, gs: seq<byte>, ks: seq<byte>, os: seq<byte>, rs: seq<byte>, trailer: seq<byte>)
    ensures var f := apploader + gs + ks + os + rs + trailer;
      && At(f, |apploader|, gs)
      && At(f, |apploader| + |gs|, ks)
      && At(f, |apploader| + |gs| + |ks|, os)
      && At(f, |apploader| + |gs| + |ks| + |os|, rs)
  {
    var a1 := apploader + gs;
    var a2 := a1 + ks;
    var a3 := a2 + os;
    var a4 := a3 + rs;
    AtEnd(apploader, gs);
    AtExtend(a1, |apploader|, gs, ks);
    AtExtend(a2, |apploader|, gs, os);
    AtExtend(a3, |apploader|, gs, rs);
    AtExtend(a4, |apploader|, gs, trailer);
    AtEnd(a1, ks);
    AtExtend(a2, |a1|, ks, os);
    AtExtend(a3, |a1|, ks, rs);
    AtExtend(a4, |a1|, ks, trailer);
    AtEnd(a2, os);
    AtExtend(a3, |a2|, os, rs);
    AtExtend(a4, |a2|, os, trailer);
    AtEnd(a3, rs);
    AtExtend(a4, |a3|, rs, trailer);
  }

  /** A link whose two reads are known yields its image, or `bad` when the
      magic is wrong. */
  lemma ChainImageOf(f: seq<byte>, pos: nat, n: nat, l: nat, image: seq<byte>, magic: seq<byte>, bad: ExtractError)
    requires ReadLength(f, pos) == Some(n)
    requires SectionImage(f, pos + n) == Some((l, image))
    ensures HasMagic(image, magic) ==> ChainImage(f, pos, magic, bad) == Ok((pos + n + l, image))
    ensures !HasMagic(image, magic) ==> ChainImage(f, pos, magic, bad) == Err(bad)
  {
  }

  /** A successful extraction returns a kernel image starting with `cr6c`
      and a rootfs image starting with `r6cr`, both read from the chain. */
  lemma ExtractMagics(f: seq<byte>)
    requires Extract(f).Ok?
    ensures HasMagic(Extract(f).value.0, KERNEL_MAGIC) && HasMagic(Extract(f).value.1, ROOTFS_MAGIC)
    ensures Extract(f).value.0 == SectionImage(f, CHAIN_START + ReadLength(f, CHAIN_START).value).value.1
    ensures var pos := ChainImage(f, CHAIN_START, KERNEL_MAGIC, BadKernelMagic).value.0;
      Extract(f).value.1 == SectionImage(f, pos + ReadLength(f, pos).value).value.1
  {
    var k := ChainImage(f, CHAIN_START, KERNEL_MAGIC, BadKernelMagic);
    var r := ChainImage(f, k.value.0, ROOTFS_MAGIC, BadRootfsMagic);
    assert Extract(f) == Ok((k.value.1, r.value.1));
    ChainImageOk(f, CHAIN_START, KERNEL_MAGIC, BadKernelMagic);
    ChainImageOk(f, k.value.0, ROOTFS_MAGIC, BadRootfsMagic);
  }

  /** A link that succeeds yields the image of the section its length
      skips to, and that image starts with `magic`. */
  lemma ChainImageOk(f: seq<byte>, pos: nat, magic: seq<byte>, bad: ExtractError)
    requires ChainImage(f, pos, magic, bad).Ok?
    ensures HasMagic(ChainImage(f, pos, magic, bad).value.1, magic)
    ensures ChainImage(f, pos, magic, bad).value.1 == SectionImage(f, pos + ReadLength(f, pos).value).value.1
  {
  }

  // ---------------------------------------------------------------------------
  // The fw_update wrapper (generate_firmware_for_fw_update)
  // ---------------------------------------------------------------------------

  /** `binascii.unhexlify(firmware_type[fwtype])`, or `None` for an unknown type. */
  function Tag(fwtype: string): (r: Option<seq<byte>>)
    ensures r.Some? ==> |r.value| > 0
  {
    if fwtype == "header" then Some([0x4D, 0x49, 0x4F, 0x54, 0x00, 0x11, 0x00, 0x13, 0x07, 0x11, 0x0F, 0x05])
    else if fwtype == "gbl" then Some([0x0F, 0x13, 0x3F, 0xCD, 0xA8, 0xFC, 0x04, 0x04, 0xFC, 0x04, 0x00, 0x00])
    else if fwtype == "linux_0" || fwtype == "linux_1" then Some(KERNEL_TAG)
    else if fwtype == "ota-file test" then Some([0x00, 0x02, 0xD1, 0xDC, 0x02, 0x00, 0x03, 0xF2, 0x53, 0x18])
    else if fwtype == "rootfs_0" || fwtype == "rootfs_1" then Some(ROOTFS_TAG)
    else if fwtype == "cert" then Some([0x4D, 0x49, 0xEF, 0x54, 0x46, 0x4F, 0x54, 0x41])
    else None
  }

  const KERNEL_TAG: seq<byte> := [0x63, 0x72, 0x36, 0x63, 0x80, 0xA0, 0x00, 0x00, 0x00, 0x80, 0x00, 0x00]
  const ROOTFS_TAG: seq<byte> := [0x72, 0x36, 0x63, 0x72, 0x00, 0x2D, 0x00, 0x00, 0x00, 0xE0, 0x00, 0x00]

  /** The tag lengths differ: 12 bytes for most types, 10 for `ota-file test`, 8 for `cert`. */
  lemma TagLengths()
    ensures |Tag("header").value| == 12 && |Tag("gbl").value| == 12
    ensures |Tag("linux_0").value| == 12 && |Tag("rootfs_1").value| == 12
    ensures |Tag("ota-file test").value| == 10 && |Tag("cert").value| == 8
    ensures HasMagic(Tag("header").value, MIOT_MAGIC)
  {
  }

  /** The kernel and rootfs slot types, whose tags carry the image magics. */
  predicate IsImageType(fwtype: string)
  {
    fwtype == "linux_0" || fwtype == "linux_1" || fwtype == "rootfs_0" || fwtype == "rootfs_1"
  }

  /** `firmware_align_size.get(fwtype, 0x200)`. */
  function AlignSize(fwtype: string): (r: nat)
    ensures r == 0x200 || r == 0x800
    ensures r == 0x800 <==> fwtype == "rootfs_0" || fwtype == "rootfs_1"
  {
    if fwtype == "rootfs_0" || fwtype == "rootfs_1" then 0x800 else 0x200
  }

  /** The bytes that bring `size` up to a multiple of `align`. */
  function PadCount(size: nat, align: nat): (r: nat)
    requires align > 0
    ensures r < align && (size + r) % align == 0
  {
    var m := size % align;
    if m >= 1 then
      var q := size / align;
      assert size + (align - m) == (q + 1) * align;
      ModOfDecomposition(size + (align - m), q + 1, 0, align);
      align - m
    else
      ModOfDecomposition(size, size / align, 0, align);
      0
  }

  datatype WrapError =
    | UnknownType      // no tag for the type: nothing is written
    | AlreadyWrapped   // the file already starts with `cr6c` or `r6cr`: nothing is written
    | OddLength        // the checksum step raises IndexError
    | TooLarge         // the length does not fit `to_bytes(4)`: OverflowError

  /** The first 16 bytes of a file, `f_in.read(16)`. */
  function Head16(file: seq<byte>): (r: seq<byte>)
    ensures |r| == Min(16, |file|) && r == file[..|r|]
  {
    file[..Min(16, |file|)]
  }

  /** True when a file starts with either image magic: the wrapped form. */
  predicate IsWrapped(file: seq<byte>)
  {
    HasMagic(Head16(file), KERNEL_MAGIC) || HasMagic(Head16(file), ROOTFS_MAGIC)
  }

  /** The length field: image size, padding, one more alignment unit, and the
      4-byte checksum. */
  function DeclaredLength(fwtype: string, size: nat): nat
  {
    size + PadCount(size, AlignSize(fwtype)) + AlignSize(fwtype) + 4
  }

  /** `padding` zero bytes and the 4-byte checksum, written only when the
      checksum is at least 1. */
  function Trailer(padding: nat, c: nat): seq<byte>
    requires c < 0x10000
  {
    if c >= 1 then Fill(0, padding) + Be32(c) else []
  }

  /** The trailer after the payload: the padding count plus one more
      alignment unit of zeros. */
  function WrapTrailer(fwtype: string, size: nat, c: nat): seq<byte>
    requires c < 0x10000
  {
    Trailer(PadCount(size, AlignSize(fwtype)) + AlignSize(fwtype), c)
  }

  /** The checks `generate_firmware_for_fw_update` makes before writing, in order. */
  function WrapCheck(fwtype: string, file: seq<byte>): Option<WrapError>
  {
    if Tag(fwtype).None? then Some(UnknownType)
    else if IsWrapped(file) then Some(AlreadyWrapped)
    else if ImageChecksum(file).None? then Some(OddLength)
    else if DeclaredLength(fwtype, |file|) >= TWO_POW_32 then Some(TooLarge)
    else None
  }

  /** What a reader finds in a wrapped file: the tag `t`, the length
      `declared` as a 4-byte big-endian number, the payload, and then
      nothing when the checksum `c` is 0, or else `padding` zero bytes
      followed by four bytes holding `c`. */
  predicate WrapLayout(w: seq<byte>, t: seq<byte>, declared: nat, payload: seq<byte>, padding: nat, c: nat)
  {
    var n := |t| + 4 + |payload|;
    && n <= |w| && w[..|t|] == t && BeValue(w[|t|..|t| + 4]) == declared
    && w[|t| + 4..n] == payload
    && (c == 0 ==> |w| == n)
    && (c >= 1 ==> TrailerAt(w, n, padding, c))
  }

  /** From position `n` on, `w` holds `padding` zeros and then four bytes
      holding `c`, and nothing more. */
  predicate TrailerAt(w: seq<byte>, n: nat, padding: nat, c: nat)
  {
    && |w| == n + padding + 4
    && (forall i :: n <= i < |w| - 4 ==> w[i] == 0)
    && BeValue(w[|w| - 4..]) == c
  }

  /** The four pieces of a concatenation can be sliced back out of it. */
  lemma SliceParts(t: seq<byte>, l: seq<byte>, p: seq<byte>)
    ensures var w := t + l + p;
      && w[..|t|] == t && w[|t|..|t| + |l|] == l && w[|t| + |l|..] == p
  {
  }

  /** A written trailer reads back after whatever precedes it. */
  lemma {:induction false} TrailerAfter(pre: seq<byte>, padding: nat, c: nat)
    requires 1 <= c < 0x10000
    ensures TrailerAt(pre + Trailer(padding, c), |pre|, padding, c)
  {
    var tr := Fill(0, padding) + Be32(c);
    var w := pre + tr;
    assert w[|w| - 4..] == Be32(c);
    forall i | |pre| <= i < |w| - 4
      ensures w[i] == 0
    {
      assert w[i] == tr[i - |pre|] == Fill(0, padding)[i - |pre|];
    }
  }

  /** The concatenation the wrapper writes has that layout. */
  lemma WrapLayoutOf(t: seq<byte>, declared: nat, payload: seq<byte>, padding: nat, c: nat)
    requires declared < TWO_POW_32 && c < 0x10000
    ensures WrapLayout(t + Be32(declared) + payload + Trailer(padding, c), t, declared, payload, padding, c)
  {
    var pre := t + Be32(declared) + payload;
    var w := pre + Trailer(padding, c);
    SliceParts(t, Be32(declared), payload);
    assert w[..|pre|] == pre;
    assert w[..|t|] == pre[..|t|];
    assert w[|t|..|t| + 4] == pre[|t|..|t| + 4];
    assert w[|t| + 4..|pre|] == pre[|t| + 4..];
    if c >= 1 {
      TrailerAfter(pre, padding, c);
    }
  }

  /** The bytes `generate_firmware_for_fw_update` writes to `<name>_fw_update.bin`,
      as written: the payload is `raw`, only the first 16 bytes of the file.
      It writes nothing for an unknown type or an already wrapped file, and
      raises for an odd-length file or a length beyond 32 bits. */
  function WrapForUpdate(fwtype: string, file: seq<byte>): (r: Result<seq<byte>, WrapError>)
    ensures Tag(fwtype).None? ==> r == Err(UnknownType)
    ensures Tag(fwtype).Some? && IsWrapped(file) ==> r == Err(AlreadyWrapped)
    ensures Tag(fwtype).Some? && !IsWrapped(file) && |file| % 2 == 1 ==> r == Err(OddLength)
    ensures Tag(fwtype).Some? && !IsWrapped(file) && |file| % 2 == 0 && DeclaredLength(fwtype, |file|) >= TWO_POW_32
            ==> r == Err(TooLarge)
    ensures r.Ok? <==> Tag(fwtype).Some? && !IsWrapped(file) && |file| % 2 == 0 && DeclaredLength(fwtype, |file|) < TWO_POW_32
    ensures r.Ok? ==> WrapLayout(r.value, Tag(fwtype).value, DeclaredLength(fwtype, |file|), Head16(file),
                                 PadCount(|file|, AlignSize(fwtype)) + AlignSize(fwtype), ImageChecksum(file).value)
  {
    if WrapCheck(fwtype, file).Some? then Err(WrapCheck(fwtype, file).value)
    else
      WrapLayoutOf(Tag(fwtype).value, DeclaredLength(fwtype, |file|), Head16(file),
                   PadCount(|file|, AlignSize(fwtype)) + AlignSize(fwtype), ImageChecksum(file).value);
      Ok(Tag(fwtype).value + Be32(DeclaredLength(fwtype, |file|)) + Head16(file)
         + WrapTrailer(fwtype, |file|, ImageChecksum(file).value))
  }

  /** The wrapper with the whole file as payload, which the length field and
      the checksum describe; it refuses and raises in the same cases. */
  function WrapForUpdateWhole(fwtype: string, file: seq<byte>): (r: Result<seq<byte>, WrapError>)
    ensures Tag(fwtype).None? ==> r == Err(UnknownType)
    ensures Tag(fwtype).Some? && IsWrapped(file) ==> r == Err(AlreadyWrapped)
    ensures Tag(fwtype).Some? && !IsWrapped(file) && |file| % 2 == 1 ==> r == Err(OddLength)
    ensures Tag(fwtype).Some? && !IsWrapped(file) && |file| % 2 == 0 && DeclaredLength(fwtype, |file|) >= TWO_POW_32
            ==> r == Err(TooLarge)
    ensures r.Ok? <==> Tag(fwtype).Some? && !IsWrapped(file) && |file| % 2 == 0 && DeclaredLength(fwtype, |file|) < TWO_POW_32
    ensures r.Ok? ==> WrapLayout(r.value, Tag(fwtype).value, DeclaredLength(fwtype, |file|), file,
                                 PadCount(|file|, AlignSize(fwtype)) + AlignSize(fwtype), ImageChecksum(file).value)
  {
    if WrapCheck(fwtype, file).Some? then Err(WrapCheck(fwtype, file).value)
    else
      WrapLayoutOf(Tag(fwtype).value, DeclaredLength(fwtype, |file|), file,
                   PadCount(|file|, AlignSize(fwtype)) + AlignSize(fwtype), ImageChecksum(file).value);
      Ok(Tag(fwtype).value + Be32(DeclaredLength(fwtype, |file|)) + file
         + WrapTrailer(fwtype, |file|, ImageChecksum(file).value))
  }

  /** The padding makes the image size plus padding a multiple of the
      alignment, with fewer than one alignment unit added; the alignment is
      0x800 for rootfs slots and 0x200 otherwise. */
  lemma WrapPadding(fwtype: string, size: nat)
    ensures PadCount(size, AlignSize(fwtype)) < AlignSize(fwtype)
    ensures (size + PadCount(size, AlignSize(fwtype))) % AlignSize(fwtype) == 0
  {
  }

  /** Wrapping twice does nothing more: an image type's wrapped output starts
      with its magic, so it is refused as already wrapped. */
  lemma WrapIdempotent(fwtype: string, file: seq<byte>)
    requires IsImageType(fwtype) && WrapForUpdateWhole(fwtype, file).Ok?
    ensures WrapForUpdateWhole(fwtype, WrapForUpdateWhole(fwtype, file).value) == Err(AlreadyWrapped)
    ensures WrapForUpdate(fwtype, WrapForUpdateWhole(fwtype, file).value) == Err(AlreadyWrapped)
  {
    var w := WrapForUpdateWhole(fwtype, file).value;
    assert w[..4] == Tag(fwtype).value[..4];
    MagicWrapped(w);
  }

  /** The as-written wrapper is idempotent in the same way. */
  lemma WrapForUpdateIdempotent(fwtype: string, file: seq<byte>)
    requires IsImageType(fwtype) && WrapForUpdate(fwtype, file).Ok?
    ensures WrapForUpdate(fwtype, WrapForUpdate(fwtype, file).value) == Err(AlreadyWrapped)
  {
    var w := WrapForUpdate(fwtype, file).value;
    assert w[..4] == Tag(fwtype).value[..4];
    MagicWrapped(w);
  }

  /** As written, the length field disagrees with what follows it once the
      file is longer than 16 bytes and has a trailer: it counts the whole
      file but only its first 16 bytes are written. */
  lemma WrapForUpdateDropsPayload(fwtype: string, file: seq<byte>)
    requires WrapForUpdate(fwtype, file).Ok? && |file| > 16 && ImageChecksum(file).value >= 1
    ensures |WrapForUpdate(fwtype, file).value| - |Tag(fwtype).value| - 4
            == DeclaredLength(fwtype, |file|) - (|file| - 16)
  {
  }

  /** A concrete file the as-written wrapper truncates: 32 bytes starting
      with 1, whose checksum is 0xff00. */
  lemma WrapForUpdateExample()
    ensures var file: seq<byte> := [1] + Fill(0, 31);
      WrapForUpdate("linux_0", file).Ok? &&
      |WrapForUpdate("linux_0", file).value| == 12 + 4 + 16 + 0x200 - 32 + 0x200 + 4 &&
      DeclaredLength("linux_0", |file|) == 32 + (0x200 - 32) + 0x200 + 4
  {
    var file: seq<byte> := [1] + Fill(0, 31);
    ExampleFile(file);
    assert PadCount(32, 0x200) == 0x200 - 32;
    assert WrapCheck("linux_0", file) == None;
  }

  /** The example file is not wrapped and its checksum is 0xff00. */
  lemma ExampleFile(file: seq<byte>)
    requires file == [1] + Fill(0, 31)
    ensures !IsWrapped(file) && ImageChecksum(file) == Some(0xff00)
  {
    assert file[..2] == [1, 0];
    WordSumZeros(30);
    assert file[2..] == Fill(0, 30);
    WordSumAppend(file[..2], file[2..]);
    assert file == file[..2] + file[2..];
    assert WordSum(file[..2]) == 256 by { assert file[..2][..0] == []; }
    assert !IsWrapped(file) by { assert Head16(file)[0] == 1; }
  }

  /** With the corrected payload the length field counts exactly the bytes
      after it whenever a trailer is written. */
  lemma WrapWholeLength(fwtype: string, file: seq<byte>)
    requires WrapForUpdateWhole(fwtype, file).Ok? && ImageChecksum(file).value >= 1
    ensures |WrapForUpdateWhole(fwtype, file).value| - |Tag(fwtype).value| - 4 == DeclaredLength(fwtype, |file|)
  {
  }

  // ---------------------------------------------------------------------------
  // Unwrap and padding (burn_by_* and generate_padded_firmware)
  // ---------------------------------------------------------------------------

  /** `f_in.seek(16); f_in.read()`: the file without its first 16 bytes. */
  function Strip16(file: seq<byte>): (r: seq<byte>)
    ensures |file| >= 16 ==> file == file[..16] + r
    ensures |file| < 16 ==> r == []
  {
    file[Min(16, |file|)..]
  }

  /** The unwrap step of the burn functions: a wrapped file is replaced by
      `<name>_raw` holding everything after its first 16 bytes; any other
      file is used as it is. */
  function Unwrap(name: string, file: seq<byte>): (string, seq<byte>)
  {
    if IsWrapped(file) then (name + "_raw", Strip16(file)) else (name, file)
  }

  /** Unwrapping the corrected wrapper of an image type gives back the file
      followed by its zero padding and the 4-byte checksum. */
  lemma UnwrapWrapped(name: string, fwtype: string, file: seq<byte>)
    requires IsImageType(fwtype) && WrapForUpdateWhole(fwtype, file).Ok? && ImageChecksum(file).value >= 1
    ensures Unwrap(name, WrapForUpdateWhole(fwtype, file).value)
         == (name + "_raw", file + Fill(0, PadCount(|file|, AlignSize(fwtype)) + AlignSize(fwtype))
                            + Be32(ImageChecksum(file).value))
  {
    WrapIdempotent(fwtype, file);
    StripWhole(fwtype, file);
  }

  /** The unwrapped image of the corrected wrapper has checksum zero: the
      burn functions accept it as a raw image. */
  lemma UnwrapChecksumZero(name: string, fwtype: string, file: seq<byte>)
    requires IsImageType(fwtype) && WrapForUpdateWhole(fwtype, file).Ok? && ImageChecksum(file).value >= 1
    ensures ImageChecksum(Unwrap(name, WrapForUpdateWhole(fwtype, file).value).1) == Some(0)
  {
    var zeros := PadCount(|file|, AlignSize(fwtype)) + AlignSize(fwtype);
    var c := ImageChecksum(file).value;
    UnwrapWrapped(name, fwtype, file);
    assert Unwrap(name, WrapForUpdateWhole(fwtype, file).value).1 == file + Fill(0, zeros) + Be32(c);
    assert |file| % 2 == 0;
    EvenZeros(fwtype, |file|);
    ChecksumTrailerLong(file, zeros);
  }

  /** The corrected wrapper's first 16 bytes are its tag and length field. */
  lemma StripWhole(fwtype: string, file: seq<byte>)
    requires IsImageType(fwtype) && WrapForUpdateWhole(fwtype, file).Ok? && ImageChecksum(file).value >= 1
    ensures Strip16(WrapForUpdateWhole(fwtype, file).value)
         == file + Fill(0, PadCount(|file|, AlignSize(fwtype)) + AlignSize(fwtype)) + Be32(ImageChecksum(file).value)
  {
    var w := WrapForUpdateWhole(fwtype, file).value;
    var head := Tag(fwtype).value + Be32(DeclaredLength(fwtype, |file|));
    var body := file + WrapTrailer(fwtype, |file|, ImageChecksum(file).value);
    assert |head| == 16;
    assert w == head + body;
  }

  /** A file starting with either image magic counts as wrapped. */
  lemma MagicWrapped(file: seq<byte>)
    requires HasMagic(file, KERNEL_MAGIC) || HasMagic(file, ROOTFS_MAGIC)
    ensures IsWrapped(file)
  {
    var h := Head16(file);
    assert |h| >= 4 && h[..4] == file[..4];
  }

  /** The zeros the wrapper writes before the checksum are even in number
      for an even image size. */
  lemma EvenZeros(fwtype: string, size: nat)
    requires size % 2 == 0
    ensures (PadCount(size, AlignSize(fwtype)) + AlignSize(fwtype)) % 2 == 0
  {
    var align := AlignSize(fwtype);
    assert align % 2 == 0;
    EvenPad(size, align);
    var p := PadCount(size, align);
    ModOfDecomposition(p + align, p / 2 + align / 2, 0, 2);
  }

  /** An even size leaves an even padding to an even alignment. */
  lemma EvenPad(size: nat, align: nat)
    requires align > 0 && size % 2 == 0 && align % 2 == 0
    ensures PadCount(size, align) % 2 == 0
  {
    var q, m, h := size / align, size % align, align / 2;
    assert size == q * align + m;
    assert q * align == 2 * (q * h);
    ModOfDecomposition(m, (size / 2) - q * h, 0, 2);
  }

  /** A file that does not start with an image magic passes through unchanged. */
  lemma UnwrapRaw(name: string, file: seq<byte>)
    requires !IsWrapped(file)
    ensures Unwrap(name, file) == (name, file)
  {
  }

  /** The unconditional `seek(16)` of `burn_all_firmwares` agrees with the
      unwrap step on extracted images, which always start with a magic. */
  lemma StripExtracted(f: seq<byte>, kernelName: string, rootfsName: string)
    requires Extract(f).Ok?
    ensures Unwrap(kernelName, Extract(f).value.0) == (kernelName + "_raw", Strip16(Extract(f).value.0))
    ensures Unwrap(rootfsName, Extract(f).value.1) == (rootfsName + "_raw", Strip16(Extract(f).value.1))
  {
    ExtractMagics(f);
    MagicWrapped(Extract(f).value.0);
    MagicWrapped(Extract(f).value.1);
  }

  /** The burn functions unwrap the already stripped image once more: when
      bytes 16..19 of an extracted image are an image magic, the stripped
      file is stripped again and renamed `<name>_raw`, losing 32 bytes in all. */
  lemma StripTwice(image: seq<byte>, name: string)
    requires |image| >= 16
    requires HasMagic(image[16..], KERNEL_MAGIC) || HasMagic(image[16..], ROOTFS_MAGIC)
    ensures Unwrap(name, Strip16(image)) == (name + "_raw", image[Min(32, |image|)..])
  {
    assert Strip16(image) == image[16..];
    MagicWrapped(image[16..]);
    assert Strip16(image[16..]) == image[Min(32, |image|)..];
  }

  /** Erase-block size the padded image is rounded up to. */
  const ERASE_BLOCK: nat := 0x20000

  datatype PadError =
    | OddLength2   // the checksum step raises IndexError
    | NotRaw       // the checksum is not zero: "invaild format", nothing is written

  /** The contents of `<fwfile>_padding`. */
  function PaddedFirmware(file: seq<byte>): (r: Result<seq<byte>, PadError>)
    ensures r.Ok? <==> |file| % 2 == 0 && ImageChecksum(file) == Some(0)
    ensures |file| % 2 != 0 ==> r == Err(OddLength2)
    ensures |file| % 2 == 0 && ImageChecksum(file) != Some(0) ==> r == Err(NotRaw)
    ensures r.Ok? ==> |r.value| >= |file| && r.value[..|file|] == file
    ensures r.Ok? ==> |r.value| % ERASE_BLOCK == 0 && |r.value| - |file| < ERASE_BLOCK
    ensures r.Ok? ==> forall i :: |file| <= i < |r.value| ==> r.value[i] == 0xFF
  {
    match ImageChecksum(file)
    case None => Err(OddLength2)
    case Some(c) =>
      if c >= 1 then Err(NotRaw)
      else
        var padded := file + Fill(0xFF, PadCount(|file|, ERASE_BLOCK));
        assert padded[..|file|] == file;
        Ok(padded)
  }

  /** An image with its checksum word appended is accepted for padding. */
  lemma PadAfterTrailer(raw: seq<byte>)
    requires |raw| % 2 == 0
    ensures PaddedFirmware(raw + Be16(ImageChecksum(raw).value)).Ok?
  {
    ChecksumTrailerWord(raw);
  }

  /** The corrected wrapper's unwrapped image is accepted for padding. */
  lemma PadAfterUnwrap(name: string, fwtype: string, file: seq<byte>)
    requires IsImageType(fwtype) && WrapForUpdateWhole(fwtype, file).Ok? && ImageChecksum(file).value >= 1
    ensures PaddedFirmware(Unwrap(name, WrapForUpdateWhole(fwtype, file).value).1).Ok?
  {
    UnwrapChecksumZero(name, fwtype, file);
  }
}
