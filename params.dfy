/** The `params` dictionary the burn functions share and rewrite. */
module Settings {
  import opened Wrappers

  /** The entries of `params` the modelled code reads or writes, as a value;
      `None` is a key not set yet (reading it raises KeyError). */
  datatype Entries = Entries(
    fwfile: string,
    fwtype: string,
    tftp: bool,
    xmodem: bool,
    ddrBase: Option<nat>,
    offset: Option<nat>,
    linuxOffset: Option<nat>,
    rootfsOffset: Option<nat>)

  /** The dictionary itself. Flash offsets and RAM addresses are held as
      numbers: an offset is only ever written out as `hex(int(offset, 0))`,
      and the two RAM bases the code stores, `'0xa1000000'` and
      `'0x81000000'`, are already what `hex` prints for them. */
  class Params {
    var fwfile: string
    var fwtype: string
    var tftp: bool
    var xmodem: bool
    var ddrBase: Option<nat>
    var offset: Option<nat>
    var linuxOffset: Option<nat>
    var rootfsOffset: Option<nat>

    /** The dictionary `main` builds from the command line. */
    constructor(fwfile: string, fwtype: string, tftp: bool, xmodem: bool)
      ensures Value() == Entries(fwfile, fwtype, tftp, xmodem, None, None, None, None)
    {
      this.fwfile := fwfile;
      this.fwtype := fwtype;
      this.tftp := tftp;
      this.xmodem := xmodem;
      ddrBase := None;
      offset := None;
      linuxOffset := None;
      rootfsOffset := None;
    }

    /** Every entry, as a value. */
    function Value(): Entries
      reads this
    {
      Entries(fwfile, fwtype, tftp, xmodem, ddrBase, offset, linuxOffset, rootfsOffset)
    }
  }
}
