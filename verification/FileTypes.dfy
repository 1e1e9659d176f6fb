/** File-list entries (protocol/types.rs). Names and paths are byte sequences. */
module FileTypes {
  import opened Bytes

  const SLASH: byte := 0x2F
  const DOT: byte := 0x2E

  datatype FileType = Regular | Dir | Symlink | Device | Special

  /** The type bits of a POSIX mode. */
  function FromMode(mode: u32): FileType {
    match mode / 0x1000 % 16
    case 4 => Dir
    case 10 => Symlink
    case 6 => Device
    case 2 => Device
    case 1 => Special
    case 12 => Special
    case 5 => Special
    case _ => Regular
  }

  /** The types in terms of the mode under the mask of the type bits; every mode of another type counts as regular. */
  lemma ModeTypes(mode: u32)
    ensures var t := mode % 0x1_0000 - mode % 0x1000;
            && (FromMode(mode).Dir? <==> t == 0x4000)
            && (FromMode(mode).Symlink? <==> t == 0xA000)
            && (FromMode(mode).Device? <==> t == 0x6000 || t == 0x2000)
            && (FromMode(mode).Special? <==> t == 0x1000 || t == 0xC000 || t == 0x5000)
            && (FromMode(mode).Regular? <==> t !in {0x4000, 0xA000, 0x6000, 0x2000, 0x1000, 0xC000, 0x5000})
  {
    var k := mode / 0x1000 % 16;
    assert mode / 0x1000 == 16 * (mode / 0x1_0000) + k;
    assert mode % 0x1_0000 - mode % 0x1000 == 0x1000 * k;
  }

  datatype FileInfo = FileInfo(
    name: seq<byte>,
    dirname: Option<seq<byte>>,
    modtime: i64,
    modNsec: u32,
    size: i64,
    mode: u32,
    topDir: bool,       // FLAG_TOP_DIR
    hlinked: bool,      // FLAG_HLINKED
    hlinkFirst: bool,   // FLAG_HLINK_FIRST
    uid: u32,
    gid: u32,
    linkTarget: Option<seq<byte>>,
    rdevMajor: u32,
    rdevMinor: u32,
    hardLinkFirstNdx: i32,
    checksum: Option<seq<byte>>,
    dev: nat,
    ino: nat)
  {
    function Path(): seq<byte> {
      if dirname.Some? && dirname.value != [] then dirname.value + [SLASH] + name else name
    }

    function Type(): FileType { FromMode(mode) }
    predicate IsDir() { Type().Dir? }
    predicate IsRegular() { Type().Regular? }
  }
}
