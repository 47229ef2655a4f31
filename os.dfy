/** The part of the operating system the OVA builder sees: files that can be
    stat'ed, opened and read, and the output paths it may create. */
module Os {
  import opened Failures

  newtype byte = b: int | 0 <= b < 0x100

  /** Go's `os.FileMode`, a 32-bit value. Its bits are copied, never
      interpreted; 0 is the zero value of an unset configuration field. */
  newtype FileMode = m: int | 0 <= m < 0x1_0000_0000

  /** A modification time (Go's `time.Time`), only ever copied. */
  type Time = int

  /** What the filesystem knows of one path: its bytes (their number is
      the size `os.Stat` reports), its mode and modification time, and
      whether `os.Open` and the reads that follow succeed on it. */
  datatype FileInfo = FileInfo(
    content: seq<byte>,
    mode: FileMode,
    modTime: Time,
    openable: bool,
    readable: bool)

  /** The files the build reads, and the output paths `os.OpenFile` can
      create or truncate for writing. */
  datatype FileSystem = FileSystem(files: map<string, FileInfo>, writable: set<string>)

  /** `os.Stat`: the empty path never names a file. */
  function Stat(fs: FileSystem, p: string): Option<FileInfo>
  {
    if p != "" && p in fs.files then Some(fs.files[p]) else None
  }
}
