/** Concrete runs: a descriptor and a disk image, each named by a plain
    file name, archived with and without failures. */
module Scenarios {
  import opened Failures
  import opened GoPath
  import opened Os
  import opened Tar
  import opened Ovaify

  const Ovf: FileInfo := FileInfo([1, 2, 3], 0x1A4, 7, true, true)
  const Disk: FileInfo := FileInfo([4, 5], 0x180, 8, true, true)
  const NoFaults: Faults := Faults({}, map[])

  /** Distinct, non-empty names without a directory part. */
  predicate Names(ovf: string, disk: string, gone: string)
  {
    && ovf != [] && disk != [] && gone != []
    && '/' !in ovf && '/' !in disk
    && ovf != disk && gone != ovf && gone != disk
  }

  function VmDir(ovf: string, disk: string): FileSystem
  {
    FileSystem(map[ovf := Ovf, disk := Disk], {})
  }

  function OvfEntry(ovf: string): Entry
  {
    Entry(Header(ovf, 3, 0x1A4, 7), [1, 2, 3])
  }

  function DiskEntry(disk: string): Entry
  {
    Entry(Header(disk, 2, 0x180, 8), [4, 5])
  }

  lemma CopyOvf(ovf: string, disk: string, gone: string, faults: Faults)
    requires Names(ovf, disk, gone) && faults.header == {} && 0 !in faults.body
    ensures CopyStep(VmDir(ovf, disk), ovf, [], faults) == Step(None, [OvfEntry(ovf)])
  {
    var fs := VmDir(ovf, disk);
    assert Stat(fs, ovf) == Some(Ovf);
    assert HeaderOf(ovf, Ovf) == OvfEntry(ovf).header by {
      BaseOfFlatName(ovf);
    }
    assert [] + [OvfEntry(ovf)] == [OvfEntry(ovf)];
  }

  lemma CopyGone(ovf: string, disk: string, gone: string, faults: Faults)
    requires Names(ovf, disk, gone)
    ensures CopyStep(VmDir(ovf, disk), gone, [OvfEntry(ovf)], faults) ==
      Step(Some(StatFailed(gone)), [OvfEntry(ovf)])
  {
  }

  lemma CopyDisk(ovf: string, disk: string, gone: string, faults: Faults)
    requires Names(ovf, disk, gone) && faults.header == {} && 1 !in faults.body
    ensures CopyStep(VmDir(ovf, disk), disk, [OvfEntry(ovf)], faults) ==
      Step(None, [OvfEntry(ovf), DiskEntry(disk)])
  {
    var fs := VmDir(ovf, disk);
    assert Stat(fs, disk) == Some(Disk);
    assert HeaderOf(disk, Disk) == DiskEntry(disk).header by {
      BaseOfFlatName(disk);
    }
    assert Remaining([OvfEntry(ovf)]) == 0;
    assert [OvfEntry(ovf)] + [DiskEntry(disk)] == [OvfEntry(ovf), DiskEntry(disk)];
  }

  lemma CopyDiskCut(ovf: string, disk: string, gone: string, faults: Faults)
    requires Names(ovf, disk, gone) && faults.header == {} && 1 in faults.body && faults.body[1] == 1
    ensures CopyStep(VmDir(ovf, disk), disk, [OvfEntry(ovf)], faults) ==
      Step(Some(BodyRejected), [OvfEntry(ovf), Entry(DiskEntry(disk).header, [4])])
  {
    var fs := VmDir(ovf, disk);
    assert Stat(fs, disk) == Some(Disk);
    assert HeaderOf(disk, Disk) == DiskEntry(disk).header by {
      BaseOfFlatName(disk);
    }
    assert Remaining([OvfEntry(ovf)]) == 0;
    var cut := Entry(HeaderOf(disk, Disk), Disk.content[..1]);
    assert cut == Entry(DiskEntry(disk).header, [4]) by {
      assert Disk.content[..1] == [4];
    }
    assert CopyStep(VmDir(ovf, disk), disk, [OvfEntry(ovf)], faults) ==
      Step(Some(BodyRejected), [OvfEntry(ovf)] + [cut]);
  }

  /** A run over two files, one `CopyStep` after the other. */
  lemma BuildTwo(fs: FileSystem, a: string, b: string, faults: Faults)
    ensures var s1 := CopyStep(fs, a, [], faults);
      var s2 := CopyStep(fs, b, s1.entries, faults);
      Build(fs, [a, b], [], faults) ==
        if s1.err.Some? then Outcome(s1.err, s1.entries, 0)
        else Outcome(s2.err, s2.entries, if s2.err == None then 2 else 1)
  {
    BuildSnoc(fs, [], a, [], faults);
    assert [] + [a] == [a];
    assert [a, b][..1] == [a];
  }

  /** With nothing failing, both files end up in the archive, descriptor
      first, under their names. */
  lemma CompleteRun(ovf: string, disk: string, gone: string)
    requires Names(ovf, disk, gone)
    ensures Build(VmDir(ovf, disk), [ovf, disk], [], NoFaults) ==
      Outcome(None, [OvfEntry(ovf), DiskEntry(disk)], 2)
  {
    CopyOvf(ovf, disk, gone, NoFaults);
    CopyDisk(ovf, disk, gone, NoFaults);
    BuildTwo(VmDir(ovf, disk), ovf, disk, NoFaults);
  }

  /** A missing file stops the run after the descriptor; the file after it
      is never looked at. */
  lemma MissingMember(ovf: string, disk: string, gone: string)
    requires Names(ovf, disk, gone)
    ensures Build(VmDir(ovf, disk), [ovf, gone, disk], [], NoFaults) ==
      Outcome(Some(StatFailed(gone)), [OvfEntry(ovf)], 1)
  {
    CopyOvf(ovf, disk, gone, NoFaults);
    CopyGone(ovf, disk, gone, NoFaults);
    BuildTwo(VmDir(ovf, disk), ovf, gone, NoFaults);
    BuildIgnoresRest(VmDir(ovf, disk), [ovf, gone], [disk], [], NoFaults);
    assert [ovf, gone] + [disk] == [ovf, gone, disk];
  }

  /** An output that takes one byte of the disk image leaves its header and
      that byte behind. */
  lemma ShortWrite(ovf: string, disk: string, gone: string)
    requires Names(ovf, disk, gone)
    ensures Build(VmDir(ovf, disk), [ovf, disk], [], Faults({}, map[1 := 1])) ==
      Outcome(Some(BodyRejected), [OvfEntry(ovf), Entry(DiskEntry(disk).header, [4])], 1)
  {
    var faults := Faults({}, map[1 := 1]);
    CopyOvf(ovf, disk, gone, faults);
    CopyDiskCut(ovf, disk, gone, faults);
    BuildTwo(VmDir(ovf, disk), ovf, disk, faults);
  }
}
