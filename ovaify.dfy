/** Assembling an OVA: a tar archive whose first entry is the OVF
    descriptor, followed by the files to include in the order given, each
    stored under its base name with its size, mode and modification time. */
module Ovaify {
  import opened Failures
  import opened GoPath
  import opened Os
  import opened Tar
  import opened Seqs

  /** The values of an `OvaConfig`'s fields. */
  datatype Settings = Settings(
    ovfFilePath: string,
    filePathsToInclude: seq<string>,
    outputFileMode: FileMode,
    outputFilePath: string)

  /** The error `Validate` returns for these settings. The checks run in a
      fixed order, and each error implies that every earlier check passed. */
  function ConfigError(s: Settings, fs: FileSystem): (r: Option<Error>)
    // an empty OVF path is reported whatever the filesystem holds
    ensures r == Some(NoOvfFile) <==> s.ovfFilePath == ""
    // a failing stat of the OVF wins over the checks of the other fields
    ensures s.ovfFilePath != "" && Stat(fs, s.ovfFilePath).None? ==> r == Some(StatFailed(s.ovfFilePath))
    ensures r == Some(NoFilesToInclude) <==>
      s.ovfFilePath != "" && Stat(fs, s.ovfFilePath).Some? && s.filePathsToInclude == []
    ensures r == Some(NoOutputPath) <==>
      s.ovfFilePath != "" && Stat(fs, s.ovfFilePath).Some? && s.filePathsToInclude != [] && s.outputFilePath == ""
    ensures r == None <==>
      s.ovfFilePath != "" && Stat(fs, s.ovfFilePath).Some? && s.filePathsToInclude != [] && s.outputFilePath != ""
  {
    if s.ovfFilePath == "" then Some(NoOvfFile)
    else if Stat(fs, s.ovfFilePath).None? then Some(StatFailed(s.ovfFilePath))
    else if s.filePathsToInclude == [] then Some(NoFilesToInclude)
    else if s.outputFilePath == "" then Some(NoOutputPath)
    else None
  }

  /** The output mode after `Validate`: an unset (zero) mode takes the OVF's
      mode once the OVF has been stat'ed, whether or not a later check
      fails; a mode that is set is kept. */
  function EffectiveMode(s: Settings, fs: FileSystem): (m: FileMode)
    ensures s.outputFileMode != 0 ==> m == s.outputFileMode
    ensures s.ovfFilePath != "" && Stat(fs, s.ovfFilePath).Some? && s.outputFileMode == 0 ==>
      m == Stat(fs, s.ovfFilePath).value.mode
    ensures s.ovfFilePath == "" || Stat(fs, s.ovfFilePath).None? ==> m == s.outputFileMode
  {
    if s.ovfFilePath != "" && Stat(fs, s.ovfFilePath).Some? && s.outputFileMode == 0
    then Stat(fs, s.ovfFilePath).value.mode
    else s.outputFileMode
  }

  /** Validating settings that have already been validated reports the
      same error and leaves the mode as it is. */
  lemma ValidateIdempotent(s: Settings, fs: FileSystem)
    ensures var v := s.(outputFileMode := EffectiveMode(s, fs));
      ConfigError(v, fs) == ConfigError(s, fs) && EffectiveMode(v, fs) == v.outputFileMode
  {
  }

  /** Go's `OvaConfig`. `Validate` has a pointer receiver: it may change
      `outputFileMode`. */
  class OvaConfig {
    var ovfFilePath: string
    var filePathsToInclude: seq<string>
    var outputFileMode: FileMode
    var outputFilePath: string

    constructor (s: Settings)
      ensures Value() == s
    {
      ovfFilePath := s.ovfFilePath;
      filePathsToInclude := s.filePathsToInclude;
      outputFileMode := s.outputFileMode;
      outputFilePath := s.outputFilePath;
    }

    function Value(): Settings
      reads this
    {
      Settings(ovfFilePath, filePathsToInclude, outputFileMode, outputFilePath)
    }

    method Validate(fs: FileSystem) returns (err: Option<Error>)
      modifies this`outputFileMode
      ensures err == ConfigError(old(Value()), fs)
      ensures Value() == old(Value()).(outputFileMode := EffectiveMode(old(Value()), fs))
    {
      if |ovfFilePath| == 0 {
        return Some(NoOvfFile);
      }
      var ovfInfo := Stat(fs, ovfFilePath);
      if ovfInfo.None? {
        return Some(StatFailed(ovfFilePath));
      }
      if outputFileMode == 0 {
        outputFileMode := ovfInfo.value.mode;
      }
      if |filePathsToInclude| == 0 {
        return Some(NoFilesToInclude);
      }
      if |outputFilePath| == 0 {
        return Some(NoOutputPath);
      }
      return None;
    }
  }

  /** The entry a file that can be stat'ed becomes: its base name, size,
      mode and modification time in the header, its bytes as the body. */
  function FileEntry(fs: FileSystem, p: string): Entry
    requires Stat(fs, p).Some?
  {
    var info := Stat(fs, p).value;
    Entry(HeaderOf(p, info), info.content)
  }

  /** The header `CopyFileIntoOva` writes for the file at `p`. */
  function HeaderOf(p: string, info: FileInfo): Header
  {
    Header(Base(p), |info.content|, info.mode, info.modTime)
  }

  /** What copying the file at `p` into a writer holding `es` leads to,
      stated directly from the file and the output's faults: stat, open,
      header, read and body failures in that order. */
  function CopyStep(fs: FileSystem, p: string, es: seq<Entry>, faults: Faults): Step
  {
    match Stat(fs, p)
    case None => Step(Some(StatFailed(p)), es)
    case Some(info) =>
      if !info.openable then Step(Some(OpenFailed(p)), es)
      else if Remaining(es) != 0 then Step(Some(MissedBytes), es)
      else if |es| in faults.header then Step(Some(HeaderRejected), es)
      else
        var h := HeaderOf(p, info);
        if !info.readable then Step(Some(ReadFailed(p)), es + [Entry(h, [])])
        else if |es| in faults.body && faults.body[|es|] < |info.content| then
          Step(Some(BodyRejected), es + [Entry(h, info.content[..faults.body[|es|]])])
        else Step(None, es + [Entry(h, info.content)])
  }

  /** A copy leaves the entries already written alone: it adds nothing when
      the file cannot be stat'ed or opened or the header is refused, and
      otherwise one entry with the file's header and a prefix of its bytes. */
  lemma CopyStepAddsAtMostOne(fs: FileSystem, p: string, es: seq<Entry>, faults: Faults)
    ensures var r := CopyStep(fs, p, es, faults);
      && (Stat(fs, p).None? ==> r == Step(Some(StatFailed(p)), es))
      && (Stat(fs, p).Some? && !Stat(fs, p).value.openable ==> r == Step(Some(OpenFailed(p)), es))
      && (r.err == Some(MissedBytes) || r.err == Some(HeaderRejected) ==> r.entries == es)
      && (r.entries == es || (
            && Stat(fs, p).Some?
            && |r.entries| == |es| + 1 && r.entries[..|es|] == es
            && r.entries[|es|].header == FileEntry(fs, p).header
            && r.entries[|es|].body <= FileEntry(fs, p).body))
  {
    var r := CopyStep(fs, p, es, faults);
    if r.entries != es {
      var info := Stat(fs, p).value;
      var e := r.entries[|es|];
      assert r.entries == es + [e];
      assert r.entries[..|es|] == es;
      assert e.header == HeaderOf(p, info);
    }
  }

  /** A copy keeps the archive well formed. */
  lemma CopyStepKeepsWellFormed(fs: FileSystem, p: string, es: seq<Entry>, faults: Faults)
    requires WellFormed(es)
    ensures WellFormed(CopyStep(fs, p, es, faults).entries)
  {
    var r := CopyStep(fs, p, es, faults);
    if r.entries != es {
      AppendKeepsWellFormed(es, r.entries[|es|]);
      assert r.entries == es + [r.entries[|es|]];
    }
  }

  /** A copy succeeds exactly when the file can be stat'ed, opened and read,
      the previous entry is complete and the output accepts the header and
      every byte; it then adds the file's entry and nothing else. */
  lemma CopyStepSucceeds(fs: FileSystem, p: string, es: seq<Entry>, faults: Faults)
    ensures var r := CopyStep(fs, p, es, faults);
      && (r.err == None <==>
            && Stat(fs, p).Some? && Stat(fs, p).value.openable && Stat(fs, p).value.readable
            && Remaining(es) == 0 && |es| !in faults.header
            && (|es| !in faults.body || |Stat(fs, p).value.content| <= faults.body[|es|]))
      && (r.err == None ==> r.entries == es + [FileEntry(fs, p)])
  {
  }

  /** Copies the file at `filePath` into the archive `ova`: stat, open,
      write the header, then copy the bytes. */
  method CopyFileIntoOva(filePath: string, ova: Writer, fs: FileSystem) returns (err: Option<Error>)
    requires ova.Valid()
    modifies ova
    ensures ova.Valid()
    ensures Step(err, ova.entries) == CopyStep(fs, filePath, old(ova.entries), ova.faults)
  {
    var info := Stat(fs, filePath);
    if info.None? {
      return Some(StatFailed(filePath));
    }
    if !info.value.openable {
      return Some(OpenFailed(filePath));
    }
    ghost var es := ova.entries;
    var header := Header(Base(filePath), |info.value.content|, info.value.mode, info.value.modTime);
    assert header == HeaderOf(filePath, info.value);
    err := ova.WriteHeader(header);
    if err.Some? {
      assert ova.entries == es;
      return;
    }
    assert ova.entries == es + [Entry(header, [])];
    if !info.value.readable {
      return Some(ReadFailed(filePath));
    }
    var _, copyErr := ova.Write(info.value.content);
    WriteAfterHeader(es, ova.faults, header, info.value.content);
    return copyErr;
  }

  /** The outcome of copying a sequence of files: the first error, the
      entries written, and how many files were copied in full before it. */
  datatype Outcome = Outcome(err: Option<Error>, entries: seq<Entry>, copied: nat)

  /** Copying the files `ps` in order into a writer holding `es`, stopping
      at the first failure, as the loop of `CreateOvaFile` does. */
  function Build(fs: FileSystem, ps: seq<string>, es: seq<Entry>, faults: Faults): (r: Outcome)
    ensures r.copied <= |ps|
    ensures r.err == None <==> r.copied == |ps|
    decreases |ps|
  {
    if ps == [] then Outcome(None, es, 0)
    else
      var b := Build(fs, ps[..|ps| - 1], es, faults);
      if b.err.Some? then b
      else
        var s := CopyStep(fs, ps[|ps| - 1], b.entries, faults);
        Outcome(s.err, s.entries, if s.err == None then b.copied + 1 else b.copied)
  }

  /** A run keeps the archive well formed. */
  lemma {:induction false} BuildKeepsWellFormed(fs: FileSystem, ps: seq<string>, es: seq<Entry>, faults: Faults)
    requires WellFormed(es)
    ensures WellFormed(Build(fs, ps, es, faults).entries)
    decreases |ps|
  {
    if ps != [] {
      var b := Build(fs, ps[..|ps| - 1], es, faults);
      BuildKeepsWellFormed(fs, ps[..|ps| - 1], es, faults);
      CopyStepKeepsWellFormed(fs, ps[|ps| - 1], b.entries, faults);
    }
  }

  /** Every path in `ps` can be stat'ed. */
  ghost predicate AllStatable(fs: FileSystem, ps: seq<string>)
  {
    forall i :: 0 <= i < |ps| ==> Stat(fs, ps[i]).Some?
  }

  /** The entries a complete run writes for `ps`: one `FileEntry` per path. */
  ghost function Expected(fs: FileSystem, ps: seq<string>): (r: seq<Entry>)
    requires AllStatable(fs, ps)
    ensures |r| == |ps|
    decreases |ps|
  {
    if ps == [] then [] else Expected(fs, ps[..|ps| - 1]) + [FileEntry(fs, ps[|ps| - 1])]
  }

  lemma AllStatableSnoc(fs: FileSystem, ps: seq<string>)
    requires ps != [] && AllStatable(fs, ps[..|ps| - 1]) && Stat(fs, ps[|ps| - 1]).Some?
    ensures AllStatable(fs, ps)
  {
    forall i | 0 <= i < |ps| ensures Stat(fs, ps[i]).Some? {
      if i < |ps| - 1 { assert ps[..|ps| - 1][i] == ps[i]; }
    }
  }

  /** A run that reports no error has stat'ed every path and written
      exactly one complete entry per path, in order, after `es`. */
  lemma {:induction false} BuildSucceeds(fs: FileSystem, ps: seq<string>, es: seq<Entry>, faults: Faults)
    requires Build(fs, ps, es, faults).err == None
    ensures AllStatable(fs, ps)
    ensures Build(fs, ps, es, faults).entries == es + Expected(fs, ps)
    decreases |ps|
  {
    if ps != [] {
      var init := ps[..|ps| - 1];
      var b := Build(fs, init, es, faults);
      BuildSucceeds(fs, init, es, faults);
      CopyStepSucceeds(fs, ps[|ps| - 1], b.entries, faults);
      AllStatableSnoc(fs, ps);
      AppendAssoc(es, Expected(fs, init), [FileEntry(fs, ps[|ps| - 1])]);
    }
  }

  /** The `i`th expected entry is the `i`th path's: stored under the path's
      base name, which holds no '/' unless it is "/" itself, with the file's
      size and bytes. */
  lemma {:induction false} ExpectedAt(fs: FileSystem, ps: seq<string>, i: nat)
    requires AllStatable(fs, ps) && i < |ps|
    ensures Expected(fs, ps)[i] == FileEntry(fs, ps[i])
    ensures Expected(fs, ps)[i].header.name == Base(ps[i])
    ensures Expected(fs, ps)[i].header.size == |Expected(fs, ps)[i].body|
    ensures Expected(fs, ps)[i].body == Stat(fs, ps[i]).value.content
    decreases |ps|
  {
    var init := ps[..|ps| - 1];
    assert AllStatable(fs, init) by {
      forall j | 0 <= j < |init| ensures Stat(fs, init[j]).Some? { assert init[j] == ps[j]; }
    }
    if i < |ps| - 1 {
      ExpectedAt(fs, init, i);
      assert ps[i] == init[i];
    }
  }

  /** Once a file fails, the paths after it are never looked at: appending
      more paths changes nothing about the run. */
  lemma {:induction false} BuildIgnoresRest(fs: FileSystem, ps: seq<string>, qs: seq<string>, es: seq<Entry>, faults: Faults)
    requires Build(fs, ps, es, faults).err.Some?
    ensures Build(fs, ps + qs, es, faults) == Build(fs, ps, es, faults)
    decreases |qs|
  {
    if qs == [] {
      AppendEmpty(ps);
    } else {
      InitOfAppend(ps, qs);
      BuildIgnoresRest(fs, ps, qs[..|qs| - 1], es, faults);
    }
  }

  /** A run that fails has copied the first `copied` files completely and
      failed on the next one: its error and final entries are those of
      copying that file after the successful run over the files before it. */
  lemma {:induction false} BuildStops(fs: FileSystem, ps: seq<string>, es: seq<Entry>, faults: Faults)
    requires Build(fs, ps, es, faults).err.Some?
    ensures Build(fs, ps, es, faults).copied < |ps|
    ensures var c := Build(fs, ps, es, faults).copied;
      && Build(fs, ps[..c], es, faults).err == None
      && Step(Build(fs, ps, es, faults).err, Build(fs, ps, es, faults).entries)
         == CopyStep(fs, ps[c], Build(fs, ps[..c], es, faults).entries, faults)
    decreases |ps|
  {
    var init := ps[..|ps| - 1];
    var b := Build(fs, init, es, faults);
    if b.err.Some? {
      BuildStops(fs, init, es, faults);
      TakeTake(ps, |ps| - 1, b.copied);
    }
  }

  /** What a failed run leaves in the archive: the complete entries of the
      files copied before the failure, then at most a header and part of
      the body of the file that failed. */
  lemma BuildFailureLeaves(fs: FileSystem, ps: seq<string>, es: seq<Entry>, faults: Faults)
    requires Build(fs, ps, es, faults).err.Some?
    ensures var r := Build(fs, ps, es, faults);
      && r.copied < |ps| && AllStatable(fs, ps[..r.copied])
      && |es| + r.copied <= |r.entries| <= |es| + r.copied + 1
      && r.entries[..|es| + r.copied] == es + Expected(fs, ps[..r.copied])
      && (|r.entries| == |es| + r.copied + 1 ==>
            && Stat(fs, ps[r.copied]).Some?
            && r.entries[|es| + r.copied].header == FileEntry(fs, ps[r.copied]).header
            && r.entries[|es| + r.copied].body <= FileEntry(fs, ps[r.copied]).body)
  {
    var r := Build(fs, ps, es, faults);
    BuildStops(fs, ps, es, faults);
    var b := Build(fs, ps[..r.copied], es, faults);
    BuildSucceeds(fs, ps[..r.copied], es, faults);
    var s := CopyStep(fs, ps[r.copied], b.entries, faults);
    assert r.entries == s.entries;
    if s.entries == b.entries {
      TakeAll(b.entries);
    }
  }

  /** A run sees the filesystem only through `Stat` of its own paths. */
  lemma {:induction false} BuildReadsOnlyItsPaths(fs1: FileSystem, fs2: FileSystem, ps: seq<string>, es: seq<Entry>, faults: Faults)
    requires forall i :: 0 <= i < |ps| ==> Stat(fs1, ps[i]) == Stat(fs2, ps[i])
    ensures Build(fs1, ps, es, faults) == Build(fs2, ps, es, faults)
    decreases |ps|
  {
    if ps != [] {
      var init := ps[..|ps| - 1];
      forall i | 0 <= i < |init| ensures Stat(fs1, init[i]) == Stat(fs2, init[i]) {
        assert init[i] == ps[i];
      }
      BuildReadsOnlyItsPaths(fs1, fs2, init, es, faults);
    }
  }

  /** Fail-fast: once the copy of `ps[copied]` fails, no later path is
      looked at, so a filesystem that agrees on the paths up to and
      including the failing one gives the same run. */
  lemma BuildLooksNoFurther(fs1: FileSystem, fs2: FileSystem, ps: seq<string>, es: seq<Entry>, faults: Faults)
    requires Build(fs1, ps, es, faults).err.Some?
    requires forall i :: 0 <= i <= Build(fs1, ps, es, faults).copied ==> Stat(fs1, ps[i]) == Stat(fs2, ps[i])
    ensures Build(fs2, ps, es, faults) == Build(fs1, ps, es, faults)
  {
    var n := Build(fs1, ps, es, faults).copied + 1;
    var pre := ps[..n];
    BuildStops(fs1, ps, es, faults);
    TakeSnoc(ps, n - 1);
    BuildSnoc(fs1, ps[..n - 1], ps[n - 1], es, faults);
    forall i | 0 <= i < |pre| ensures Stat(fs1, pre[i]) == Stat(fs2, pre[i]) {
      assert pre[i] == ps[i];
    }
    BuildReadsOnlyItsPaths(fs1, fs2, pre, es, faults);
    BuildPrefixFails(fs1, ps, n, es, faults);
    BuildPrefixFails(fs2, ps, n, es, faults);
  }

  /** One more file after a successful run is one more `CopyStep`. */
  lemma BuildSnoc(fs: FileSystem, ps: seq<string>, p: string, es: seq<Entry>, faults: Faults)
    requires Build(fs, ps, es, faults).err == None
    ensures var s := CopyStep(fs, p, Build(fs, ps, es, faults).entries, faults);
      Build(fs, ps + [p], es, faults) == Outcome(s.err, s.entries, if s.err == None then |ps| + 1 else |ps|)
  {
    InitOfAppend(ps, [p]);
  }

  /** A run whose prefix `ps[..n]` already fails is that prefix's run. */
  lemma BuildPrefixFails(fs: FileSystem, ps: seq<string>, n: nat, es: seq<Entry>, faults: Faults)
    requires n <= |ps| && Build(fs, ps[..n], es, faults).err.Some?
    ensures Build(fs, ps, es, faults) == Build(fs, ps[..n], es, faults)
  {
    BuildIgnoresRest(fs, ps[..n], ps[n..], es, faults);
    TakeDrop(ps, n);
  }

  /** Running over `ps + qs` is running over `ps` and, if that succeeds,
      over `qs` from where it left off. */
  lemma {:induction false} BuildAppend(fs: FileSystem, ps: seq<string>, qs: seq<string>, es: seq<Entry>, faults: Faults)
    ensures var b := Build(fs, ps, es, faults);
      Build(fs, ps + qs, es, faults) ==
        if b.err.Some? then b
        else var r := Build(fs, qs, b.entries, faults); Outcome(r.err, r.entries, |ps| + r.copied)
    decreases |qs|
  {
    if qs == [] {
      AppendEmpty(ps);
    } else {
      InitOfAppend(ps, qs);
      BuildAppend(fs, ps, qs[..|qs| - 1], es, faults);
    }
  }

  /** After a successful run over `ps[..i]`, copying `ps[i]` either
      extends the run by one file or ends the whole run over `ps`. */
  lemma BuildOneMore(fs: FileSystem, ps: seq<string>, i: nat, es: seq<Entry>, faults: Faults,
                     before: seq<Entry>, err: Option<Error>, after: seq<Entry>)
    requires i < |ps| && Build(fs, ps[..i], es, faults) == Outcome(None, before, i)
    requires Step(err, after) == CopyStep(fs, ps[i], before, faults)
    ensures err.None? ==> Build(fs, ps[..i + 1], es, faults) == Outcome(None, after, i + 1)
    ensures err.Some? ==> Build(fs, ps, es, faults).err == err && Build(fs, ps, es, faults).entries == after
  {
    BuildSnoc(fs, ps[..i], ps[i], es, faults);
    TakeSnoc(ps, i);
    if err.Some? {
      BuildPrefixFails(fs, ps, i + 1, es, faults);
    }
  }

  /** The loop of `CreateOvaFile` over the files to include. */
  method CopyFilesIntoOva(filePaths: seq<string>, ova: Writer, fs: FileSystem) returns (err: Option<Error>)
    requires ova.Valid()
    modifies ova
    ensures ova.Valid()
    ensures var r := Build(fs, filePaths, old(ova.entries), ova.faults);
      err == r.err && ova.entries == r.entries
  {
    ghost var es := ova.entries;
    var i := 0;
    while i < |filePaths|
      invariant 0 <= i <= |filePaths|
      invariant ova.Valid()
      invariant Build(fs, filePaths[..i], es, ova.faults) == Outcome(None, ova.entries, i)
    {
      ghost var before := ova.entries;
      err := CopyFileIntoOva(filePaths[i], ova, fs);
      BuildOneMore(fs, filePaths, i, es, ova.faults, before, err, ova.entries);
      if err.Some? {
        return;
      }
      i := i + 1;
    }
    TakeAll(filePaths);
    return None;
  }

  /** A successful run over the OVF descriptor and the files to include
      writes the descriptor's entry first, then one entry per file in the
      order given, each complete and stored under its base name. */
  lemma OvaLayout(fs: FileSystem, ovf: string, files: seq<string>, faults: Faults)
    requires Build(fs, [ovf] + files, [], faults).err == None
    ensures var es := Build(fs, [ovf] + files, [], faults).entries;
      && |es| == 1 + |files|
      && Stat(fs, ovf).Some? && es[0] == FileEntry(fs, ovf) && es[0].header.name == Base(ovf)
      && (forall i :: 0 <= i < |files| ==>
            Stat(fs, files[i]).Some? && es[i + 1] == FileEntry(fs, files[i]))
      && (forall i :: 0 <= i < |es| ==> es[i].header.size == |es[i].body|)
  {
    var ps := [ovf] + files;
    BuildSucceeds(fs, ps, [], faults);
    assert [] + Expected(fs, ps) == Expected(fs, ps);
    ExpectedAt(fs, ps, 0);
    forall i | 0 <= i < |files|
      ensures Stat(fs, files[i]).Some? && Expected(fs, ps)[i + 1] == FileEntry(fs, files[i])
    {
      ExpectedAt(fs, ps, i + 1);
      assert ps[i + 1] == files[i];
    }
    forall i | 0 <= i < |ps| ensures Expected(fs, ps)[i].header.size == |Expected(fs, ps)[i].body| {
      ExpectedAt(fs, ps, i);
    }
  }

  /** The output file `CreateOvaFile` leaves behind: where it is, the mode
      it was created with, and the tar entries written into it. */
  datatype OvaFile = OvaFile(path: string, requestedMode: FileMode, entries: seq<Entry>)

  /** Validates a copy of `config`, creates the output file and copies the
      OVF descriptor and then every file to include into it, stopping at
      the first error. The file stays behind, holding what was written,
      when a copy fails. */
  method CreateOvaFile(config: OvaConfig, fs: FileSystem, faults: Faults) returns (err: Option<Error>, ova: Option<OvaFile>)
    ensures var s := config.Value();
      ConfigError(s, fs).Some? ==> err == ConfigError(s, fs) && ova == None
    ensures var s := config.Value();
      ConfigError(s, fs) == None && s.outputFilePath !in fs.writable ==>
        err == Some(OpenFailed(s.outputFilePath)) && ova == None
    ensures var s := config.Value();
      ConfigError(s, fs) == None && s.outputFilePath in fs.writable ==>
        var r := Build(fs, [s.ovfFilePath] + s.filePathsToInclude, [], faults);
        err == r.err && ova == Some(OvaFile(s.outputFilePath, EffectiveMode(s, fs), r.entries))
  {
    var settings := config.Value();
    var c := new OvaConfig(settings);
    err := c.Validate(fs);
    if err.Some? {
      return err, None;
    }
    var ovf, files, mode, out := c.ovfFilePath, c.filePathsToInclude, c.outputFileMode, c.outputFilePath;
    if out !in fs.writable {
      return Some(OpenFailed(out)), None;
    }
    var tarw := new Writer(faults);
    err := CopyFileIntoOva(ovf, tarw, fs);
    BuildSnoc(fs, [], ovf, [], faults);
    BuildAppend(fs, [ovf], files, [], faults);
    assert [] + [ovf] == [ovf];
    if err.Some? {
      return err, Some(OvaFile(out, mode, tarw.entries));
    }
    err := CopyFilesIntoOva(files, tarw, fs);
    return err, Some(OvaFile(out, mode, tarw.entries));
  }
}
