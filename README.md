# ovaify in Dafny

A model of the OVA builder in `ovaify.go`. An OVA is a tar archive. Its
first entry is the OVF descriptor. The files the configuration lists come
after it, in the order given, each stored under its base name with its
size, mode and modification time.

The model has seven modules, five of which model the program:

- `Failures` (`failures.dfy`) holds `Option` and the errors the builder can
  return.
- `Os` (`os.dfy`) is the filesystem as a value. It maps each path to the
  file's bytes, its mode, its modification time and whether it can be opened
  and read. It also holds the set of output paths that can be created.
  `os.Stat` becomes `Stat`.
- `GoPath` (`gopath.dfy`) is `path.Base`, which names the entries.
- `Tar` (`tar.dfy`) is the tar writer as a `class Writer`. Its `entries`
  field holds one header and body per entry. `WriteHeader` and `Write` keep
  the writer's own rules:
  - a header is refused while the previous body is incomplete;
  - writing past a header's size is refused.

  The output's failures are given up front as `Faults`, by entry number.
- `Ovaify` (`ovaify.dfy`) holds the core:
  - `OvaConfig` is a class whose `Validate` may change its
    `outputFileMode`;
  - `CopyFileIntoOva` is a method on a `Writer`;
  - `CreateOvaFile` validates a copy of the configuration and then copies
    the descriptor and every listed file.

  The copy loop is the method `CopyFilesIntoOva`. Every method is proved
  against a function:
  - `ConfigError` and `EffectiveMode` for `Validate`;
  - `CopyStep` for one copy, which is defined directly from the file and
    the faults, independently of the writer's methods;
  - `Build` for the loop, which copies until the first failure.

  The lemmas state what these functions promise: entry order and count, the
  header fields, fail-fast, and what a failed run leaves behind.

`Seqs` (`seqs.dfy`) holds small generic facts about sequences. `Scenarios`
(`scenarios.dfy`) works through concrete runs: a complete one, a missing
file and a short write.

## Model

| member | source | states |
|---|---|---|
| GoPath.TrimTrailingSlashesDropsSlashes | ovaify.go:105 | Trimming yields a prefix of the path. The prefix does not end in '/', and only slashes were removed. |
| GoPath.LastElementIsSuffix | ovaify.go:105 | The last element is a slash-free suffix of the path. A '/' precedes it unless it is the whole path. |
| GoPath.Base | ovaify.go:105 | An entry name is never empty. It contains no '/' unless it is "/" itself. |
| GoPath.BaseOfFlatName | ovaify.go:105 | A non-empty name without '/' is its own base name. |
| GoPath.BaseAfterDirectory | ovaify.go:105 | `dir + "/" + name` is stored as `name`, whatever the directory part. |
| GoPath.BaseIgnoresTrailingSlash | ovaify.go:105 | Adding a trailing slash to a non-empty path does not change its base name. |
| GoPath.BaseIdempotent | ovaify.go:105 | Taking the base name twice gives the same name. |
| Tar.AfterHeader | ovaify.go:110-113 | A header is accepted exactly when the previous body is complete and the output takes it. It then adds one empty entry; otherwise nothing changes. An incomplete previous body gives MissedBytes before the output is tried; only then can the output give HeaderRejected. Well-formedness is kept. |
| Tar.AfterWrite | ovaify.go:115-118 | A write only extends the last body, by a prefix of the data. Earlier entries and all headers are unchanged. It succeeds exactly when the data fits and the output takes all of it. Its only errors are BodyRejected and WriteTooLong. |
| Tar.AppendKeepsWellFormed | ovaify.go:110-113 | A new entry appended after a complete one keeps the archive well formed. |
| Tar.WriteAfterHeader | ovaify.go:110-118 | A body of exactly the header's size, written right after the header, gives the complete entry. The exception is an output that fails part-way, which gives BodyRejected and the prefix it took. |
| Tar.Writer.constructor | ovaify.go:71 | A new writer is empty and well formed. |
| Tar.Writer.WriteHeader | ovaify.go:110 | Changes the entries as AfterHeader says and keeps them well formed. |
| Tar.Writer.Write | ovaify.go:115 | Changes the entries as AfterWrite says. Reports how many bytes went in and never exceeds the room left. |
| Ovaify.ConfigError | ovaify.go:30-53 | An empty OVF path fails first, without the filesystem. Next a failing stat of the OVF, then empty files to include, then an empty output path. Validation succeeds exactly when all four checks pass. |
| Ovaify.EffectiveMode | ovaify.go:40-42 | A set mode is kept. An unset mode takes the OVF's mode once the OVF has been stat'ed, even if a later check fails. Otherwise the mode is unchanged. |
| Ovaify.ValidateIdempotent | ovaify.go:30-53 | Validating already-validated settings gives the same error and keeps the mode. |
| Ovaify.OvaConfig.constructor | ovaify.go:12-27 | The object holds exactly the given field values. |
| Ovaify.OvaConfig.Validate | ovaify.go:30-53 | Returns ConfigError of the old fields. It changes only `outputFileMode`, to EffectiveMode. |
| Ovaify.CopyStepAddsAtMostOne | ovaify.go:93-118 | A stat, open or header failure adds nothing. Any other outcome adds exactly one entry after the existing ones, with the file's header and a prefix of its bytes. |
| Ovaify.CopyStepKeepsWellFormed | ovaify.go:104-118 | One copy keeps the archive well formed. |
| Ovaify.CopyStepSucceeds | ovaify.go:92-121 | A copy succeeds exactly when the file can be stat'ed, opened and read, the previous body is complete, and the output takes the header and every byte. It then adds exactly the file's entry. |
| Ovaify.CopyFileIntoOva | ovaify.go:92-121 | The error and the writer's new entries are those of CopyStep. The writer stays well formed. |
| Ovaify.Build | ovaify.go:78-83 | A run reports no error exactly when it copied every path. |
| Ovaify.BuildKeepsWellFormed | ovaify.go:78-83 | A whole run keeps the archive well formed. |
| Ovaify.BuildSucceeds | ovaify.go:78-85 | A successful run has stat'ed every path. It wrote exactly one complete entry per path, in order, after the existing ones. |
| Ovaify.ExpectedAt | ovaify.go:104-108 | The i-th entry of a complete run belongs to the i-th path. Its name is the path's base name, its size equals its body's length, and its body is the file's content. |
| Ovaify.BuildIgnoresRest | ovaify.go:79-82 | Once a run fails, appending more paths changes nothing. |
| Ovaify.BuildStops | ovaify.go:78-83 | A failed run copied `copied` files successfully. Its error and entries are those of copying the next file after them. |
| Ovaify.BuildFailureLeaves | ovaify.go:78-83 | A failed run leaves the complete entries of the files before the failing one. At most a header and part of the body of the failing file follow. |
| Ovaify.BuildReadsOnlyItsPaths | ovaify.go:78-83 | A run sees the filesystem only through Stat of its own paths. |
| Ovaify.BuildLooksNoFurther | ovaify.go:78-83 | Paths after the failing one are never looked at. A filesystem that agrees up to the failing path gives the same run. |
| Ovaify.BuildSnoc | ovaify.go:78-83 | After a successful run, one more path is one more CopyStep. |
| Ovaify.BuildPrefixFails | ovaify.go:79-82 | A run whose prefix fails is that prefix's run. |
| Ovaify.BuildAppend | ovaify.go:73-83 | Running over `ps + qs` means running over `ps`, then, if that succeeded, over `qs` from where it stopped. |
| Ovaify.BuildOneMore | ovaify.go:79-82 | Copying the next path either extends a successful run by one, or ends the whole run with that copy's error and entries. |
| Ovaify.CopyFilesIntoOva | ovaify.go:78-83 | The loop's error and the writer's final entries are those of Build over the paths. |
| Ovaify.OvaLayout | ovaify.go:73-85 | A successful run writes exactly 1 + number-of-files entries. The OVF's entry comes first, under its base name, then one entry per file in the given order. Every entry is complete. |
| Ovaify.CreateOvaFile | ovaify.go:59-86 | A validation error is returned and no file is created. An output that cannot be opened gives OpenFailed and no file. Otherwise the error is Build's over the OVF then the files, and the file holds Build's entries and was requested with the effective mode. The caller's config is not modified, since the method has no modifies clause. |
| Scenarios.CompleteRun | ovaify.go:73-85 | A descriptor and a disk image give two entries, descriptor first, with their names, sizes, modes, times and bytes. |
| Scenarios.MissingMember | ovaify.go:78-83 | A missing second file gives its stat error. Only the descriptor's entry is left, and the file after the missing one is never reached. |
| Scenarios.ShortWrite | ovaify.go:115-118 | An output that takes one byte of the disk image gives BodyRejected. It leaves the image's header and that byte. |

## Left out

- The system calls `os.Stat`, `os.Open`, `os.OpenFile` and `Close`, and the deferred closes. They are OS I/O. The filesystem is a value, opening is a flag per file, and creating the output is membership in `writable`. Errors from `Close` are ignored by the code and are not modelled.
- The byte-level tar format: header blocks, checksums, padding and format selection. Entries are records.
- Finalising the archive. `CreateOvaFile` never closes or flushes the tar writer, so no end-of-archive marker is written. The model claims nothing about a finished tar stream, and `OvaFile` holds only the entries.
- `io.Copy` streaming: chunked reads and writes, and short writes other than the output's `Faults`. A read failure is all-or-nothing. The header is written, then `ReadFailed` with an empty body.
- A file that changes between its stat and its copy. The filesystem is a single snapshot, so the size in a header always equals the bytes read.
- An output path that is also an input. Truncating the output would change what is read later; the snapshot does not capture that.
- The output's failures are an oracle (`Faults`), given up front by entry number. They stand for every reason the tar writer or the file under it can refuse a header or a body, including headers Go's writer cannot encode.
- Tar.Writer: Go's tar writer remembers a failed body write and returns that error on later calls. The model does not, because `CreateOvaFile` never uses the writer after an error.
- Ovaify.CreateOvaFile: `OvaFile.requestedMode` is the mode passed to `os.OpenFile`. The mode the file ends up with also depends on the umask and on whether the file already existed; neither is modelled.
- `os.FileMode` bits and `time.Time` values are copied, never interpreted.
- The OVF is stat'ed twice, by `Validate` and again by `CopyFileIntoOva`. Both stats read the same filesystem snapshot, so an OVF that changes between the two stats is not modelled.
- An empty path among the files to include is not checked by `Validate`. It is reported only at copy time, as `StatFailed("")`, after the entries before it are written.
- `Validate` stats the OVF before it checks the other fields, so a missing OVF is reported even when the other fields are also invalid.
