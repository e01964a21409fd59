/** The filesystem as the core uses it: regular files with their contents and a set of
    directories. Every primitive that can fail takes its failure as a parameter (`fault`, the
    message of the exception it would raise). */
module FileStore {
  import opened Wrappers
  import opened Codec
  import opened Paths

  datatype Volume = Volume(files: map<Path, Bytes>, dirs: set<string>)

  /** The outcome of one filesystem step and the volume after it. */
  datatype Step = Step(outcome: Outcome<string>, vol: Volume)

  /** `path.exists()`: a file or a directory is there. */
  predicate Exists(vol: Volume, p: Path): (b: bool)
    ensures p in vol.files ==> b
    ensures b && p !in vol.files ==> PathString(p) in vol.dirs
  {
    p in vol.files || PathString(p) in vol.dirs
  }

  /** The message of the FileNotFoundError a missing file raises. */
  function NoSuchFileMessage(p: Path): string {
    "[Errno 2] No such file or directory: '" + PathString(p) + "'"
  }

  /** `backup_dir / src.name`. */
  function BackupDestination(src: Path, backupDir: string): (dst: Path)
    ensures dst.dir == backupDir && dst.name == src.name
  {
    Path(backupDir, src.name)
  }

  /** `backup_dir.mkdir(parents=True, exist_ok=True)`. */
  function MakeDirsStep(vol: Volume, dir: string, fault: Option<string>): (r: Step)
    ensures r.vol.files == vol.files
    ensures r.outcome.Pass? <==> dir in vol.dirs || fault.None?
    ensures r.outcome.Pass? ==> r.vol.dirs == vol.dirs + {dir}
    ensures r.outcome.Fail? ==> r.vol == vol && r.outcome == Fail(fault.value)
  {
    if dir in vol.dirs then Step(Pass, vol)
    else if fault.Some? then Step(Fail(fault.value), vol)
    else Step(Pass, vol.(dirs := vol.dirs + {dir}))
  }

  /** `_copy_to_backup`: nothing happens when the destination exists (first write wins); otherwise
      `shutil.copy2` copies the source's contents, or raises. */
  function BackupStep(vol: Volume, src: Path, backupDir: string, fault: Option<string>): (r: Step)
    ensures r.vol.dirs == vol.dirs
    ensures forall p :: p in vol.files ==> p in r.vol.files && r.vol.files[p] == vol.files[p]
    ensures r.vol.files.Keys <= vol.files.Keys + {BackupDestination(src, backupDir)}
    ensures Exists(vol, BackupDestination(src, backupDir)) ==> r == Step(Pass, vol)
    ensures r.outcome.Fail? ==> r.vol == vol
    ensures !Exists(vol, BackupDestination(src, backupDir)) ==>
      && (r.outcome.Pass? <==> src in vol.files && fault.None?)
      && (src !in vol.files ==> r.outcome == Fail(NoSuchFileMessage(src)))
      && (r.outcome.Pass? ==> r.vol.files == vol.files[BackupDestination(src, backupDir) := vol.files[src]])
  {
    var dst := BackupDestination(src, backupDir);
    if Exists(vol, dst) then Step(Pass, vol)
    else if src !in vol.files then Step(Fail(NoSuchFileMessage(src)), vol)
    else if fault.Some? then Step(Fail(fault.value), vol)
    else Step(Pass, vol.(files := vol.files[dst := vol.files[src]]))
  }

  /** A backup that succeeded makes every later backup of the same source a no-op that succeeds,
      whatever faults the later one would meet. */
  lemma BackupTwiceIsBackupOnce(vol: Volume, src: Path, backupDir: string, fault1: Option<string>, fault2: Option<string>)
    requires BackupStep(vol, src, backupDir, fault1).outcome.Pass?
    ensures var once := BackupStep(vol, src, backupDir, fault1).vol;
      BackupStep(once, src, backupDir, fault2) == Step(Pass, once)
  {
  }

  /** Under the same faults, backing up twice leaves the same volume as backing up once. */
  lemma BackupIdempotent(vol: Volume, src: Path, backupDir: string, fault: Option<string>)
    ensures var once := BackupStep(vol, src, backupDir, fault).vol;
      BackupStep(once, src, backupDir, fault).vol == once
  {
  }

  /** Sources with the same name share one backup slot: once the backup of `first` succeeded, a
      backup of any `second` with that name (from any directory) succeeds without copying, and the
      slot keeps what it held, which is `first`'s bytes when the first backup made the copy. */
  lemma BackupSlotShared(
    vol: Volume, first: Path, second: Path, backupDir: string, fault1: Option<string>, fault2: Option<string>)
    requires first.name == second.name
    requires BackupStep(vol, first, backupDir, fault1).outcome.Pass?
    ensures var once := BackupStep(vol, first, backupDir, fault1).vol;
      var slot := BackupDestination(second, backupDir);
      && BackupStep(once, second, backupDir, fault2) == Step(Pass, once)
      && (!Exists(vol, slot) ==> slot in once.files && once.files[slot] == vol.files[first])
  {
    assert BackupDestination(first, backupDir) == BackupDestination(second, backupDir);
  }

  /** `_remove_source_file`: unlink only when the file exists. */
  function RemoveStep(vol: Volume, src: Path, fault: Option<string>): (r: Step)
    ensures r.vol.dirs == vol.dirs
    ensures src !in vol.files ==> r == Step(Pass, vol)
    ensures r.outcome.Fail? ==> r.vol == vol && src in vol.files && fault.Some? && r.outcome == Fail(fault.value)
    ensures r.outcome.Pass? ==> r.vol.files == vol.files - {src}
    ensures src in vol.files ==> (r.outcome.Pass? <==> fault.None?)
  {
    if src !in vol.files then Step(Pass, vol)
    else if fault.Some? then Step(Fail(fault.value), vol)
    else Step(Pass, vol.(files := vol.files - {src}))
  }

  /** `target.write_bytes(data)`: overwrites the target unconditionally, or raises. */
  function WriteStep(vol: Volume, target: Path, data: Bytes, fault: Option<string>): (r: Step)
    ensures r.vol.dirs == vol.dirs
    ensures r.outcome.Pass? <==> fault.None?
    ensures r.outcome.Pass? ==> target in r.vol.files && r.vol.files[target] == data
    ensures r.outcome.Pass? ==> r.vol.files.Keys == vol.files.Keys + {target}
    ensures r.outcome.Pass? ==> forall p :: p in vol.files && p != target ==> r.vol.files[p] == vol.files[p]
    ensures r.outcome.Fail? ==> r.vol == vol && r.outcome == Fail(fault.value)
  {
    if fault.Some? then Step(Fail(fault.value), vol)
    else Step(Pass, vol.(files := vol.files[target := data]))
  }

  /** Copying, writing and creating folders never make an existing path stop existing, so a backup
      slot that `exists()` once stays filled, and later backups into it are skipped. */
  lemma StepsKeepExistence(
    vol: Volume, p: Path, src: Path, backupDir: string, target: Path, data: Bytes, dir: string, fault: Option<string>)
    requires Exists(vol, p)
    ensures Exists(BackupStep(vol, src, backupDir, fault).vol, p)
    ensures Exists(WriteStep(vol, target, data, fault).vol, p)
    ensures Exists(MakeDirsStep(vol, dir, fault).vol, p)
    ensures var slot := BackupDestination(src, backupDir);
      p == slot ==> BackupStep(WriteStep(vol, target, data, fault).vol, src, backupDir, fault).outcome.Pass?
  {
  }

  /** The process's view of the filesystem, updated in place by the primitives. */
  class FileSystem {
    var files: map<Path, Bytes>
    var dirs: set<string>

    function Snapshot(): Volume
      reads this
    {
      Volume(files, dirs)
    }

    constructor (vol: Volume)
      ensures Snapshot() == vol
    {
      files := vol.files;
      dirs := vol.dirs;
    }

    method MakeDirs(dir: string, fault: Option<string>) returns (r: Outcome<string>)
      modifies this
      ensures Step(r, Snapshot()) == MakeDirsStep(old(Snapshot()), dir, fault)
    {
      if dir in dirs {
        return Pass;
      }
      if fault.Some? {
        return Fail(fault.value);
      }
      dirs := dirs + {dir};
      r := Pass;
    }

    method CopyToBackup(src: Path, backupDir: string, fault: Option<string>) returns (r: Outcome<string>)
      modifies this
      ensures Step(r, Snapshot()) == BackupStep(old(Snapshot()), src, backupDir, fault)
    {
      var dst := BackupDestination(src, backupDir);
      if dst in files || PathString(dst) in dirs {
        return Pass;
      }
      if src !in files {
        return Fail(NoSuchFileMessage(src));
      }
      if fault.Some? {
        return Fail(fault.value);
      }
      files := files[dst := files[src]];
      r := Pass;
    }

    method RemoveSourceFile(src: Path, fault: Option<string>) returns (r: Outcome<string>)
      modifies this
      ensures Step(r, Snapshot()) == RemoveStep(old(Snapshot()), src, fault)
    {
      if src in files {
        if fault.Some? {
          return Fail(fault.value);
        }
        files := files - {src};
      }
      r := Pass;
    }

    method WriteBytes(target: Path, data: Bytes, fault: Option<string>) returns (r: Outcome<string>)
      modifies this
      ensures Step(r, Snapshot()) == WriteStep(old(Snapshot()), target, data, fault)
    {
      if fault.Some? {
        return Fail(fault.value);
      }
      files := files[target := data];
      r := Pass;
    }
  }
}
