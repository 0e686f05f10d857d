/** The local file system as the client uses it through System.IO on a Unix
    host: files by path, directories by key with the names of the files and
    subdirectories they list, and the temporary folder. */
module Local {
  import opened Common
  import opened Paths

  /** What `Directory.GetFiles` and `Directory.GetDirectories` return for a
      directory, as names. */
  datatype DirListing = DirListing(files: seq<string>, subdirs: seq<string>)

  /** A name a directory lists: not empty, and with neither '/' nor '\\' in it. */
  predicate IsLocalName(n: string) {
    IsName(n) && '\\' !in n
  }

  /** The names of a listing are plain and pairwise different, a file and a
      subdirectory included. */
  predicate ValidListing(l: DirListing) {
    && (forall i | 0 <= i < |l.files| :: IsLocalName(l.files[i]))
    && (forall i | 0 <= i < |l.subdirs| :: IsLocalName(l.subdirs[i]))
    && (forall i, j | 0 <= i < j < |l.files| :: l.files[i] != l.files[j])
    && (forall i, j | 0 <= i < j < |l.subdirs| :: l.subdirs[i] != l.subdirs[j])
    && (forall i, j | 0 <= i < |l.files| && 0 <= j < |l.subdirs| :: l.files[i] != l.subdirs[j])
  }

  /** Every directory key is at most `bound` long and lists valid names. */
  predicate ValidDirs(dirs: map<string, DirListing>, bound: nat) {
    forall d | d in dirs :: |d| <= bound && ValidListing(dirs[d])
  }

  /** Writing a file twice leaves the second content. */
  lemma Overwrite(files: map<string, seq<byte>>, p: string, first: seq<byte>, second: seq<byte>)
    ensures files[p := first][p := second] == files[p := second]
  {
  }

  /** A file written at a path that was free and then deleted, once or twice,
      leaves no trace. */
  lemma WriteThenDelete(files: map<string, seq<byte>>, p: string, content: seq<byte>)
    requires p !in files
    ensures files[p := content] - {p} == files
    ensures files[p := content] - {p} - {p} == files
  {
  }

  /** A staged file written at a free path, a second file written at `out`,
      and both deleted: only `out` is gone. */
  lemma StagedCleanup(files: map<string, seq<byte>>, temp: string, staged: seq<byte>, out: string, bytes: seq<byte>)
    requires temp !in files
    ensures files[temp := staged][out := bytes] - {out} - {temp} == files - {out}
  {
  }

  /** Where a file may be created or overwritten when the disk has directories
      `dirs` and files `files`: a file path whose key no directory takes and
      that does not lie below a file. */
  predicate LocalWritable(dirs: map<string, DirListing>, files: map<string, seq<byte>>, p: string) {
    p != "" && !EndsWith(p, '/') && Key(p) !in dirs && !BelowFile(files, p)
  }

  /** The temporary folder of `Path.GetTempPath()`, and its key. */
  const TempFolder: string := "/tmp/"
  const TempFolderKey: string := "/tmp"

  class LocalFs {
    var files: map<string, seq<byte>>
    var dirs: map<string, DirListing>
    /** A bound on the length of every directory key (for recursive walks). */
    ghost var bound: nat

    ghost predicate Valid()
      reads this
    {
      && (forall k | k in files :: k != "" && !EndsWith(k, '/') && k !in dirs)
      && ValidDirs(dirs, bound)
      && TempFolderKey in dirs
    }

    constructor (files: map<string, seq<byte>>, dirs: map<string, DirListing>, ghost bound: nat)
      requires forall k | k in files :: k != "" && !EndsWith(k, '/') && k !in dirs
      requires ValidDirs(dirs, bound) && TempFolderKey in dirs
      ensures Valid() && this.files == files && this.dirs == dirs && this.bound == bound
    {
      this.files := files;
      this.dirs := dirs;
      this.bound := bound;
    }

    /** `File.Exists(path)` */
    predicate FileExists(p: string)
      reads this
    {
      p in files
    }

    /** `Directory.Exists(path)`: false for null and for the empty path. */
    predicate DirExists(p: Option<string>)
      reads this
    {
      p.Some? && p.value != "" && Key(p.value) in dirs
    }

    /** What `Directory.CreateDirectory(path)` ends with. */
    function CreateDirectoryOutcome(p: Option<string>): (r: Outcome)
      reads this
      ensures r.Pass? <==> p.Some? && p.value != "" && Key(p.value) !in files && !BelowFile(files, p.value)
    {
      if p.None? then Fail(ArgumentNull("path"))
      else if p.value == "" then Fail(EmptyArgument("path"))
      else if Key(p.value) in files || BelowFile(files, p.value) then Fail(LocalFailure(p.value))
      else Pass
    }

    /** `Directory.CreateDirectory(path)`: nothing to do when the directory is
        already there; refused for null, for "", where a file is and below a
        file. */
    method CreateDirectory(p: Option<string>) returns (r: Outcome)
      requires Valid()
      modifies this
      ensures Valid()
      ensures r == old(CreateDirectoryOutcome(p))
      ensures r.Pass? ==> DirExists(p)
      ensures dirs == (if r.Pass? && !old(DirExists(p)) then old(dirs)[Key(p.value) := DirListing([], [])] else old(dirs))
      ensures files == old(files) && bound >= old(bound)
    {
      r := CreateDirectoryOutcome(p);
      if r.Pass? && Key(p.value) !in dirs {
        dirs := dirs[Key(p.value) := DirListing([], [])];
        if |Key(p.value)| > bound {
          bound := |Key(p.value)|;
        }
      }
    }

    /** Whether a file may be created or overwritten at `p`. */
    predicate Writable(p: string)
      reads this
    {
      LocalWritable(dirs, files, p)
    }

    /** `File.OpenWrite` / `new FileStream(path, FileMode.Create)` followed by
        writing `content` and closing. */
    method WriteFile(p: string, content: seq<byte>) returns (r: Outcome)
      requires Valid()
      modifies this
      ensures Valid()
      ensures r == (if old(Writable(p)) then Pass else if p == "" then Fail(EmptyArgument("path")) else Fail(LocalFailure(p)))
      ensures files == (if r.Pass? then old(files)[p := content] else old(files))
      ensures dirs == old(dirs) && bound == old(bound)
    {
      if p == "" {
        return Fail(EmptyArgument("path"));
      }
      if EndsWith(p, '/') || Key(p) in dirs || BelowFile(files, p) {
        return Fail(LocalFailure(p));
      }
      files := files[p := content];
      r := Pass;
    }

    /** `File.Delete(path)`: a missing file is not an error; a directory is. */
    method DeleteFile(p: string) returns (r: Outcome)
      requires Valid()
      modifies this
      ensures Valid()
      ensures r == (if p == "" then Fail(EmptyArgument("path")) else if Key(p) in old(dirs) then Fail(LocalFailure(p)) else Pass)
      ensures files == (if r.Pass? then old(files) - {p} else old(files))
      ensures dirs == old(dirs) && bound == old(bound)
    {
      if p == "" {
        return Fail(EmptyArgument("path"));
      }
      if Key(p) in dirs {
        return Fail(LocalFailure(p));
      }
      files := files - {p};
      r := Pass;
    }

    /** `Path.Combine(Path.GetTempPath(), $"{Guid.NewGuid()}.tmp")`: a name in the
        temporary folder that no file or directory has. The random GUID is
        replaced by a name longer than every path in use. */
    method NewTempPath() returns (p: string)
      requires Valid()
      ensures p !in files && Key(p) !in dirs && Writable(p)
      ensures |p| > |TempFolder| + 4 && p[..|TempFolder|] == TempFolder && p[|p| - 4..] == ".tmp"
    {
      var longest: nat := 0;
      var pending := files.Keys + dirs.Keys;
      while pending != {}
        invariant pending <= files.Keys + dirs.Keys
        invariant forall k | k in files.Keys + dirs.Keys && k !in pending :: |k| <= longest
        decreases pending
      {
        var k :| k in pending;
        if |k| > longest {
          longest := |k|;
        }
        pending := pending - {k};
      }
      var name := seq(longest + 1, _ => 'x');
      assert forall i | 0 <= i < |name| :: name[i] == 'x';
      p := TempFolder + name + ".tmp";
      TempNameFree(name, files, dirs);
    }
  }

  /** A name in the temporary folder longer than every path in use is free,
      and a file may be written there while the temporary folder is a
      directory. */
  lemma TempNameFree(name: string, files: map<string, seq<byte>>, dirs: map<string, DirListing>)
    requires name != [] && '/' !in name && TempFolderKey !in files
    requires forall k | k in files.Keys + dirs.Keys :: |k| < |name|
    ensures var p := TempFolder + name + ".tmp";
      && p !in files && Key(p) !in dirs && LocalWritable(dirs, files, p)
      && |p| > |TempFolder| + 4 && p[..|TempFolder|] == TempFolder && p[|p| - 4..] == ".tmp"
  {
    var p := TempFolder + name + ".tmp";
    assert p[..|TempFolder|] == TempFolder;
    assert p[|p| - 4..] == ".tmp";
    assert p[|p| - 1] == 'p';
    TempBelowOnlyTempFolder(name, files);
    assert p !in files.Keys + dirs.Keys by {
      assert |p| > |name|;
    }
    assert !EndsWith(p, '/');
  }

  /** A name in the temporary folder lies below a file only if the temporary
      folder itself is a file. */
  lemma TempBelowOnlyTempFolder(name: string, files: map<string, seq<byte>>)
    requires '/' !in name
    ensures Key(TempFolder + name + ".tmp") == TempFolder + name + ".tmp"
    ensures BelowFile(files, TempFolder + name + ".tmp") ==> TempFolderKey in files
  {
    var p := TempFolder + name + ".tmp";
    assert p[|p| - 1] == 'p';
    forall i | 0 < i < |p| && i != 4
      ensures p[i] != '/'
    {
      if i < |TempFolder| {
        assert p[i] == TempFolder[i];
      } else if i < |TempFolder| + |name| {
        assert p[i] == name[i - |TempFolder|];
      } else {
        assert p[i] == ".tmp"[i - |TempFolder| - |name|];
      }
    }
    assert p[..4] == "/tmp";
  }
}
