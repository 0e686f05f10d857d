/** What a successful upload of a local path leaves on the server: a local
    file as the remote file its target names, a local directory as its files
    and then its subdirectories, each sent below the mirrored prefix
    `(remote + "/" + dirName + "/").Replace("//", "/")`. */
module Uploading {
  import opened Common
  import opened Paths
  import opened Local

  /** `Directory.Exists(path)` on a disk with directory keys `ldirs`. */
  predicate IsLocalDir(ldirs: map<string, DirListing>, p: string) {
    p != "" && Key(p) in ldirs
  }

  /** `Directory.GetFiles(p).Union(Directory.GetDirectories(p).Select(x => x + "/"))`
      for a directory listing `l`: the files, then the subdirectories with a
      '/' appended. The union drops nothing, since the names of a listing
      differ and only the subdirectory entries end with '/'. */
  function Entries(p: string, l: DirListing): (es: seq<string>)
    ensures |es| == |l.files| + |l.subdirs|
    ensures forall i | 0 <= i < |l.files| :: es[i] == Combine(p, l.files[i])
    ensures forall i | 0 <= i < |l.subdirs| :: es[|l.files| + i] == Combine(p, l.subdirs[i]) + "/"
  {
    seq(|l.files|, i requires 0 <= i < |l.files| => Combine(p, l.files[i]))
      + seq(|l.subdirs|, i requires 0 <= i < |l.subdirs| => Combine(p, l.subdirs[i]) + "/")
  }

  /** The name behind entry `i` of a listing. */
  function EntryName(l: DirListing, i: nat): string
    requires i < |l.files| + |l.subdirs|
  {
    if i < |l.files| then l.files[i] else l.subdirs[i - |l.files|]
  }

  /** The remote file a local file goes to: a target ending in '/' gets the
      local file name appended. */
  function UploadTarget(localPath: string, remotePath: string): string {
    if EndsWith(remotePath, '/') then remotePath + GetFileName(localPath) else remotePath
  }

  /** The remote path below which an upload of `localPath` writes: the
      mirrored prefix for a directory, the target for a file. */
  function UploadRoot(ldirs: map<string, DirListing>, localPath: string, remotePath: string): string {
    if IsLocalDir(ldirs, localPath) then MirrorDirectory(remotePath, localPath) else UploadTarget(localPath, remotePath)
  }

  /** The mirrored prefix of a directory upload ends in '/' and holds no "//".
      `Replace("//", "/")` makes one pass, so a remote path with a run of
      three slashes keeps a "//". */
  predicate Tidy(ldirs: map<string, DirListing>, localPath: string, remotePath: string) {
    IsLocalDir(ldirs, localPath) ==>
      var m := MirrorDirectory(remotePath, localPath);
      EndsWith(m, '/') && NoDoubleSlash(m)
  }

  /** Every entry of a directory lies inside it, so its key is longer. */
  lemma EntriesLonger(localPath: string, l: DirListing)
    requires localPath != [] && ValidListing(l)
    ensures var es := Entries(LocalDirPrefix(localPath), l);
      forall i | 0 <= i < |es| :: |Key(es[i])| > |Key(localPath)|
  {
    var es := Entries(LocalDirPrefix(localPath), l);
    forall i | 0 <= i < |es| ensures |Key(es[i])| > |Key(localPath)| {
      EntryShape(localPath, l, i);
    }
  }

  /** Entry `i` is the prefix (with '/' ensured) followed by its name, and a
      '/' for a subdirectory; `Path.GetFileName` gives the name for a file
      and "" for a subdirectory. */
  lemma EntryShape(localPath: string, l: DirListing, i: nat)
    requires localPath != [] && ValidListing(l) && i < |l.files| + |l.subdirs|
    ensures var lp := LocalDirPrefix(localPath);
      var q := if EndsWith(lp, '/') then lp else lp + "/";
      var e := Entries(lp, l)[i];
      var n := EntryName(l, i);
      && IsLocalName(n) && EndsWith(q, '/')
      && (i < |l.files| ==> e == q + n && GetFileName(e) == n)
      && (i >= |l.files| ==> e == q + n + "/" && GetFileName(e) == "")
      && |Key(e)| > |Key(localPath)|
  {
    var n := EntryName(l, i);
    assert IsLocalName(n);
    ChildOfPrefix(localPath, n);
  }

  /** A name joined to the prefix of a local directory: `Path.Combine` puts it
      after the separator, `Path.GetFileName` gives it back (or "" once a '/'
      follows), and the key is longer than the directory's. */
  lemma ChildOfPrefix(localPath: string, n: string)
    requires localPath != [] && IsLocalName(n)
    ensures var lp := LocalDirPrefix(localPath);
      var q := if EndsWith(lp, '/') then lp else lp + "/";
      && EndsWith(q, '/') && Combine(lp, n) == q + n
      && GetFileName(q + n) == n && GetFileName(q + n + "/") == ""
      && |Key(q + n)| > |Key(localPath)| && Key(q + n + "/") == Key(q + n)
  {
    var lp := LocalDirPrefix(localPath);
    var q := if EndsWith(lp, '/') then lp else lp + "/";
    assert Combine(lp, n) == q + n by { CombineChild(lp, n); }
    assert GetFileName(q + n) == n by { FileNameOfChild(q, n); }
    assert GetFileName(q + n + "/") == "" by { assert EndsWith(q + n + "/", '/'); }
    assert Key(q + n + "/") == Key(q + n) by { KeyAppendSlash(q + n); }
    assert |Key(q + n)| > |Key(localPath)| by {
      assert n[|n| - 1] != '/' by { assert n[|n| - 1] in n; }
      assert Key(q + n) == q + n;
    }
  }

  /** The remote tree reached from `localPath` sent to `remotePath`, on a disk
      with directories `ldirs` and files `lfiles`, is on the server with files
      `rfiles`: a local directory's entries are each uploaded to the mirrored
      prefix followed by the entry's file name; a local file's bytes are the
      remote file its target names. */
  ghost predicate TreeUploaded(ldirs: map<string, DirListing>, lfiles: map<string, seq<byte>>, bound: nat,
                               rfiles: map<string, seq<byte>>, localPath: string, remotePath: string)
    requires ValidDirs(ldirs, bound)
    decreases bound - |Key(localPath)|
  {
    if IsLocalDir(ldirs, localPath) then
      var l := ldirs[Key(localPath)];
      var es := Entries(LocalDirPrefix(localPath), l);
      var m := MirrorDirectory(remotePath, localPath);
      EntriesLonger(localPath, l);
      forall i | 0 <= i < |es| :: TreeUploaded(ldirs, lfiles, bound, rfiles, es[i], m + GetFileName(es[i]))
    else
      var t := UploadTarget(localPath, remotePath);
      localPath in lfiles && t in rfiles && rfiles[t] == lfiles[localPath]
  }

  /** A path inside a path inside `r` is inside `r`. */
  lemma BeneathTransitive(p: string, q: string, r: string)
    requires Beneath(p, q) && Beneath(q, r)
    ensures Beneath(p, r)
  {
    if p != q && q != r {
      assert p[..|r|] == q[..|r|];
      assert p[|r|] == q[|r|] || EndsWith(r, '/');
    }
  }

  /** Files that agree outside a path agree outside any path enclosing it. */
  lemma SameOutsideWiden(before: map<string, seq<byte>>, after: map<string, seq<byte>>, q: string, r: string)
    requires SameOutside(before, after, q) && Beneath(q, r)
    ensures SameOutside(before, after, r)
  {
    forall p | p in before && !Beneath(p, r) ensures p in after && after[p] == before[p] {
      if Beneath(p, q) {
        BeneathTransitive(p, q, r);
      }
      assert p in Outside(before, q);
    }
    forall p | p in after && !Beneath(p, r) ensures p in before {
      if Beneath(p, q) {
        BeneathTransitive(p, q, r);
      }
      assert p in Outside(after, q);
    }
    assert Outside(before, r) == Outside(after, r);
  }

  /** A slot `m + n` lies inside the mirrored prefix `m`. */
  lemma SlotInside(m: string, n: string)
    requires EndsWith(m, '/') && IsLocalName(n)
    ensures Beneath(m + n, m)
    ensures !EndsWith(m + n, '/')
  {
    ExtendBeneath(m, n);
    assert n[|n| - 1] in n;
  }

  /** A file entry `q + n` that is a directory after all mirrors to
      `m + n + "/" + n + "/"`, inside its slot. */
  lemma FileEntryAsDirectory(m: string, q: string, n: string)
    requires EndsWith(m, '/') && NoDoubleSlash(m) && EndsWith(q, '/') && IsLocalName(n)
    ensures var d := MirrorDirectory(m + n, q + n);
      d == m + n + "/" + n + "/" && EndsWith(d, '/') && NoDoubleSlash(d) && Beneath(d, m + n)
  {
    var d := m + n + "/" + n + "/";
    var last := n[|n| - 1];
    assert last != '/' && last != '\\' by { assert last in n; }
    assert (m + n)[|m + n| - 1] == last && (q + n)[|q + n| - 1] == last;
    MirrorSlashInsensitive(m + n, q + n);
    NoDoubleSlashAppendName(m, n);
    MirrorAppendsName(m + n + "/", q, n);
    SubdirectoryBeneath(m + n, n);
  }

  /** A subdirectory entry `q + n + "/"` mirrors to `m + n + "/"`, inside its slot. */
  lemma SubdirEntry(m: string, q: string, n: string)
    requires EndsWith(m, '/') && NoDoubleSlash(m) && EndsWith(q, '/') && IsLocalName(n)
    ensures var d := MirrorDirectory(m, q + n + "/");
      d == m + n + "/" && EndsWith(d, '/') && NoDoubleSlash(d) && Beneath(d, m + n)
  {
    MirrorAppendsName(m, q, n);
    ExtendBeneath(m + n, "/");
  }

  /** Where child `i` of a tidy directory upload writes: inside the slot
      `m + name` of its name, and tidy itself; except a subdirectory entry
      that is not a directory, whose target is `m` itself (its upload then
      fails, since no file path ends in '/'). */
  lemma ChildLayout(ldirs: map<string, DirListing>, bound: nat, localPath: string, remotePath: string, i: nat)
    requires ValidDirs(ldirs, bound) && IsLocalDir(ldirs, localPath) && Tidy(ldirs, localPath, remotePath)
    requires i < |Entries(LocalDirPrefix(localPath), ldirs[Key(localPath)])|
    ensures var l := ldirs[Key(localPath)];
      var e := Entries(LocalDirPrefix(localPath), l)[i];
      var m := MirrorDirectory(remotePath, localPath);
      var r := m + GetFileName(e);
      && Tidy(ldirs, e, r) && Beneath(m + EntryName(l, i), m) && IsLocalName(EntryName(l, i))
      && (Beneath(UploadRoot(ldirs, e, r), m + EntryName(l, i))
          || (EndsWith(e, '/') && !IsLocalDir(ldirs, e) && UploadRoot(ldirs, e, r) == m))
  {
    var l := ldirs[Key(localPath)];
    var lp := LocalDirPrefix(localPath);
    var q := if EndsWith(lp, '/') then lp else lp + "/";
    var e := Entries(lp, l)[i];
    var m := MirrorDirectory(remotePath, localPath);
    EntryShape(localPath, l, i);
    ChildSlot(ldirs, m, q, EntryName(l, i), e, i < |l.files|);
  }

  /** The entry `e` of name `n` below the prefix `q`, a file entry or a
      subdirectory entry, sent to where the directory upload sends it below
      `m`: tidy, and rooted inside the slot `m + n`, except a subdirectory
      entry that is no directory, whose target is `m` itself. */
  lemma ChildSlot(ldirs: map<string, DirListing>, m: string, q: string, n: string, e: string, isFile: bool)
    requires EndsWith(m, '/') && NoDoubleSlash(m) && EndsWith(q, '/') && IsLocalName(n)
    requires e == if isFile then q + n else q + n + "/"
    requires GetFileName(e) == if isFile then n else ""
    ensures var r := m + GetFileName(e);
      && Tidy(ldirs, e, r) && Beneath(m + n, m) && IsLocalName(n)
      && (Beneath(UploadRoot(ldirs, e, r), m + n)
          || (EndsWith(e, '/') && !IsLocalDir(ldirs, e) && UploadRoot(ldirs, e, r) == m))
  {
    SlotInside(m, n);
    if isFile {
      FileChild(ldirs, m, q, n);
    } else {
      assert m + [] == m;
      SubdirChild(ldirs, m, q, n);
    }
  }

  /** A file entry `q + n` sent to the slot `m + n`: tidy, and rooted inside
      the slot whether it is a file or turns out to be a directory. */
  lemma FileChild(ldirs: map<string, DirListing>, m: string, q: string, n: string)
    requires EndsWith(m, '/') && NoDoubleSlash(m) && EndsWith(q, '/') && IsLocalName(n)
    ensures Tidy(ldirs, q + n, m + n) && Beneath(UploadRoot(ldirs, q + n, m + n), m + n)
  {
    if IsLocalDir(ldirs, q + n) {
      FileEntryAsDirectory(m, q, n);
    } else {
      assert !EndsWith(m + n, '/') by { SlotInside(m, n); }
      assert UploadTarget(q + n, m + n) == m + n;
    }
  }

  /** A subdirectory entry `q + n + "/"` sent to `m` itself: tidy, and rooted
      inside the slot `m + n` when it is a directory; otherwise its target is
      `m`. */
  lemma SubdirChild(ldirs: map<string, DirListing>, m: string, q: string, n: string)
    requires EndsWith(m, '/') && NoDoubleSlash(m) && EndsWith(q, '/') && IsLocalName(n)
    ensures var e := q + n + "/";
      && Tidy(ldirs, e, m)
      && (Beneath(UploadRoot(ldirs, e, m), m + n) || (!IsLocalDir(ldirs, e) && UploadRoot(ldirs, e, m) == m))
  {
    var e := q + n + "/";
    if IsLocalDir(ldirs, e) {
      SubdirEntry(m, q, n);
    } else {
      assert GetFileName(e) == "" by { assert EndsWith(e, '/'); }
      assert UploadTarget(e, m) == m + [];
      assert m + [] == m;
    }
  }

  /** An uploaded tree stays uploaded while remote files change only at paths
      that lie apart from where it was written. */
  lemma {:induction false} TreeUploadedStable(ldirs: map<string, DirListing>, lfiles: map<string, seq<byte>>, bound: nat,
                                              rfiles: map<string, seq<byte>>, rfiles': map<string, seq<byte>>,
                                              localPath: string, remotePath: string, changed: string)
    requires ValidDirs(ldirs, bound) && Tidy(ldirs, localPath, remotePath)
    requires TreeUploaded(ldirs, lfiles, bound, rfiles, localPath, remotePath)
    requires SameOutside(rfiles, rfiles', changed)
    requires forall p | Beneath(p, UploadRoot(ldirs, localPath, remotePath)) :: !Beneath(p, changed)
    ensures TreeUploaded(ldirs, lfiles, bound, rfiles', localPath, remotePath)
    decreases bound - |Key(localPath)|
  {
    if IsLocalDir(ldirs, localPath) {
      var l := ldirs[Key(localPath)];
      var es := Entries(LocalDirPrefix(localPath), l);
      var m := MirrorDirectory(remotePath, localPath);
      EntriesLonger(localPath, l);
      forall i | 0 <= i < |es|
        ensures TreeUploaded(ldirs, lfiles, bound, rfiles', es[i], m + GetFileName(es[i]))
      {
        var r := m + GetFileName(es[i]);
        var root := UploadRoot(ldirs, es[i], r);
        ChildLayout(ldirs, bound, localPath, remotePath, i);
        forall p | Beneath(p, root) ensures !Beneath(p, changed) {
          if root != m {
            BeneathTransitive(p, root, m + EntryName(l, i));
            BeneathTransitive(p, m + EntryName(l, i), m);
          }
        }
        TreeUploadedStable(ldirs, lfiles, bound, rfiles, rfiles', es[i], r, changed);
      }
    } else {
      var t := UploadTarget(localPath, remotePath);
      assert Beneath(t, t);
      assert t in Outside(rfiles, changed);
    }
  }

  /** The first `n` entries of the directory `localPath` are uploaded to their
      places below the mirrored prefix. */
  ghost predicate ChildrenUploaded(ldirs: map<string, DirListing>, lfiles: map<string, seq<byte>>, bound: nat,
                                   rfiles: map<string, seq<byte>>, localPath: string, remotePath: string, n: nat)
    requires ValidDirs(ldirs, bound) && IsLocalDir(ldirs, localPath)
  {
    var es := Entries(LocalDirPrefix(localPath), ldirs[Key(localPath)]);
    var m := MirrorDirectory(remotePath, localPath);
    EntriesLonger(localPath, ldirs[Key(localPath)]);
    forall j | 0 <= j < n && j < |es| :: TreeUploaded(ldirs, lfiles, bound, rfiles, es[j], m + GetFileName(es[j]))
  }

  /** The names of a listing differ, a file's and a subdirectory's included. */
  lemma EntryNamesDiffer(l: DirListing, j: nat, n: nat)
    requires ValidListing(l) && j < n < |l.files| + |l.subdirs|
    ensures EntryName(l, j) != EntryName(l, n)
  {
    if n < |l.files| {
      assert l.files[j] != l.files[n];
    } else if j >= |l.files| {
      assert l.subdirs[j - |l.files|] != l.subdirs[n - |l.files|];
    } else {
      assert l.files[j] != l.subdirs[n - |l.files|];
    }
  }

  /** An entry uploaded before entry `n` stays uploaded when only the slot of
      entry `n` changes. */
  lemma EarlierChildKept(ldirs: map<string, DirListing>, lfiles: map<string, seq<byte>>, bound: nat,
                         localPath: string, remotePath: string, j: nat, n: nat,
                         rfiles: map<string, seq<byte>>, rfiles': map<string, seq<byte>>)
    requires ValidDirs(ldirs, bound) && IsLocalDir(ldirs, localPath) && Tidy(ldirs, localPath, remotePath)
    requires forall k | k in lfiles :: !EndsWith(k, '/')
    requires j < n < |Entries(LocalDirPrefix(localPath), ldirs[Key(localPath)])|
    requires var l := ldirs[Key(localPath)];
      var e := Entries(LocalDirPrefix(localPath), l)[j];
      var m := MirrorDirectory(remotePath, localPath);
      && SameOutside(rfiles, rfiles', m + EntryName(l, n))
      && TreeUploaded(ldirs, lfiles, bound, rfiles, e, m + GetFileName(e))
    ensures var l := ldirs[Key(localPath)];
      var e := Entries(LocalDirPrefix(localPath), l)[j];
      var m := MirrorDirectory(remotePath, localPath);
      TreeUploaded(ldirs, lfiles, bound, rfiles', e, m + GetFileName(e))
  {
    var l := ldirs[Key(localPath)];
    var e := Entries(LocalDirPrefix(localPath), l)[j];
    var m := MirrorDirectory(remotePath, localPath);
    var r := m + GetFileName(e);
    var root := UploadRoot(ldirs, e, r);
    var a := EntryName(l, j);
    var b := EntryName(l, n);
    ChildLayout(ldirs, bound, localPath, remotePath, j);
    ChildLayout(ldirs, bound, localPath, remotePath, n);
    assert !IsLocalDir(ldirs, e) ==> e in lfiles;
    assert EndsWith(e, '/') ==> e !in lfiles;
    assert Beneath(root, m + a);
    EntryNamesDiffer(l, j, n);
    assert Combine(m, a) == m + a && Combine(m, b) == m + b by {
      CombineChild(m, a);
      CombineChild(m, b);
    }
    forall p | Beneath(p, root) ensures !Beneath(p, m + b) {
      BeneathTransitive(p, root, m + a);
      SiblingSubtreesApart(m, a, b, p);
    }
    TreeUploadedStable(ldirs, lfiles, bound, rfiles, rfiles', e, r, m + b);
  }

  /** Uploading entry `n`, which changes remote files only inside its slot,
      keeps the entries before it uploaded: their slots lie apart, since the
      names of a listing differ. */
  lemma NextChildUploaded(ldirs: map<string, DirListing>, lfiles: map<string, seq<byte>>, bound: nat,
                          localPath: string, remotePath: string, n: nat,
                          rfiles: map<string, seq<byte>>, rfiles': map<string, seq<byte>>)
    requires ValidDirs(ldirs, bound) && IsLocalDir(ldirs, localPath) && Tidy(ldirs, localPath, remotePath)
    requires forall k | k in lfiles :: !EndsWith(k, '/')
    requires n < |Entries(LocalDirPrefix(localPath), ldirs[Key(localPath)])|
    requires ChildrenUploaded(ldirs, lfiles, bound, rfiles, localPath, remotePath, n)
    requires var l := ldirs[Key(localPath)];
      var e := Entries(LocalDirPrefix(localPath), l)[n];
      var m := MirrorDirectory(remotePath, localPath);
      && SameOutside(rfiles, rfiles', m + EntryName(l, n))
      && TreeUploaded(ldirs, lfiles, bound, rfiles', e, m + GetFileName(e))
    ensures ChildrenUploaded(ldirs, lfiles, bound, rfiles', localPath, remotePath, n + 1)
  {
    var l := ldirs[Key(localPath)];
    var es := Entries(LocalDirPrefix(localPath), l);
    var m := MirrorDirectory(remotePath, localPath);
    EntriesLonger(localPath, l);
    forall j | 0 <= j < n + 1 && j < |es|
      ensures TreeUploaded(ldirs, lfiles, bound, rfiles', es[j], m + GetFileName(es[j]))
    {
      if j < n {
        assert TreeUploaded(ldirs, lfiles, bound, rfiles, es[j], m + GetFileName(es[j]));
        EarlierChildKept(ldirs, lfiles, bound, localPath, remotePath, j, n, rfiles, rfiles');
        assert TreeUploaded(ldirs, lfiles, bound, rfiles', es[j], m + GetFileName(es[j]));
      } else {
        assert j == n;
        assert TreeUploaded(ldirs, lfiles, bound, rfiles', es[n], m + GetFileName(es[n]));
      }
    }
  }

  /** What entry `i` may change on the server lies in its slot, and so inside
      the mirrored prefix: its upload writes inside where it is rooted, or,
      for a subdirectory entry that is neither a directory nor a file, fails
      its checks and writes nothing. */
  lemma ChildFrame(ldirs: map<string, DirListing>, lfiles: map<string, seq<byte>>, bound: nat,
                   localPath: string, remotePath: string, i: nat,
                   before: map<string, seq<byte>>, after: map<string, seq<byte>>)
    requires ValidDirs(ldirs, bound) && IsLocalDir(ldirs, localPath) && Tidy(ldirs, localPath, remotePath)
    requires forall k | k in lfiles :: !EndsWith(k, '/')
    requires i < |Entries(LocalDirPrefix(localPath), ldirs[Key(localPath)])|
    requires var e := Entries(LocalDirPrefix(localPath), ldirs[Key(localPath)])[i];
      var r := MirrorDirectory(remotePath, localPath) + GetFileName(e);
      && (Tidy(ldirs, e, r) ==> SameOutside(before, after, UploadRoot(ldirs, e, r)))
      && (!IsLocalDir(ldirs, e) && e !in lfiles ==> after == before)
    ensures var m := MirrorDirectory(remotePath, localPath);
      var e := Entries(LocalDirPrefix(localPath), ldirs[Key(localPath)])[i];
      && Tidy(ldirs, e, m + GetFileName(e))
      && SameOutside(before, after, m + EntryName(ldirs[Key(localPath)], i))
      && SameOutside(before, after, m)
  {
    var l := ldirs[Key(localPath)];
    var e := Entries(LocalDirPrefix(localPath), l)[i];
    var m := MirrorDirectory(remotePath, localPath);
    var r := m + GetFileName(e);
    var slot := m + EntryName(l, i);
    ChildLayout(ldirs, bound, localPath, remotePath, i);
    if Beneath(UploadRoot(ldirs, e, r), slot) {
      SameOutsideWiden(before, after, UploadRoot(ldirs, e, r), slot);
    } else {
      assert e !in lfiles;
      assert after == before;
    }
    SameOutsideWiden(before, after, slot, m);
  }

  /** A directory whose entries are all uploaded is uploaded. */
  lemma AllChildrenUploaded(ldirs: map<string, DirListing>, lfiles: map<string, seq<byte>>, bound: nat,
                            rfiles: map<string, seq<byte>>, localPath: string, remotePath: string)
    requires ValidDirs(ldirs, bound) && IsLocalDir(ldirs, localPath)
    requires ChildrenUploaded(ldirs, lfiles, bound, rfiles, localPath, remotePath,
                              |Entries(LocalDirPrefix(localPath), ldirs[Key(localPath)])|)
    ensures TreeUploaded(ldirs, lfiles, bound, rfiles, localPath, remotePath)
  {
  }
}
