/** The System.IO.Path and System.String operations the client relies on, with
    the semantics .NET gives them on Unix, where '/' is the only directory
    separator. */
module Paths {
  import opened Common

  /** The form under which a file system (the remote server or the local disk)
      files a path: trailing '/' characters are not significant, so "/a/" and
      "/a" name the same directory. */
  function Key(p: string): (k: string)
    ensures |k| <= |p| && k == p[..|k|]
    ensures k == [] || k[|k| - 1] != '/'
    ensures forall i | |k| <= i < |p| :: p[i] == '/'
  {
    if p == [] || p[|p| - 1] != '/' then p else Key(p[..|p| - 1])
  }

  lemma KeyAppendSlash(p: string)
    ensures Key(p + "/") == Key(p)
  {
    assert (p + "/")[..|p + "/"| - 1] == p;
  }

  predicate EndsWith(p: string, c: char) {
    |p| > 0 && p[|p| - 1] == c
  }

  /** String.IsNullOrWhiteSpace: every character is one Char.IsWhiteSpace accepts. */
  predicate IsWhiteSpace(c: char) {
    ('\U{9}' <= c <= '\U{D}') || c == ' ' || c == '\U{85}' || c == '\U{A0}' ||
    c == '\U{1680}' || ('\U{2000}' <= c <= '\U{200A}') || c == '\U{2028}' ||
    c == '\U{2029}' || c == '\U{202F}' || c == '\U{205F}' || c == '\U{3000}'
  }

  predicate IsBlank(p: string) {
    forall i | 0 <= i < |p| :: IsWhiteSpace(p[i])
  }

  /** Path.GetFileName: the part after the last '/', empty when the path ends in '/'. */
  function GetFileName(p: string): (n: string)
    ensures '/' !in n
    ensures |n| <= |p| && n == p[|p| - |n|..]
    ensures |n| < |p| ==> p[|p| - |n| - 1] == '/'
  {
    if p == [] || p[|p| - 1] == '/' then []
    else
      var front, c := p[..|p| - 1], p[|p| - 1];
      var m := GetFileName(front);
      assert m + [c] == p[|p| - |m| - 1..] by {
        assert p[|p| - |m| - 1..] == front[|front| - |m|..] + [c];
      }
      m + [c]
  }

  lemma {:induction false} FileNameOfChild(dir: string, name: string)
    requires dir == [] || EndsWith(dir, '/')
    requires '/' !in name
    ensures GetFileName(dir + name) == name
    decreases |name|
  {
    var p := dir + name;
    if name == [] {
      assert p == dir;
      assert p == [] || p[|p| - 1] == '/';
    } else {
      var front := name[..|name| - 1];
      var c := name[|name| - 1];
      assert c in name;
      assert p[|p| - 1] == c;
      assert p[..|p| - 1] == dir + front;
      assert GetFileName(p) == GetFileName(dir + front) + [c];
      FileNameOfChild(dir, front);
      assert front + [c] == name;
    }
  }

  /** The run of '/' characters in a path collapsed to one, as .NET normalises
      the directory name it returns. */
  function CollapseSeparators(p: string): (r: string)
    ensures |r| <= |p|
    ensures (p == []) == (r == [])
    ensures p != [] ==> r[|r| - 1] == p[|p| - 1]
  {
    if |p| < 2 then p
    else if p[0] == '/' && p[1] == '/' then CollapseSeparators(p[1..])
    else [p[0]] + CollapseSeparators(p[1..])
  }

  lemma {:induction false} CollapseAppend(p: string, name: string)
    requires name != [] && '/' !in name
    ensures CollapseSeparators(p + name) == CollapseSeparators(p) + name
    decreases |p|
  {
    if p == [] {
      CollapseNoSeparator(name);
      assert p + name == name;
    } else if |p| == 1 {
      var q := p + name;
      assert q[1..] == name && q[1] != '/' by {
        assert name[0] in name;
      }
      CollapseNoSeparator(name);
      assert CollapseSeparators(q) == [p[0]] + name;
      assert [p[0]] + name == p + name;
    } else {
      var q := p + name;
      assert q[1..] == p[1..] + name;
      assert q[0] == p[0] && q[1] == p[1];
      CollapseAppend(p[1..], name);
      var c := CollapseSeparators(p[1..]);
      if p[0] == '/' && p[1] == '/' {
        assert CollapseSeparators(q) == c + name;
      } else {
        assert CollapseSeparators(p) == [p[0]] + c;
        assert CollapseSeparators(q) == [p[0]] + (c + name);
        assert [p[0]] + (c + name) == ([p[0]] + c) + name;
      }
    }
  }

  lemma {:induction false} CollapseNoSeparator(p: string)
    requires '/' !in p
    ensures CollapseSeparators(p) == p
    decreases |p|
  {
    if |p| >= 2 {
      assert '/' !in p[1..];
      CollapseNoSeparator(p[1..]);
    }
  }

  function RootLength(p: string): nat {
    if |p| > 0 && p[0] == '/' then 1 else 0
  }

  /** The index of the last separator at or after the root, or the root length. */
  function LastSeparator(p: string, root: nat, end: nat): (e: nat)
    requires root <= end <= |p|
    ensures root <= e <= end
    decreases end
  {
    if end <= root then end
    else if p[end - 1] == '/' then end - 1
    else LastSeparator(p, root, end - 1)
  }

  function TrimSeparators(p: string, root: nat, end: nat): (e: nat)
    requires root <= end <= |p|
    ensures root <= e <= end
    decreases end
  {
    if end > root && p[end - 1] == '/' then TrimSeparators(p, root, end - 1) else end
  }

  /** Path.GetDirectoryName: None stands for null (the empty path, or the root). */
  function GetDirectoryName(p: string): Option<string> {
    var root := RootLength(p);
    if |p| <= root then None
    else Some(CollapseSeparators(p[..TrimSeparators(p, root, LastSeparator(p, root, |p|))]))
  }

  /** The name of the directory that a path ending in a separator denotes, as the
      client computes it: Path.GetFileName(Path.GetDirectoryName(p)), with null
      printed as the empty string. */
  function DirectoryName(p: string): string {
    match GetDirectoryName(p)
    case None => ""
    case Some(d) => GetFileName(d)
  }

  lemma DirectoryNameOfChild(parent: string, name: string)
    requires parent == [] || EndsWith(parent, '/')
    requires name != [] && '/' !in name
    ensures DirectoryName(parent + name + "/") == name
  {
    var p := parent + name + "/";
    var root := RootLength(p);
    assert p[|p| - 1] == '/';
    assert p[|p| - 2] == name[|name| - 1] != '/';
    if parent == [] {
      assert p[0] == name[0];
    }
    assert root <= |parent|;
    assert LastSeparator(p, root, |p|) == |p| - 1;
    assert TrimSeparators(p, root, |p| - 1) == |p| - 1;
    assert p[..|p| - 1] == parent + name;
    CollapseAppend(parent, name);
    var c := CollapseSeparators(parent);
    assert parent != [] ==> EndsWith(c, '/');
    FileNameOfChild(c, name);
  }

  /** Path.Combine(a, b) on Unix. */
  function Combine(a: string, b: string): string {
    if b == [] then a
    else if a == [] then b
    else if b[0] == '/' then b
    else if EndsWith(a, '/') then a + b
    else a + "/" + b
  }

  /** A name of a directory entry: not empty, no separator. */
  predicate IsName(n: string) {
    n != [] && '/' !in n
  }

  /** `p` is `root` itself or lies inside the directory `root`. */
  predicate Beneath(p: string, root: string) {
    || p == root
    || (|p| > |root| && p[..|root|] == root && (EndsWith(root, '/') || p[|root|] == '/'))
  }

  /** Some directory the path passes through is a file: a proper prefix of
      its key, cut just before a '/', is filed in `files`. Neither file system
      creates a file or a directory there. */
  predicate BelowFile(files: map<string, seq<byte>>, p: string) {
    var k := Key(p);
    exists i | 0 < i < |k| && k[i] == '/' :: k[..i] in files
  }

  /** Writing or deleting the file at `p` itself does not change whether `p`
      lies below a file. */
  lemma BelowFileIgnoresSelf(files: map<string, seq<byte>>, p: string, content: seq<byte>)
    ensures BelowFile(files - {p}, p) == BelowFile(files, p)
    ensures BelowFile(files[p := content], p) == BelowFile(files, p)
  {
    var k := Key(p);
    forall i | 0 < i < |k|
      ensures k[..i] != p
    {
      assert |k[..i]| < |p|;
    }
  }

  /** A path extended past a separator lies inside it. */
  lemma ExtendBeneath(root: string, rest: string)
    requires rest != [] && (EndsWith(root, '/') || rest[0] == '/')
    ensures Beneath(root + rest, root)
  {
    assert (root + rest)[..|root|] == root;
  }

  /** A directory below `a` named `n` lies inside `a`. */
  lemma SubdirectoryBeneath(a: string, n: string)
    ensures Beneath(a + "/" + n + "/", a)
  {
    var p := a + "/" + n + "/";
    assert p[..|a|] == a && p[|a|] == '/';
  }

  lemma CombineChild(dir: string, name: string)
    requires dir != [] && name != [] && '/' !in name
    ensures Combine(dir, name) == (if EndsWith(dir, '/') then dir + name else dir + "/" + name)
    ensures |Key(Combine(dir, name))| > |Key(dir)|
  {
    assert name[0] != '/' by { assert name[0] in name; }
    var c := Combine(dir, name);
    assert c[|c| - 1] == name[|name| - 1];
    assert name[|name| - 1] in name;
  }

  /** What lies inside a child of `dir` lies inside `dir`, and is not `dir`. */
  lemma BeneathChild(p: string, dir: string, name: string)
    requires dir != [] && IsName(name) && Beneath(p, Combine(dir, name))
    ensures Beneath(p, dir) && p != dir
  {
    CombineChild(dir, name);
    var c := Combine(dir, name);
    assert c[..|dir|] == dir;
    if !EndsWith(dir, '/') {
      assert c[|dir|] == '/';
    }
    if p != c {
      assert p[..|dir|] == c[..|dir|];
      assert p[|dir|] == c[|dir|];
    }
  }

  lemma PrefixedNamesApart(prefix: string, a: string, b: string)
    requires IsName(a) && IsName(b) && a != b
    ensures !Beneath(prefix + a, prefix + b)
  {
    var ca, cb := prefix + a, prefix + b;
    assert !EndsWith(cb, '/') by {
      assert cb[|cb| - 1] == b[|b| - 1] && b[|b| - 1] in b;
    }
    assert ca[|prefix|..] == a && cb[|prefix|..] == b;
    if |ca| > |cb| && ca[..|cb|] == cb {
      assert ca[|cb|] == a[|b|] && a[|b|] in a;
    }
  }

  /** Two children of one directory with different names lie apart: neither
      lies inside the other. */
  lemma SiblingsApart(dir: string, a: string, b: string)
    requires dir != [] && IsName(a) && IsName(b) && a != b
    ensures !Beneath(Combine(dir, a), Combine(dir, b))
  {
    CombineChild(dir, a);
    CombineChild(dir, b);
    var prefix := if EndsWith(dir, '/') then dir else dir + "/";
    assert Combine(dir, a) == prefix + a && Combine(dir, b) == prefix + b;
    PrefixedNamesApart(prefix, a, b);
  }

  lemma PrefixedSubtreesApart(prefix: string, a: string, b: string, p: string)
    requires IsName(a) && IsName(b) && |a| <= |b| && a != b
    ensures !(Beneath(p, prefix + a) && Beneath(p, prefix + b))
  {
    var ca, cb := prefix + a, prefix + b;
    assert !EndsWith(ca, '/') by {
      assert ca[|ca| - 1] == a[|a| - 1] && a[|a| - 1] in a;
    }
    assert !EndsWith(cb, '/') by {
      assert cb[|cb| - 1] == b[|b| - 1] && b[|b| - 1] in b;
    }
    if Beneath(p, cb) {
      assert p[..|cb|] == cb;
      assert p[|prefix|..|ca|] == b[..|a|];
      if b[..|a|] == a {
        assert |a| < |b|;
        assert p[|ca|] == b[|a|] && b[|a|] in b;
      }
    }
  }

  /** Nothing lies inside two children of one directory with different names. */
  lemma SiblingSubtreesApart(dir: string, a: string, b: string, p: string)
    requires dir != [] && IsName(a) && IsName(b) && a != b
    ensures !(Beneath(p, Combine(dir, a)) && Beneath(p, Combine(dir, b)))
  {
    CombineChild(dir, a);
    CombineChild(dir, b);
    var prefix := if EndsWith(dir, '/') then dir else dir + "/";
    assert Combine(dir, a) == prefix + a && Combine(dir, b) == prefix + b;
    if |a| <= |b| {
      PrefixedSubtreesApart(prefix, a, b, p);
    } else {
      PrefixedSubtreesApart(prefix, b, a, p);
    }
  }

  /** The files of `files` that lie outside `root`. */
  function Outside(files: map<string, seq<byte>>, root: string): (m: map<string, seq<byte>>)
    ensures forall p | p in m :: p in files && m[p] == files[p]
  {
    map p | p in files && !Beneath(p, root) :: files[p]
  }

  /** Every file outside `root` is the same in both states: none appeared, none
      vanished, none changed. */
  predicate SameOutside(before: map<string, seq<byte>>, after: map<string, seq<byte>>, root: string) {
    Outside(before, root) == Outside(after, root)
  }

  /** Files were only deleted: every file left was there before, with the
      same content. */
  predicate OnlyDeleted(before: map<string, seq<byte>>, after: map<string, seq<byte>>) {
    forall p | p in after :: p in before && after[p] == before[p]
  }

  /** Writing or deleting the file `p` changes nothing outside a directory
      that holds `p`. */
  lemma SameOutsideUpdate(files: map<string, seq<byte>>, p: string, content: seq<byte>, root: string)
    requires Beneath(p, root)
    ensures SameOutside(files, files[p := content], root)
    ensures SameOutside(files, files - {p}, root)
  {
    assert Outside(files, root) == Outside(files[p := content], root);
    assert Outside(files, root) == Outside(files - {p}, root);
  }

  /** A change confined to a child of `dir` is confined to `dir`. */
  lemma SameOutsideOfChild(before: map<string, seq<byte>>, after: map<string, seq<byte>>, dir: string, name: string)
    requires dir != [] && IsName(name) && SameOutside(before, after, Combine(dir, name))
    ensures SameOutside(before, after, dir)
  {
    forall p | Beneath(p, Combine(dir, name)) ensures Beneath(p, dir) {
      BeneathChild(p, dir, name);
    }
    var child := Combine(dir, name);
    forall p | p in before && !Beneath(p, dir) ensures p in after && after[p] == before[p] {
      assert p in Outside(before, child);
    }
    forall p | p in after && !Beneath(p, dir) ensures p in before {
      assert p in Outside(after, child);
    }
    assert Outside(before, dir) == Outside(after, dir);
  }

  predicate NoDoubleSlash(s: string) {
    forall i | 0 <= i < |s| - 1 :: !(s[i] == '/' && s[i + 1] == '/')
  }

  /** String.Replace("//", "/"): one left-to-right pass over non-overlapping
      occurrences, so "///" becomes "//". */
  function ReplaceDoubleSlash(s: string): (r: string)
    ensures |r| <= |s|
  {
    if |s| < 2 then s
    else if s[0] == '/' && s[1] == '/' then "/" + ReplaceDoubleSlash(s[2..])
    else [s[0]] + ReplaceDoubleSlash(s[1..])
  }

  lemma {:induction false} ReplaceKeepsPlainText(s: string)
    requires NoDoubleSlash(s)
    ensures ReplaceDoubleSlash(s) == s
    decreases |s|
  {
    if |s| >= 2 {
      assert !(s[0] == '/' && s[1] == '/');
      ReplaceKeepsPlainText(s[1..]);
    }
  }

  lemma NoDoubleSlashTail(x: string)
    requires x != [] && NoDoubleSlash(x)
    ensures NoDoubleSlash(x[1..])
  {
    forall i | 0 <= i < |x[1..]| - 1 ensures !(x[1..][i] == '/' && x[1..][i + 1] == '/') {
      assert x[1..][i] == x[i + 1] && x[1..][i + 1] == x[i + 2];
    }
  }

  lemma {:induction false} ReplaceAfterPlainText(x: string, y: string)
    requires NoDoubleSlash(x) && !EndsWith(x, '/')
    ensures ReplaceDoubleSlash(x + y) == x + ReplaceDoubleSlash(y)
    decreases |x|
  {
    if x == [] {
      assert x + y == y;
    } else {
      var t := x[1..];
      assert x == [x[0]] + t;
      if t == [] {
        assert x[0] != '/';
        assert t + y == y && t + ReplaceDoubleSlash(y) == ReplaceDoubleSlash(y);
      } else {
        NoDoubleSlashTail(x);
        assert t[|t| - 1] == x[|x| - 1];
        assert x[0] != '/' || t[0] != '/' by {
          assert x[1] == t[0];
        }
        ReplaceAfterPlainText(t, y);
      }
      ReplaceCons(x[0], t, y);
    }
  }

  /** A first character that does not start a "//" is kept as it is. */
  lemma ReplaceCons(c: char, t: string, y: string)
    requires c != '/' || (t != [] && t[0] != '/') || (t == [] && (y == [] || y[0] != '/'))
    requires ReplaceDoubleSlash(t + y) == t + ReplaceDoubleSlash(y)
    ensures ReplaceDoubleSlash([c] + t + y) == [c] + t + ReplaceDoubleSlash(y)
  {
    var u := t + y;
    var s := [c] + u;
    assert s == [c] + t + y;
    if u != [] {
      assert s[0] == c && s[1] == u[0] && s[1..] == u;
      assert u[0] == if t != [] then t[0] else y[0];
      assert ReplaceDoubleSlash(s) == [c] + ReplaceDoubleSlash(u);
      AppendAssociative([c], t, ReplaceDoubleSlash(y));
    } else {
      assert t == [] && y == [];
    }
  }

  lemma AppendAssociative(a: string, b: string, c: string)
    ensures a + (b + c) == a + b + c
  {
  }

  /** A local directory path as the directory upload uses it: '/' appended
      unless it already ends with '/' or '\\'. */
  function LocalDirPrefix(localPath: string): string {
    if EndsWith(localPath, '/') || EndsWith(localPath, '\\') then localPath else localPath + "/"
  }

  /** A remote directory path as the directory upload uses it: '/' appended
      unless it already ends with one. */
  function RemoteDirPrefix(remotePath: string): string {
    if EndsWith(remotePath, '/') then remotePath else remotePath + "/"
  }

  /** The remote directory into which a local directory is mirrored
      (the `remotePathAppended` of directory upload): both paths first get a
      trailing separator, then "/<name of the local directory>/" is appended and
      doubled slashes are replaced once. */
  function MirrorDirectory(remotePath: string, localPath: string): string {
    ReplaceDoubleSlash(RemoteDirPrefix(remotePath) + "/" + DirectoryName(LocalDirPrefix(localPath)) + "/")
  }

  /** Mirroring is the same whether or not the paths already end with the
      separator the directory upload appends. */
  lemma MirrorSlashInsensitive(remotePath: string, localPath: string)
    requires !EndsWith(remotePath, '/') && !EndsWith(localPath, '/') && !EndsWith(localPath, '\\')
    ensures MirrorDirectory(remotePath, localPath) == MirrorDirectory(remotePath + "/", localPath + "/")
  {
    assert EndsWith(remotePath + "/", '/') && EndsWith(localPath + "/", '/');
  }

  lemma NoDoubleSlashAppendName(remote: string, name: string)
    requires NoDoubleSlash(remote)
    requires name != [] && '/' !in name
    ensures NoDoubleSlash(remote + name + "/")
  {
    var r := remote + name + "/";
    forall i | 0 <= i < |r| - 1 ensures !(r[i] == '/' && r[i + 1] == '/') {
      if i < |remote| - 1 {
        assert r[i] == remote[i] && r[i + 1] == remote[i + 1];
      } else if i == |remote| - 1 {
        assert r[i + 1] == name[0] && name[0] in name;
      } else if i < |r| - 2 {
        assert r[i] == name[i - |remote|] && name[i - |remote|] in name;
      } else {
        assert r[i] == name[|name| - 1] && name[|name| - 1] in name;
      }
    }
  }

  lemma RegroupSlashes(remote: string, x: string, name: string)
    requires remote == x + "/"
    ensures remote + "/" + name + "/" == x + ("//" + name + "/")
    ensures x + ("/" + (name + "/")) == remote + name + "/"
  {
  }

  lemma MirrorOfChildDirectory(remote: string, parent: string, name: string)
    requires EndsWith(remote, '/')
    requires parent == [] || EndsWith(parent, '/')
    requires name != [] && '/' !in name
    ensures MirrorDirectory(remote, parent + name + "/") == ReplaceDoubleSlash(remote + "/" + name + "/")
  {
    var local := parent + name + "/";
    assert EndsWith(local, '/');
    DirectoryNameOfChild(parent, name);
  }

  lemma ReplaceAfterSlashPrefix(remote: string, name: string)
    requires EndsWith(remote, '/') && NoDoubleSlash(remote)
    requires name != [] && '/' !in name
    ensures ReplaceDoubleSlash(remote + "/" + name + "/") == remote + name + "/"
  {
    var x := remote[..|remote| - 1];
    DropFinalSlash(remote);
    var tail := "//" + name + "/";
    RegroupSlashes(remote, x, name);
    ReplaceAfterPlainText(x, tail);
    assert ReplaceDoubleSlash(tail) == "/" + (name + "/") by {
      assert tail[2..] == name + "/";
      ReplaceKeepsName(name);
    }
    assert x + ("/" + (name + "/")) == remote + name + "/";
  }

  /** A prefix without doubled slashes that ends in '/', the '/' taken off: no
      doubled slash and no trailing '/' remain. */
  lemma DropFinalSlash(remote: string)
    requires EndsWith(remote, '/') && NoDoubleSlash(remote)
    ensures var x := remote[..|remote| - 1];
      remote == x + "/" && NoDoubleSlash(x) && !EndsWith(x, '/')
  {
    var x := remote[..|remote| - 1];
    assert remote == x + "/";
    forall i | 0 <= i < |x| - 1 ensures !(x[i] == '/' && x[i + 1] == '/') {
      assert x[i] == remote[i] && x[i + 1] == remote[i + 1];
    }
    if x != [] {
      assert remote[|remote| - 2] == x[|x| - 1];
    }
  }

  /** A plain name followed by '/' has no doubled slash to replace. */
  lemma ReplaceKeepsName(name: string)
    requires name != [] && '/' !in name
    ensures ReplaceDoubleSlash(name + "/") == name + "/"
  {
    assert NoDoubleSlash(name) by {
      forall i | 0 <= i < |name| - 1 ensures name[i] != '/' { assert name[i] in name; }
    }
    assert !EndsWith(name, '/') by { assert name[|name| - 1] in name; }
    ReplaceAfterPlainText(name, "/");
    assert ReplaceDoubleSlash("/") == "/";
  }

  /** Mirroring a directory named `name` under a remote prefix that ends in '/'
      and has no doubled slash appends exactly "name/", and the result again has
      no doubled slash, so mirroring nests. */
  lemma MirrorAppendsName(remote: string, parent: string, name: string)
    requires EndsWith(remote, '/') && NoDoubleSlash(remote)
    requires parent == [] || EndsWith(parent, '/')
    requires name != [] && '/' !in name
    ensures MirrorDirectory(remote, parent + name + "/") == remote + name + "/"
    ensures NoDoubleSlash(remote + name + "/")
  {
    MirrorOfChildDirectory(remote, parent, name);
    ReplaceAfterSlashPrefix(remote, name);
    NoDoubleSlashAppendName(remote, name);
  }
}
