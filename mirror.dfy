/** What a successful recursive download leaves on the local disk: the remote
    tree reproduced under the local path, child by child, with the local paths
    built by `Path.Combine(localPath, child.Name)`. */
module Mirroring {
  import opened Common
  import opened Paths
  import opened Listing
  import opened Remote

  /** The remote tree at `remotePath` (directories `rdirs`, files `rfiles`) is
      reproduced at `localPath` on a disk with files `lfiles` and directory keys
      `ldirs`: a remote file as a local file with the same bytes, a remote
      directory as a local directory in which every child it lists but "." and
      ".." is reproduced at `Combine(localPath, child.name)`. */
  ghost predicate Mirrored(rdirs: map<string, seq<RemoteEntry>>, rfiles: map<string, seq<byte>>, bound: nat,
                           lfiles: map<string, seq<byte>>, ldirs: set<string>,
                           remotePath: string, localPath: string)
    requires WellFormedTree(rdirs, bound)
    decreases bound - |Key(remotePath)|
  {
    var k := Key(remotePath);
    if k in rdirs then
      var children := VisibleInfos(rdirs[k]);
      VisibleInfosInherit(rdirs[k], |k|);
      && localPath != [] && Key(localPath) in ldirs
      && forall j | 0 <= j < |children| ::
           Mirrored(rdirs, rfiles, bound, lfiles, ldirs, children[j].fullPath, Combine(localPath, children[j].name))
    else
      k in rfiles && localPath in lfiles && lfiles[localPath] == rfiles[k]
  }

  /** A mirrored tree stays mirrored while files change only at paths that lie
      apart from it and directories are only added. */
  lemma {:induction false} MirroredStable(rdirs: map<string, seq<RemoteEntry>>, rfiles: map<string, seq<byte>>, bound: nat,
                                          lfiles: map<string, seq<byte>>, ldirs: set<string>,
                                          lfiles': map<string, seq<byte>>, ldirs': set<string>,
                                          remotePath: string, localPath: string, changed: string)
    requires WellFormedTree(rdirs, bound)
    requires Mirrored(rdirs, rfiles, bound, lfiles, ldirs, remotePath, localPath)
    requires SameOutside(lfiles, lfiles', changed) && ldirs <= ldirs'
    requires forall p | Beneath(p, localPath) :: !Beneath(p, changed)
    ensures Mirrored(rdirs, rfiles, bound, lfiles', ldirs', remotePath, localPath)
    decreases bound - |Key(remotePath)|
  {
    var k := Key(remotePath);
    if k in rdirs {
      var children := VisibleInfos(rdirs[k]);
      VisibleInfosInherit(rdirs[k], |k|);
      forall j | 0 <= j < |children|
        ensures Mirrored(rdirs, rfiles, bound, lfiles', ldirs', children[j].fullPath, Combine(localPath, children[j].name))
      {
        var target := Combine(localPath, children[j].name);
        forall p | Beneath(p, target) ensures !Beneath(p, changed) {
          BeneathChild(p, localPath, children[j].name);
        }
        MirroredStable(rdirs, rfiles, bound, lfiles, ldirs, lfiles', ldirs', children[j].fullPath, target, changed);
      }
    } else {
      assert Beneath(localPath, localPath);
    }
  }

  /** The first `n` children of a listing are each reproduced at their place
      under `localPath`. */
  ghost predicate ChildrenMirrored(rdirs: map<string, seq<RemoteEntry>>, rfiles: map<string, seq<byte>>, bound: nat,
                                   lfiles: map<string, seq<byte>>, ldirs: set<string>,
                                   children: seq<FileInfo>, n: nat, localPath: string)
    requires WellFormedTree(rdirs, bound) && n <= |children|
  {
    forall j | 0 <= j < n ::
      Mirrored(rdirs, rfiles, bound, lfiles, ldirs, children[j].fullPath, Combine(localPath, children[j].name))
  }

  /** A listed child has a plain name and a longer path than its directory. */
  lemma ChildShape(rdirs: map<string, seq<RemoteEntry>>, bound: nat, k: string, i: nat)
    requires WellFormedTree(rdirs, bound) && k in rdirs && i < |VisibleInfos(rdirs[k])|
    ensures IsName(VisibleInfos(rdirs[k])[i].name) && |Key(VisibleInfos(rdirs[k])[i].fullPath)| > |k|
  {
    VisibleInfosInherit(rdirs[k], |k|);
  }

  /** Downloading child `n` of a directory, which changes files only inside
      that child's local path, keeps the children before it reproduced: their
      local paths lie apart from it since the names in a listing differ. */
  lemma {:induction false} NextChildMirrored(rdirs: map<string, seq<RemoteEntry>>, rfiles: map<string, seq<byte>>, bound: nat,
                                             k: string, localPath: string, n: nat,
                                             lfiles: map<string, seq<byte>>, ldirs: set<string>,
                                             lfiles': map<string, seq<byte>>, ldirs': set<string>)
    requires WellFormedTree(rdirs, bound) && k in rdirs && n < |VisibleInfos(rdirs[k])| && localPath != []
    requires ChildrenMirrored(rdirs, rfiles, bound, lfiles, ldirs, VisibleInfos(rdirs[k]), n, localPath)
    requires var child := VisibleInfos(rdirs[k])[n];
      && SameOutside(lfiles, lfiles', Combine(localPath, child.name)) && ldirs <= ldirs'
      && Mirrored(rdirs, rfiles, bound, lfiles', ldirs', child.fullPath, Combine(localPath, child.name))
    ensures ChildrenMirrored(rdirs, rfiles, bound, lfiles', ldirs', VisibleInfos(rdirs[k]), n + 1, localPath)
  {
    var children := VisibleInfos(rdirs[k]);
    VisibleInfosInherit(rdirs[k], |k|);
    VisibleNamesDistinct(rdirs[k]);
    var changed := Combine(localPath, children[n].name);
    forall j | 0 <= j < n
      ensures Mirrored(rdirs, rfiles, bound, lfiles', ldirs', children[j].fullPath, Combine(localPath, children[j].name))
    {
      var target := Combine(localPath, children[j].name);
      forall p | Beneath(p, target) ensures !Beneath(p, changed) {
        SiblingSubtreesApart(localPath, children[j].name, children[n].name, p);
      }
      MirroredStable(rdirs, rfiles, bound, lfiles, ldirs, lfiles', ldirs', children[j].fullPath, target, changed);
    }
  }

  /** A remote directory `/d` listing ".", a file `x` and an empty directory
      `s`, and the disk after downloading it to `out`. */
  const ExampleDirs: map<string, seq<RemoteEntry>> :=
    map["/d" := [RemoteEntry(".", "/d/.", true), RemoteEntry("x", "/d/x", false), RemoteEntry("s", "/d/s", true)],
        "/d/s" := []]
  const ExampleFiles: map<string, seq<byte>> := map["/d/x" := [7]]
  const ExampleLocalFiles: map<string, seq<byte>> := map["out/x" := [7]]

  lemma ExampleTreeWellFormed()
    ensures WellFormedTree(ExampleDirs, 4)
  {
    assert Key("/d/.") == "/d/." && Key("/d/x") == "/d/x" && Key("/d/s") == "/d/s";
  }

  lemma ExampleChildren()
    ensures VisibleInfos(ExampleDirs["/d"]) == [ToInfo(RemoteEntry("x", "/d/x", false)), ToInfo(RemoteEntry("s", "/d/s", true))]
    ensures VisibleInfos(ExampleDirs["/d/s"]) == []
  {
    assert ExampleDirs["/d"][1..][1..][1..] == [];
  }

  lemma ExamplePaths()
    ensures Key("/d") == "/d" && Key("/d/x") == "/d/x" && Key("/d/s") == "/d/s"
    ensures Key("out") == "out" && Key("out/s") == "out/s"
    ensures Combine("out", "x") == "out/x" && Combine("out", "s") == "out/s"
  {
  }

  /** The file `x` is reproduced as `out/x`. */
  lemma ExampleFileLeaf()
    ensures WellFormedTree(ExampleDirs, 4)
    ensures Mirrored(ExampleDirs, ExampleFiles, 4, ExampleLocalFiles, {"out", "out/s"}, "/d/x", "out/x")
  {
    ExampleTreeWellFormed();
    assert Key("/d/x") == "/d/x";
    assert "/d/x" !in ExampleDirs;
  }

  /** The empty directory `s` is reproduced as `out/s`. */
  lemma ExampleDirLeaf()
    ensures WellFormedTree(ExampleDirs, 4)
    ensures Mirrored(ExampleDirs, ExampleFiles, 4, ExampleLocalFiles, {"out", "out/s"}, "/d/s", "out/s")
  {
    ExampleTreeWellFormed();
    ExampleChildren();
    assert Key("/d/s") == "/d/s" && Key("out/s") == "out/s";
  }

  /** The whole directory `/d` is reproduced at `out`, "." left aside. */
  lemma MirroredExample()
    ensures WellFormedTree(ExampleDirs, 4)
    ensures Mirrored(ExampleDirs, ExampleFiles, 4, ExampleLocalFiles, {"out", "out/s"}, "/d", "out")
  {
    ExampleFileLeaf();
    ExampleDirLeaf();
    ExampleChildren();
    ExamplePaths();
    var children := VisibleInfos(ExampleDirs["/d"]);
    assert children[0].fullPath == "/d/x" && children[0].name == "x";
    assert children[1].fullPath == "/d/s" && children[1].name == "s";
    forall j | 0 <= j < |children|
      ensures Mirrored(ExampleDirs, ExampleFiles, 4, ExampleLocalFiles, {"out", "out/s"},
                       children[j].fullPath, Combine("out", children[j].name))
    {
      assert j == 0 || j == 1;
    }
  }
}
