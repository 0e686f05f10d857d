/** Turning what the server lists or stats into the client's file-information
    records: the "." and ".." entries are dropped and the order is kept. */
module Listing {
  import opened Common
  import opened Paths

  predicate IsDotEntry(e: RemoteEntry) {
    e.name == "." || e.name == ".."
  }

  /** `new SFtpFileInfo { Name, FullPath, IsDirectory, LastModified }`. */
  function ToInfo(e: RemoteEntry): (info: FileInfo)
    ensures info.name == e.name && info.fullPath == e.fullName && info.isDirectory == e.isDirectory
    ensures info.parentFolderPath.None? && info.flags.None? && info.owner.None? && info.group.None?
    ensures info.size == 0
  {
    FileInfo(e.name, None, e.fullName, None, None, None, e.isDirectory, 0)
  }

  /** The records `ListFiles` returns for a listing: the `Where` filter followed
      by `Select`. */
  function VisibleInfos(entries: seq<RemoteEntry>): (infos: seq<FileInfo>)
    ensures |infos| <= |entries|
  {
    if entries == [] then []
    else (if IsDotEntry(entries[0]) then [] else [ToInfo(entries[0])]) + VisibleInfos(entries[1..])
  }

  lemma ToInfoInjective(a: RemoteEntry, b: RemoteEntry)
    requires ToInfo(a) == ToInfo(b)
    ensures a == b
  {
  }

  /** Filtering a listing piece by piece gives the same records in the same
      order: the result keeps the server's order. */
  lemma {:induction false} VisibleInfosAppend(a: seq<RemoteEntry>, b: seq<RemoteEntry>)
    ensures VisibleInfos(a + b) == VisibleInfos(a) + VisibleInfos(b)
  {
    if a == [] {
      assert a + b == b;
    } else {
      assert (a + b)[0] == a[0];
      assert (a + b)[1..] == a[1..] + b;
      VisibleInfosAppend(a[1..], b);
    }
  }

  /** A record is listed exactly when it comes from an entry of the listing that
      is not "." or "..". */
  lemma {:induction false} VisibleInfosMembership(entries: seq<RemoteEntry>, e: RemoteEntry)
    ensures ToInfo(e) in VisibleInfos(entries) <==> e in entries && !IsDotEntry(e)
  {
    if entries != [] {
      VisibleInfosMembership(entries[1..], e);
      assert entries == [entries[0]] + entries[1..];
      if ToInfo(e) in VisibleInfos(entries) && !(ToInfo(e) in VisibleInfos(entries[1..])) {
        ToInfoInjective(e, entries[0]);
      }
    }
  }

  /** Every record returned comes from some listed entry, at a position that
      grows with the position of the record. */
  lemma {:induction false} VisibleInfosOrigin(entries: seq<RemoteEntry>, k: nat)
    requires k < |VisibleInfos(entries)|
    ensures exists i | 0 <= i < |entries| :: VisibleInfos(entries)[k] == ToInfo(entries[i]) && !IsDotEntry(entries[i])
  {
    var head := if IsDotEntry(entries[0]) then [] else [ToInfo(entries[0])];
    if k < |head| {
      assert VisibleInfos(entries)[k] == ToInfo(entries[0]);
    } else {
      VisibleInfosOrigin(entries[1..], k - |head|);
      var i :| 0 <= i < |entries[1..]| && VisibleInfos(entries[1..])[k - |head|] == ToInfo(entries[1..][i]) && !IsDotEntry(entries[1..][i]);
      assert entries[1..][i] == entries[i + 1];
    }
  }

  /** No returned record is named "." or "..". */
  lemma {:induction false} NoDotInfos(entries: seq<RemoteEntry>)
    ensures forall k | 0 <= k < |VisibleInfos(entries)| :: VisibleInfos(entries)[k].name != "." && VisibleInfos(entries)[k].name != ".."
  {
    if entries != [] {
      NoDotInfos(entries[1..]);
    }
  }

  /** Records carry the names and paths of their entries: plain names, and
      paths longer than the directory listed, stay so. */
  lemma {:induction false} VisibleInfosInherit(entries: seq<RemoteEntry>, n: nat)
    requires forall i | 0 <= i < |entries| :: IsName(entries[i].name) && |Key(entries[i].fullName)| > n
    ensures forall k | 0 <= k < |VisibleInfos(entries)| ::
      IsName(VisibleInfos(entries)[k].name) && |Key(VisibleInfos(entries)[k].fullPath)| > n
  {
    if entries != [] {
      VisibleInfosInherit(entries[1..], n);
    }
  }

  /** A name that no entry has, no record has. */
  lemma {:induction false} VisibleNamesFrom(entries: seq<RemoteEntry>, name: string)
    requires forall i | 0 <= i < |entries| :: entries[i].name != name
    ensures forall k | 0 <= k < |VisibleInfos(entries)| :: VisibleInfos(entries)[k].name != name
  {
    if entries != [] {
      VisibleNamesFrom(entries[1..], name);
    }
  }

  /** Entries with distinct names give records with distinct names. */
  lemma {:induction false} VisibleNamesDistinct(entries: seq<RemoteEntry>)
    requires forall i, j | 0 <= i < j < |entries| :: entries[i].name != entries[j].name
    ensures forall k, l | 0 <= k < l < |VisibleInfos(entries)| :: VisibleInfos(entries)[k].name != VisibleInfos(entries)[l].name
  {
    if entries != [] {
      var tail := entries[1..];
      assert forall i | 0 <= i < |tail| :: tail[i] == entries[i + 1];
      VisibleNamesDistinct(tail);
      VisibleNamesFrom(tail, entries[0].name);
    }
  }

  lemma ListingExample()
    ensures VisibleInfos([RemoteEntry(".", "/d/.", true), RemoteEntry("x", "/d/x", false),
                          RemoteEntry("..", "/d/..", true), RemoteEntry("s", "/d/s", true)])
         == [ToInfo(RemoteEntry("x", "/d/x", false)), ToInfo(RemoteEntry("s", "/d/s", true))]
  {
    var l := [RemoteEntry(".", "/d/.", true), RemoteEntry("x", "/d/x", false),
              RemoteEntry("..", "/d/..", true), RemoteEntry("s", "/d/s", true)];
    assert l[1..][1..][1..][1..] == [];
  }
}
