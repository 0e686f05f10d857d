/** The ancestor folders of a remote upload target: the lazy pattern `.+?[/|\\]`
    cuts the path into segments that each end in a separator, backslashes in
    each segment become '/', and the segments are accumulated into the
    cumulative prefixes that are created one after the other. */
module Folders {
  import opened Common

  /** The character class [/|\\]: inside a class '|' is a literal, so it counts
      as a separator next to '/' and '\'. */
  predicate IsSplitter(c: char) {
    c == '/' || c == '|' || c == '\\'
  }

  predicate NoNewline(s: string) {
    forall i | 0 <= i < |s| :: s[i] != '\n'
  }

  /** The shortest extension of a match that began at index 0, looking from
      index k on for a separator over characters other than a newline. */
  function ScanSplitter(s: string, k: nat): (m: Option<nat>)
    requires 1 <= k <= |s|
    ensures m.Some? ==> k < m.value <= |s| && IsSplitter(s[m.value - 1])
    ensures m.Some? ==> forall i | k <= i < m.value - 1 :: !IsSplitter(s[i]) && s[i] != '\n'
    ensures m.None? && NoNewline(s) ==> forall j | k <= j < |s| :: !IsSplitter(s[j])
    decreases |s| - k
  {
    if k == |s| then None
    else if IsSplitter(s[k]) then Some(k + 1)
    else if s[k] == '\n' then None
    else ScanSplitter(s, k + 1)
  }

  /** The length of the match of `.+?[/|\\]` anchored at index 0, if there is one:
      '.' takes one character that is not a newline, then the lazy quantifier
      stops at the first separator. */
  function MatchAtStart(s: string): Option<nat> {
    if s == [] || s[0] == '\n' then None else ScanSplitter(s, 1)
  }

  /** A matched segment: two characters or more, a separator at the end, and no
      separator or newline in between (the first character may be a separator). */
  predicate WellFormedSegment(seg: string) {
    && |seg| >= 2
    && IsSplitter(seg[|seg| - 1])
    && seg[0] != '\n'
    && forall i | 1 <= i < |seg| - 1 :: !IsSplitter(seg[i]) && seg[i] != '\n'
  }

  /** Regex.Matches(path, ".+?[/|\\]"): matches do not overlap, and after a
      position where no match starts the search resumes one character later. */
  function Segments(s: string): (segs: seq<string>)
    ensures forall i | 0 <= i < |segs| :: WellFormedSegment(segs[i])
    decreases |s|
  {
    if s == [] then []
    else match MatchAtStart(s)
      case Some(n) => [s[..n]] + Segments(s[n..])
      case None => Segments(s[1..])
  }

  /** x.Replace("\\", "/") */
  function Normalize(s: string): (r: string)
    ensures |r| == |s|
    ensures forall i | 0 <= i < |s| :: r[i] == (if s[i] == '\\' then '/' else s[i])
  {
    seq(|s|, i requires 0 <= i < |s| => if s[i] == '\\' then '/' else s[i])
  }

  function NormalizeAll(segs: seq<string>): (r: seq<string>)
    ensures |r| == |segs| && forall i | 0 <= i < |segs| :: r[i] == Normalize(segs[i])
  {
    seq(|segs|, i requires 0 <= i < |segs| => Normalize(segs[i]))
  }

  function Concat(segs: seq<string>): string {
    if segs == [] then [] else segs[0] + Concat(segs[1..])
  }

  /** The loop `folder_to_create += folder`, starting from `acc`: the value the
      variable holds after each iteration. */
  function Cumulative(acc: string, folders: seq<string>): (r: seq<string>)
    ensures |r| == |folders|
    decreases |folders|
  {
    if folders == [] then [] else [acc + folders[0]] + Cumulative(acc + folders[0], folders[1..])
  }

  /** The folders an upload to `remotePath` makes sure of, in order. */
  function AncestorFolders(remotePath: string): seq<string> {
    Cumulative("", NormalizeAll(Segments(remotePath)))
  }

  lemma {:induction false} NoSplitterNoSegments(s: string)
    requires forall j | 0 <= j < |s| :: !IsSplitter(s[j])
    ensures Segments(s) == []
    decreases |s|
  {
    if s != [] {
      assert MatchAtStart(s).None?;
      NoSplitterNoSegments(s[1..]);
    }
  }

  /** Without newlines, the segments put together are a prefix of the path, and
      what is left holds no separator except possibly as its first character. */
  lemma {:induction false} SegmentsCoverPath(s: string)
    requires NoNewline(s)
    ensures var c := Concat(Segments(s));
      && |c| <= |s| && c == s[..|c|]
      && forall j | |c| + 1 <= j < |s| :: !IsSplitter(s[j])
    decreases |s|
  {
    if s != [] {
      match MatchAtStart(s)
      case Some(n) =>
        var rest := s[n..];
        assert NoNewline(rest);
        SegmentsCoverPath(rest);
        assert Segments(s) == [s[..n]] + Segments(rest);
        assert Concat(Segments(s)) == s[..n] + Concat(Segments(rest));
        var c' := Concat(Segments(rest));
        assert s[..n] + c' == s[..n + |c'|];
        forall j | n + |c'| + 1 <= j < |s| ensures !IsSplitter(s[j]) {
          assert s[j] == rest[j - n];
        }
      case None =>
        assert s[0] != '\n';
        assert forall j | 1 <= j < |s| :: !IsSplitter(s[j]);
        NoSplitterNoSegments(s[1..]);
    }
  }

  lemma {:induction false} NormalizeConcat(segs: seq<string>)
    ensures Concat(NormalizeAll(segs)) == Normalize(Concat(segs))
    decreases |segs|
  {
    if segs != [] {
      assert NormalizeAll(segs)[1..] == NormalizeAll(segs[1..]);
      NormalizeConcat(segs[1..]);
      assert Normalize(segs[0] + Concat(segs[1..])) == Normalize(segs[0]) + Normalize(Concat(segs[1..]));
    }
  }

  /** Each cumulative value is the start value followed by the first i+1 folders. */
  lemma {:induction false} CumulativeAt(acc: string, folders: seq<string>, i: nat)
    requires i < |folders|
    ensures Cumulative(acc, folders)[i] == acc + Concat(folders[..i + 1])
    decreases i
  {
    if i == 0 {
      assert folders[..1][1..] == [];
      assert Concat(folders[..1]) == folders[0];
    } else {
      CumulativeAt(acc + folders[0], folders[1..], i - 1);
      assert folders[1..][..i] == folders[..i + 1][1..];
      assert acc + folders[0] + Concat(folders[..i + 1][1..]) == acc + (folders[0] + Concat(folders[..i + 1][1..]));
    }
  }

  lemma {:induction false} ConcatPrefix(segs: seq<string>, k: nat)
    requires k <= |segs|
    ensures var c := Concat(segs); var d := Concat(segs[..k]); |d| <= |c| && d == c[..|d|]
    decreases k
  {
    if k > 0 {
      ConcatPrefix(segs[1..], k - 1);
      assert segs[..k][1..] == segs[1..][..k - 1];
    }
  }

  lemma {:induction false} ConcatGrows(segs: seq<string>, k: nat)
    requires k < |segs| && forall i | 0 <= i < |segs| :: |segs[i]| >= 2
    ensures |Concat(segs[..k + 1])| == |Concat(segs[..k])| + |segs[k]|
    decreases k
  {
    if k > 0 {
      ConcatGrows(segs[1..], k - 1);
      assert segs[..k + 1][1..] == segs[1..][..k];
      assert segs[..k][1..] == segs[1..][..k - 1];
    } else {
      assert segs[..1][1..] == [];
    }
  }

  lemma {:induction false} ConcatLastSegment(segs: seq<string>, k: nat)
    requires k < |segs|
    ensures Concat(segs[..k + 1]) == Concat(segs[..k]) + segs[k]
    decreases k
  {
    if k > 0 {
      ConcatLastSegment(segs[1..], k - 1);
      assert segs[..k + 1][1..] == segs[1..][..k];
      assert segs[..k][1..] == segs[1..][..k - 1];
    } else {
      assert segs[..1][1..] == [];
    }
  }
}

module FolderProperties {
  import opened Common
  import opened Folders

  lemma PrefixOfPrefix(segs: seq<string>, p: string, k: nat)
    requires k <= |segs|
    requires var c := Concat(segs); |c| <= |p| && c == p[..|c|]
    ensures var d := Concat(segs[..k]); |d| <= |p| && d == p[..|d|]
  {
    ConcatPrefix(segs, k);
  }

  lemma CumulativeIsNormalizedConcat(segs: seq<string>, i: nat)
    requires i < |segs|
    ensures Cumulative("", NormalizeAll(segs))[i] == Normalize(Concat(segs[..i + 1]))
  {
    CumulativeAt("", NormalizeAll(segs), i);
    assert NormalizeAll(segs)[..i + 1] == NormalizeAll(segs[..i + 1]);
    NormalizeConcat(segs[..i + 1]);
    assert "" + Concat(NormalizeAll(segs)[..i + 1]) == Concat(NormalizeAll(segs)[..i + 1]);
  }

  lemma SliceOfConcat(p: string, b: string, seg: string)
    requires |b + seg| <= |p| && b + seg == p[..|b + seg|]
    ensures p[|b|..|b + seg|] == seg
  {
    assert p[|b|..|b + seg|] == (b + seg)[|b|..];
  }

  /** The first i+1 segments, put together, are a prefix of the path that ends
      with segment i; ancestor folder i is that prefix normalised. */
  lemma AncestorShape(p: string, i: nat)
    requires NoNewline(p) && i < |Segments(p)|
    ensures var segs := Segments(p);
      var d := Concat(segs[..i + 1]);
      var b := Concat(segs[..i]);
      && |d| <= |p| && d == p[..|d|]
      && d == b + segs[i]
      && p[|b|..|d|] == segs[i]
      && AncestorFolders(p)[i] == Normalize(d)
  {
    var segs := Segments(p);
    SegmentsCoverPath(p);
    PrefixOfPrefix(segs, p, i + 1);
    ConcatLastSegment(segs, i);
    SliceOfConcat(p, Concat(segs[..i]), segs[i]);
    CumulativeIsNormalizedConcat(segs, i);
  }

  lemma {:induction false} ConcatStrictlyGrows(segs: seq<string>, i: nat, j: nat)
    requires i < j <= |segs|
    requires forall k | 0 <= k < |segs| :: |segs[k]| >= 1
    ensures |Concat(segs[..i])| < |Concat(segs[..j])|
    decreases j
  {
    ConcatLastSegment(segs, j - 1);
    if i < j - 1 {
      ConcatStrictlyGrows(segs, i, j - 1);
    }
  }

  lemma SegmentsNonEmpty(p: string)
    ensures forall k | 0 <= k < |Segments(p)| :: |Segments(p)[k]| >= 1
  {
    var segs := Segments(p);
    forall k | 0 <= k < |segs| ensures |segs[k]| >= 1 {
      assert WellFormedSegment(segs[k]);
    }
  }

  lemma AncestorLength(segs: seq<string>, i: nat)
    requires i < |segs|
    ensures |Cumulative("", NormalizeAll(segs))[i]| == |Concat(segs[..i + 1])|
  {
    CumulativeIsNormalizedConcat(segs, i);
  }

  lemma AncestorsGrow(p: string, i: nat, j: nat)
    requires i < j < |Segments(p)|
    ensures |AncestorFolders(p)[i]| < |AncestorFolders(p)[j]|
  {
    var segs := Segments(p);
    AncestorLength(segs, i);
    AncestorLength(segs, j);
    SegmentsNonEmpty(p);
    ConcatStrictlyGrows(segs, i + 1, j + 1);
  }

  /** A well-formed segment that ends a prefix of the path, normalised together
      with what precedes it: the shape of one ancestor folder. */
  lemma NormalizedPrefixShape(p: string, b: string, seg: string, a: string)
    requires |b + seg| <= |p| && b + seg == p[..|b + seg|]
    requires WellFormedSegment(seg) && a == Normalize(b + seg)
    ensures && 2 <= |a| <= |p|
      && a == Normalize(p[..|a|])
      && IsSplitter(p[|a| - 1])
      && (a[|a| - 1] == '/' || a[|a| - 1] == '|')
      && '\\' !in a
  {
    var d := b + seg;
    assert d[|d| - 1] == seg[|seg| - 1];
    assert p[|d| - 1] == d[|d| - 1];
    forall k | 0 <= k < |a| ensures a[k] != '\\' { }
  }

  /** Ancestor folder i of a path without newlines (Net9 lines 624-635) is the
      path cut just after a separator, with '\' turned into '/': it ends in '/'
      or '|' and holds no backslash. */
  lemma AncestorIsNormalizedPrefix(p: string, i: nat)
    requires NoNewline(p) && i < |AncestorFolders(p)|
    ensures var a := AncestorFolders(p)[i];
      && 2 <= |a| <= |p|
      && a == Normalize(p[..|a|])
      && IsSplitter(p[|a| - 1])
      && (a[|a| - 1] == '/' || a[|a| - 1] == '|')
      && '\\' !in a
  {
    var segs := Segments(p);
    AncestorShape(p, i);
    NormalizedPrefixShape(p, Concat(segs[..i]), segs[i], AncestorFolders(p)[i]);
  }

  /** Each ancestor folder is a proper prefix of every later one: the folders
      are created from the outermost in. */
  lemma AncestorsArePrefixes(p: string, i: nat, j: nat)
    requires NoNewline(p) && i < j < |AncestorFolders(p)|
    ensures var a := AncestorFolders(p); |a[i]| < |a[j]| && a[i] == a[j][..|a[i]|]
  {
    var a := AncestorFolders(p);
    AncestorsGrow(p, i, j);
    AncestorIsNormalizedPrefix(p, i);
    AncestorIsNormalizedPrefix(p, j);
    NormalizedPrefixes(p, a[i], a[j]);
  }

  /** Two prefixes of a path, normalised: the shorter is a prefix of the longer. */
  lemma NormalizedPrefixes(p: string, x: string, y: string)
    requires |x| <= |y| <= |p| && x == Normalize(p[..|x|]) && y == Normalize(p[..|y|])
    ensures x == y[..|x|]
  {
    assert p[..|y|][..|x|] == p[..|x|];
  }

  /** Between two consecutive ancestor folders the path holds no separator
      except right after the earlier one: the lazy match stops at the first
      separator it can. */
  lemma SegmentInside(p: string, b: string, seg: string, k: nat)
    requires |b + seg| <= |p| && b + seg == p[..|b + seg|]
    requires WellFormedSegment(seg) && |b| + 1 <= k < |b + seg| - 1
    ensures !IsSplitter(p[k])
  {
    assert p[k] == (b + seg)[k];
    assert (b + seg)[k] == seg[k - |b|];
  }

  lemma SegmentsAreLazy(p: string, i: nat, k: nat)
    requires NoNewline(p) && i < |AncestorFolders(p)|
    requires (if i == 0 then 0 else |AncestorFolders(p)[i - 1]|) + 1 <= k < |AncestorFolders(p)[i]| - 1
    ensures k < |p| && !IsSplitter(p[k])
  {
    var segs := Segments(p);
    AncestorBounds(p, i);
    SegmentInside(p, Concat(segs[..i]), segs[i], k);
  }

  /** Ancestor folder i spans the path up to the end of segment i, and the one
      before it (or nothing) up to where segment i begins. */
  lemma AncestorBounds(p: string, i: nat)
    requires NoNewline(p) && i < |AncestorFolders(p)|
    ensures var segs := Segments(p);
      var b := Concat(segs[..i]);
      && |b + segs[i]| <= |p| && b + segs[i] == p[..|b + segs[i]|] && WellFormedSegment(segs[i])
      && |AncestorFolders(p)[i]| == |b + segs[i]|
      && (if i == 0 then 0 else |AncestorFolders(p)[i - 1]|) == |b|
  {
    var segs := Segments(p);
    var b := Concat(segs[..i]);
    AncestorShape(p, i);
    if i == 0 {
      assert segs[..0] == [];
    } else {
      AncestorLength(segs, i - 1);
      assert segs[..i - 1 + 1] == segs[..i];
    }
  }

  /** After the last ancestor folder the path holds no separator beyond its
      first character: the final component (the file name) is never created as
      a folder. */
  lemma FileNameNeverCreated(p: string)
    requires NoNewline(p)
    ensures var a := AncestorFolders(p);
      forall j | (if a == [] then 0 else |a[|a| - 1]|) + 1 <= j < |p| :: !IsSplitter(p[j])
  {
    var a := AncestorFolders(p);
    var segs := Segments(p);
    SegmentsCoverPath(p);
    if a != [] {
      AncestorLength(segs, |a| - 1);
      assert segs[..|a|] == segs;
    }
  }

  /** The example of the upload documentation: "/a/b/c.txt" gives "/a/" then "/a/b/". */
  lemma SegmentsOfUnixExample()
    ensures Segments("/a/b/c.txt") == ["/a/", "b/"]
  {
    var p := "/a/b/c.txt";
    assert MatchAtStart(p) == Some(3);
    assert MatchAtStart(p[3..]) == Some(2);
    NoSplitterNoSegments(p[5..]);
    assert p[3..][2..] == p[5..];
    assert Segments(p[3..]) == [p[3..][..2]];
    assert p[..3] == "/a/" && p[3..][..2] == "b/";
    assert Segments(p) == [p[..3]] + Segments(p[3..]);
  }

  lemma SegmentsOfWindowsExample()
    ensures Segments("a\\b\\c.txt") == ["a\\", "b\\"]
  {
    var q := "a\\b\\c.txt";
    assert MatchAtStart(q) == Some(2);
    assert MatchAtStart(q[2..]) == Some(2);
    NoSplitterNoSegments(q[4..]);
    assert q[2..][2..] == q[4..];
    assert Segments(q[2..]) == [q[2..][..2]];
    assert q[..2] == "a\\" && q[2..][..2] == "b\\";
    assert Segments(q) == [q[..2]] + Segments(q[2..]);
  }

  /** Two folders accumulate into the first and then both together. */
  lemma CumulativeTwo(x: string, y: string)
    ensures Cumulative("", [x, y]) == [x, x + y]
  {
    assert [x, y][1..] == [y] && [y][1..] == [];
    assert "" + x == x;
  }

  /** The example of the upload documentation: an upload to "/a/b/c.txt"
      makes sure of "/a/" and then "/a/b/". */
  lemma AncestorFoldersUnixExample()
    ensures AncestorFolders("/a/b/c.txt") == ["/a/", "/a/b/"]
  {
    SegmentsOfUnixExample();
    assert NormalizeAll(["/a/", "b/"]) == ["/a/", "b/"] by {
      assert Normalize("/a/") == "/a/" && Normalize("b/") == "b/";
    }
    CumulativeTwo("/a/", "b/");
    assert "/a/" + "b/" == "/a/b/";
  }

  /** Backslash separators are accepted and turned into '/'. */
  lemma AncestorFoldersWindowsExample()
    ensures AncestorFolders("a\\b\\c.txt") == ["a/", "a/b/"]
  {
    SegmentsOfWindowsExample();
    assert NormalizeAll(["a\\", "b\\"]) == ["a/", "b/"] by {
      assert Normalize("a\\") == "a/" && Normalize("b\\") == "b/";
    }
    CumulativeTwo("a/", "b/");
    assert "a/" + "b/" == "a/b/";
  }
}

/** Which ancestor folders an upload creates: each cumulative prefix, in order,
    whose key is not yet taken by a remote file or directory. */
module FolderCreation {
  import opened Common
  import opened Paths
  import opened Folders
  import FolderProperties

  /** The folders the creation loop creates, in order, when the keys in
      `existing` are taken before it starts. */
  function Missing(existing: set<string>, folders: seq<string>): (created: seq<string>)
    ensures |created| <= |folders|
    decreases |folders|
  {
    if folders == [] then []
    else if Key(folders[0]) in existing then Missing(existing, folders[1..])
    else [folders[0]] + Missing(existing + {Key(folders[0])}, folders[1..])
  }

  function KeysOf(folders: seq<string>): set<string> {
    set f | f in folders :: Key(f)
  }

  /** `a` occurs in `b` in the same order, possibly with gaps. */
  predicate IsSubsequence<T(==)>(a: seq<T>, b: seq<T>)
    decreases |b|
  {
    if a == [] then true
    else if b == [] then false
    else if a[0] == b[0] then IsSubsequence(a[1..], b[1..])
    else IsSubsequence(a, b[1..])
  }

  /** The loop over a list of folders, split anywhere: what the second part
      creates depends on what existed before it plus what the first part made. */
  lemma {:induction false} MissingAppend(existing: set<string>, a: seq<string>, b: seq<string>)
    ensures Missing(existing, a + b) == Missing(existing, a) + Missing(existing + KeysOf(Missing(existing, a)), b)
    decreases |a|
  {
    if a == [] {
      assert a + b == b;
      assert KeysOf([]) == {};
      assert existing + {} == existing;
    } else {
      assert (a + b)[0] == a[0] && (a + b)[1..] == a[1..] + b;
      var k := Key(a[0]);
      if k in existing {
        MissingAppend(existing, a[1..], b);
      } else {
        var e' := existing + {k};
        MissingAppend(e', a[1..], b);
        var m := Missing(e', a[1..]);
        assert Missing(existing, a) == [a[0]] + m;
        assert KeysOf([a[0]] + m) == {k} + KeysOf(m);
        assert existing + KeysOf([a[0]] + m) == e' + KeysOf(m);
      }
    }
  }

  /** A folder is created only if its key was not taken before. */
  lemma {:induction false} MissingWereAbsent(existing: set<string>, folders: seq<string>)
    ensures forall c | c in Missing(existing, folders) :: Key(c) !in existing
    decreases |folders|
  {
    if folders != [] {
      if Key(folders[0]) in existing {
        MissingWereAbsent(existing, folders[1..]);
      } else {
        MissingWereAbsent(existing + {Key(folders[0])}, folders[1..]);
      }
    }
  }

  /** The folders are created in the order of the list, each at most once. */
  lemma {:induction false} MissingInOrder(existing: set<string>, folders: seq<string>)
    ensures IsSubsequence(Missing(existing, folders), folders)
    decreases |folders|
  {
    if folders != [] {
      var m := Missing(existing, folders);
      if Key(folders[0]) in existing {
        MissingInOrder(existing, folders[1..]);
        MissingWereAbsent(existing, folders[1..]);
        if m != [] {
          assert m[0] in m;
          assert m[0] != folders[0];
        }
      } else {
        MissingInOrder(existing + {Key(folders[0])}, folders[1..]);
      }
    }
  }

  /** After the loop every folder of the list exists, and nothing beyond the
      list has been created. */
  lemma {:induction false} MissingCompletes(existing: set<string>, folders: seq<string>)
    ensures existing + KeysOf(Missing(existing, folders)) == existing + KeysOf(folders)
    decreases |folders|
  {
    if folders == [] {
      assert KeysOf([]) == {};
    } else {
      var k := Key(folders[0]);
      assert KeysOf(folders) == {k} + KeysOf(folders[1..]);
      if k in existing {
        MissingCompletes(existing, folders[1..]);
      } else {
        var e' := existing + {k};
        MissingCompletes(e', folders[1..]);
        var m := Missing(e', folders[1..]);
        assert KeysOf([folders[0]] + m) == {k} + KeysOf(m);
      }
    }
  }

  predicate DistinctKeys(folders: seq<string>) {
    forall i, j | 0 <= i < j < |folders| :: Key(folders[i]) != Key(folders[j])
  }

  /** No key is created twice. */
  lemma {:induction false} MissingDistinctKeys(existing: set<string>, folders: seq<string>)
    ensures DistinctKeys(Missing(existing, folders))
    decreases |folders|
  {
    if folders != [] {
      var k := Key(folders[0]);
      if k in existing {
        MissingDistinctKeys(existing, folders[1..]);
        assert Missing(existing, folders) == Missing(existing, folders[1..]);
      } else {
        var e' := existing + {k};
        MissingDistinctKeys(e', folders[1..]);
        MissingWereAbsent(e', folders[1..]);
        var m := Missing(e', folders[1..]);
        forall j | 0 <= j < |m| ensures Key(m[j]) != k {
          assert m[j] in m;
        }
        var all := [folders[0]] + m;
        assert Missing(existing, folders) == all;
        forall i, j | 0 <= i < j < |all| ensures Key(all[i]) != Key(all[j]) {
          assert all[j] == m[j - 1];
          if i > 0 {
            assert all[i] == m[i - 1];
            assert Key(m[i - 1]) != Key(m[j - 1]);
          } else {
            assert all[i] == folders[0];
          }
        }
      }
    }
  }

  /** The remote directories after `folders` have been created, in order, as
      empty directories. */
  function AddFolders(dirs: map<string, seq<RemoteEntry>>, folders: seq<string>): map<string, seq<RemoteEntry>>
    decreases |folders|
  {
    if folders == [] then dirs
    else AddFolders(dirs, folders[..|folders| - 1])[Key(folders[|folders| - 1]) := []]
  }

  lemma AddFoldersStep(dirs: map<string, seq<RemoteEntry>>, folders: seq<string>, f: string)
    ensures AddFolders(dirs, folders + [f]) == AddFolders(dirs, folders)[Key(f) := []]
  {
    assert (folders + [f])[..|folders|] == folders;
  }

  lemma KeysOfAppend(folders: seq<string>, f: string)
    ensures KeysOf(folders + [f]) == KeysOf(folders) + {Key(f)}
  {
  }

  lemma {:induction false} AddFoldersKeys(dirs: map<string, seq<RemoteEntry>>, folders: seq<string>)
    ensures AddFolders(dirs, folders).Keys == dirs.Keys + KeysOf(folders)
    decreases |folders|
  {
    if folders != [] {
      var init := folders[..|folders| - 1];
      var f := folders[|folders| - 1];
      assert folders == init + [f];
      AddFoldersKeys(dirs, init);
      KeysOfAppend(init, f);
    }
  }

  /** One more turn of the creation loop: the next folder is created exactly
      when its key is taken neither before the loop nor by a folder the loop
      created. */
  lemma MissingStep(existing: set<string>, folders: seq<string>, i: nat)
    requires i < |folders|
    ensures var created := Missing(existing, folders[..i]);
      Missing(existing, folders[..i + 1])
        == created + (if Key(folders[i]) in existing + KeysOf(created) then [] else [folders[i]])
  {
    MissingAppend(existing, folders[..i], [folders[i]]);
    assert folders[..i + 1] == folders[..i] + [folders[i]];
  }

  /** Creating folders adds exactly their keys, as empty directories, and leaves
      every directory that is not among them as it was. */
  lemma {:induction false} AddFoldersContents(dirs: map<string, seq<RemoteEntry>>, folders: seq<string>)
    ensures AddFolders(dirs, folders).Keys == dirs.Keys + KeysOf(folders)
    ensures forall k | k in KeysOf(folders) :: AddFolders(dirs, folders)[k] == []
    ensures forall k | k in dirs && k !in KeysOf(folders) :: AddFolders(dirs, folders)[k] == dirs[k]
    decreases |folders|
  {
    if folders != [] {
      var init := folders[..|folders| - 1];
      var f := folders[|folders| - 1];
      assert folders == init + [f];
      AddFoldersContents(dirs, init);
      KeysOfAppend(init, f);
    }
  }

  /** How many folders of the list the creation loop gets through, when the
      keys in `existing` are taken and the server's files are `files` before
      it starts: it stops at the first folder it has to create that lies
      below a file, where `CreateDirectory` throws. */
  function Reached(existing: set<string>, files: map<string, seq<byte>>, folders: seq<string>): (n: nat)
    ensures n <= |folders|
    decreases |folders|
  {
    if folders == [] then 0
    else if Key(folders[0]) in existing then 1 + Reached(existing, files, folders[1..])
    else if BelowFile(files, folders[0]) then 0
    else 1 + Reached(existing + {Key(folders[0])}, files, folders[1..])
  }

  /** The creation loop gets through every folder. */
  predicate CreatesAll(existing: set<string>, files: map<string, seq<byte>>, folders: seq<string>) {
    Reached(existing, files, folders) == |folders|
  }

  /** The loop over a list of folders, split anywhere: the second part is
      reached only when the first is got through, and it then starts from what
      existed before plus what the first part made. */
  lemma {:induction false} ReachedAppend(existing: set<string>, files: map<string, seq<byte>>, a: seq<string>, b: seq<string>)
    ensures Reached(existing, files, a + b) ==
      if Reached(existing, files, a) < |a| then Reached(existing, files, a)
      else |a| + Reached(existing + KeysOf(Missing(existing, a)), files, b)
    decreases |a|
  {
    if a == [] {
      assert a + b == b;
      assert existing + KeysOf([]) == existing;
    } else {
      assert (a + b)[0] == a[0] && (a + b)[1..] == a[1..] + b;
      if Key(a[0]) in existing {
        ReachedAppend(existing, files, a[1..], b);
      } else if !BelowFile(files, a[0]) {
        var e' := existing + {Key(a[0])};
        ReachedAppend(e', files, a[1..], b);
        var m := Missing(e', a[1..]);
        assert Missing(existing, a) == [a[0]] + m;
        assert KeysOf([a[0]] + m) == {Key(a[0])} + KeysOf(m);
        assert existing + KeysOf(Missing(existing, a)) == e' + KeysOf(m);
      }
    }
  }

  /** Turn `i` of the creation loop gets through: its folder is taken before
      the loop or by an earlier turn, or it does not lie below a file. */
  predicate TurnPasses(existing: set<string>, files: map<string, seq<byte>>, folders: seq<string>, i: nat)
    requires i < |folders|
  {
    Key(folders[i]) in existing + KeysOf(Missing(existing, folders[..i])) || !BelowFile(files, folders[i])
  }

  /** One more turn of the creation loop, when the turns before it got
      through: it stops exactly when the folder has to be created and lies
      below a file. */
  lemma ReachedStep(existing: set<string>, files: map<string, seq<byte>>, folders: seq<string>, i: nat)
    requires i < |folders| && Reached(existing, files, folders[..i]) == i
    ensures Reached(existing, files, folders[..i + 1]) == if TurnPasses(existing, files, folders, i) then i + 1 else i
  {
    ReachedAppend(existing, files, folders[..i], [folders[i]]);
    assert folders[..i + 1] == folders[..i] + [folders[i]];
    assert [folders[i]][1..] == [];
  }

  /** A turn that stops the loop stops it for the whole list. */
  lemma ReachedStops(existing: set<string>, files: map<string, seq<byte>>, folders: seq<string>, i: nat)
    requires i < |folders| && Reached(existing, files, folders[..i + 1]) == i
    ensures Reached(existing, files, folders) == i
  {
    ReachedAppend(existing, files, folders[..i + 1], folders[i + 1..]);
    assert folders == folders[..i + 1] + folders[i + 1..];
  }

  /** Every part of the list before the point the loop reaches is got through. */
  lemma ReachedPrefix(existing: set<string>, files: map<string, seq<byte>>, folders: seq<string>, i: nat)
    requires i <= Reached(existing, files, folders)
    ensures Reached(existing, files, folders[..i]) == i
  {
    ReachedAppend(existing, files, folders[..i], folders[i..]);
    assert folders == folders[..i] + folders[i..];
  }

  /** A part of the list that is got through is got through within the whole. */
  lemma ReachedAtLeast(existing: set<string>, files: map<string, seq<byte>>, folders: seq<string>, i: nat)
    requires i <= |folders| && Reached(existing, files, folders[..i]) == i
    ensures Reached(existing, files, folders) >= i
  {
    ReachedAppend(existing, files, folders[..i], folders[i..]);
    assert folders == folders[..i] + folders[i..];
  }

  /** Every turn before the point the loop reaches gets through. */
  lemma ReachedPasses(existing: set<string>, files: map<string, seq<byte>>, folders: seq<string>)
    ensures forall i | 0 <= i < Reached(existing, files, folders) :: TurnPasses(existing, files, folders, i)
  {
    forall i | 0 <= i < Reached(existing, files, folders)
      ensures TurnPasses(existing, files, folders, i)
    {
      ReachedPrefix(existing, files, folders, i);
      ReachedPrefix(existing, files, folders, i + 1);
      ReachedStep(existing, files, folders, i);
    }
  }

  /** The loop stops, if it stops, at a turn that does not get through: a
      folder that had to be created and lies below a file. */
  lemma ReachedBlocked(existing: set<string>, files: map<string, seq<byte>>, folders: seq<string>)
    ensures var n := Reached(existing, files, folders);
      n < |folders| ==> !TurnPasses(existing, files, folders, n)
  {
    var n := Reached(existing, files, folders);
    if n < |folders| {
      ReachedPrefix(existing, files, folders, n);
      ReachedStep(existing, files, folders, n);
      if TurnPasses(existing, files, folders, n) {
        ReachedAtLeast(existing, files, folders, n + 1);
        assert false;
      }
    }
  }

  /** After the creation loop every ancestor folder of the target exists, the
      folders that existed are untouched, and each new directory is one of the
      ancestors, created empty. */
  lemma AncestorsExistAfterCreation(dirs: map<string, seq<RemoteEntry>>, files: map<string, seq<byte>>, remotePath: string)
    ensures var created := Missing(dirs.Keys + files.Keys, AncestorFolders(remotePath));
      var after := AddFolders(dirs, created);
      && (forall f | f in AncestorFolders(remotePath) :: Key(f) in after.Keys + files.Keys)
      && (forall k | k in after :: k in dirs || k in KeysOf(AncestorFolders(remotePath)))
      && (forall k | k in dirs :: k in after && after[k] == dirs[k])
      && (forall k | k in after && k !in dirs :: after[k] == [])
  {
    var existing := dirs.Keys + files.Keys;
    var ancestors := AncestorFolders(remotePath);
    var created := Missing(existing, ancestors);
    AddFoldersContents(dirs, created);
    MissingCompletes(existing, ancestors);
    MissingWereAbsent(existing, ancestors);
    assert forall f | f in ancestors :: Key(f) in KeysOf(ancestors);
    forall k | k in dirs ensures k !in KeysOf(created) {
      assert forall c | c in created :: Key(c) != k;
    }
  }

  /** On an empty server an upload to "/a/b/c.txt" creates "/a/" and then
      "/a/b/"; when "/a" is already there only "/a/b/" is created. */
  lemma ExampleKeys()
    ensures Key("/a/") == "/a" && Key("/a/b/") == "/a/b"
  {
    assert Key("/a/") == "/a" by { KeyAppendSlash("/a"); assert Key("/a") == "/a"; }
    assert Key("/a/b/") == "/a/b" by { KeyAppendSlash("/a/b"); assert Key("/a/b") == "/a/b"; }
  }

  /** The last folder, when the first one is already there. */
  lemma CreationTail()
    ensures Missing({"/a"}, ["/a/b/"]) == ["/a/b/"]
  {
    ExampleKeys();
    assert ["/a/b/"][1..] == [];
  }

  /** When "/a" is a file, an upload to "/a/b/c.txt" skips "/a/" (its path is
      taken) and stops at "/a/b/", which lies below the file. */
  lemma BlockedCreationExample()
    ensures Reached({"/a"}, map["/a" := [1]], AncestorFolders("/a/b/c.txt")) == 1
  {
    FolderProperties.AncestorFoldersUnixExample();
    ExampleKeys();
    assert BelowFile(map["/a" := [1]], "/a/b/") by {
      assert Key("/a/b/")[2] == '/' && Key("/a/b/")[..2] == "/a";
    }
    assert ["/a/", "/a/b/"][1..] == ["/a/b/"];
  }

  /** On an empty server an upload to "/a/b/c.txt" creates "/a/" and then
      "/a/b/"; when "/a" is already there only "/a/b/" is created. */
  lemma CreationExample()
    ensures Missing({}, AncestorFolders("/a/b/c.txt")) == ["/a/", "/a/b/"]
    ensures Missing({"/a"}, AncestorFolders("/a/b/c.txt")) == ["/a/b/"]
  {
    FolderProperties.AncestorFoldersUnixExample();
    ExampleKeys();
    CreationTail();
    assert Missing({}, ["/a/", "/a/b/"]) == ["/a/"] + Missing({"/a"}, ["/a/b/"]) by {
      assert ["/a/", "/a/b/"][1..] == ["/a/b/"];
      assert {} + {"/a"} == {"/a"};
    }
  }
}
