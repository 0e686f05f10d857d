/** The SFTP session and the server behind it, as the client sees them through
    the SSH library: a connected flag, a count of connections made, and the
    server's directories (each with the listing the server returns for it) and
    files. Paths are looked up by their key (the path without trailing '/'). */
module Remote {
  import opened Common
  import opened Paths
  import opened Listing

  /** What the server lists for a directory whose key has `n` characters:
      entries with plain, distinct names whose paths are longer than the
      directory's own. */
  predicate ValidEntries(entries: seq<RemoteEntry>, n: nat) {
    && (forall i | 0 <= i < |entries| :: IsName(entries[i].name) && |Key(entries[i].fullName)| > n)
    && (forall i, j | 0 <= i < j < |entries| :: entries[i].name != entries[j].name)
  }

  /** Every directory key fits the bound and every listing is well formed. */
  predicate WellFormedTree(dirs: map<string, seq<RemoteEntry>>, bound: nat) {
    forall d | d in dirs :: |d| <= bound && ValidEntries(dirs[d], |d|)
  }

  /** Where `UploadFile` may write when the server has directories `dirs` and
      files `files`: a file path that no directory takes and that does not lie
      below a file. */
  predicate RemoteWritable(dirs: map<string, seq<RemoteEntry>>, files: map<string, seq<byte>>, p: string) {
    p != "" && !EndsWith(p, '/') && p !in dirs && !BelowFile(files, p)
  }

  class Transport {
    var connected: bool
    var connects: nat
    /** The server refuses to connect (unreachable, bad credentials, ...). */
    const connectFails: bool
    /** Closing the session raises an error. */
    const disconnectFails: bool
    var dirs: map<string, seq<RemoteEntry>>
    var files: map<string, seq<byte>>
    /** A bound on the length of every directory key; listed entries have
        longer keys than their directory, so recursive walks terminate. */
    ghost var bound: nat

    ghost predicate Valid()
      reads this
    {
      && (forall k | k in files :: k != "" && !EndsWith(k, '/') && k !in dirs)
      && WellFormedTree(dirs, bound)
    }

    constructor (dirs: map<string, seq<RemoteEntry>>, files: map<string, seq<byte>>,
                 connectFails: bool, disconnectFails: bool, ghost bound: nat)
      requires forall k | k in files :: k != "" && !EndsWith(k, '/') && k !in dirs
      requires WellFormedTree(dirs, bound)
      ensures Valid() && !connected && connects == 0
      ensures this.dirs == dirs && this.files == files && this.bound == bound
      ensures this.connectFails == connectFails && this.disconnectFails == disconnectFails
    {
      this.dirs := dirs;
      this.files := files;
      this.connectFails := connectFails;
      this.disconnectFails := disconnectFails;
      this.bound := bound;
      connected := false;
      connects := 0;
    }

    /** What is stored on the server, as opposed to the state of the session. */
    ghost function Contents(): (map<string, seq<RemoteEntry>>, map<string, seq<byte>>, nat)
      reads this
    {
      (dirs, files, bound)
    }

    /** The keys taken on the server, by a directory or by a file. */
    function Taken(): set<string>
      reads this
    {
      dirs.Keys + files.Keys
    }

    predicate PathExists(p: string)
      reads this
    {
      Key(p) in Taken()
    }

    /** What `Get(path)` returns: the directory or file record, or not found. */
    function Stat(p: string): (r: Result<RemoteEntry>)
      reads this
      ensures r.Success? <==> PathExists(p)
      ensures r.Success? ==> r.value.fullName == Key(p) && r.value.isDirectory == (Key(p) in dirs)
    {
      var k := Key(p);
      if k in dirs then Success(RemoteEntry(GetFileName(k), k, true))
      else if k in files then Success(RemoteEntry(GetFileName(k), k, false))
      else Failure(RemoteNotFound(p))
    }

    /** Whether `Delete(path)` succeeds on a connected session. */
    predicate Deletable(p: string)
      reads this
    {
      Key(p) in files || (Key(p) in dirs && VisibleInfos(dirs[Key(p)]) == [])
    }

    /** Whether `UploadFile` may write a file at `p`. */
    predicate Writable(p: string)
      reads this
    {
      RemoteWritable(dirs, files, p)
    }

    method Connect() returns (r: Outcome)
      modifies this
      ensures r == (if old(connected) then Fail(AlreadyConnected)
                    else if connectFails then Fail(ConnectionFailed) else Pass)
      ensures connected == (old(connected) || r.Pass?)
      ensures connects == old(connects) + (if r.Pass? then 1 else 0)
      ensures dirs == old(dirs) && files == old(files) && bound == old(bound)
    {
      if connected {
        return Fail(AlreadyConnected);
      }
      if connectFails {
        return Fail(ConnectionFailed);
      }
      connected := true;
      connects := connects + 1;
      r := Pass;
    }

    method Disconnect() returns (r: Outcome)
      modifies this
      ensures r == (if disconnectFails then Fail(DisconnectFailed) else Pass)
      ensures connected == (old(connected) && r.Fail?)
      ensures connects == old(connects)
      ensures dirs == old(dirs) && files == old(files) && bound == old(bound)
    {
      if disconnectFails {
        return Fail(DisconnectFailed);
      }
      connected := false;
      r := Pass;
    }

    method Exists(p: string) returns (r: Result<bool>)
      ensures r == (if connected then Success(PathExists(p)) else Failure(NotConnected))
    {
      if !connected {
        return Failure(NotConnected);
      }
      r := Success(Key(p) in dirs || Key(p) in files);
    }

    method Get(p: string) returns (r: Result<RemoteEntry>)
      ensures r == (if connected then Stat(p) else Failure(NotConnected))
    {
      if !connected {
        return Failure(NotConnected);
      }
      r := Stat(p);
    }

    method ListDirectory(p: string) returns (r: Result<seq<RemoteEntry>>)
      ensures !connected ==> r == Failure(NotConnected)
      ensures connected ==> r == (if Key(p) in dirs then Success(dirs[Key(p)]) else Failure(RemoteNotFound(p)))
    {
      if !connected {
        return Failure(NotConnected);
      }
      if Key(p) in dirs {
        r := Success(dirs[Key(p)]);
      } else {
        r := Failure(RemoteNotFound(p));
      }
    }

    /** `DownloadFile(path, output)`: the file's bytes are written to the stream. */
    method DownloadFile(p: string, output: Stream) returns (r: Outcome)
      modifies output
      ensures !connected ==> r == Fail(NotConnected)
      ensures connected && Key(p) !in files ==> r == Fail(RemoteNotFound(p))
      ensures connected && Key(p) in files && old(output.closed) ==> r == Fail(StreamDisposed)
      ensures r.Pass? <==> connected && Key(p) in files && !old(output.closed)
      ensures output.content == (if r.Pass? then old(output.content) + files[Key(p)] else old(output.content))
      ensures output.closed == old(output.closed)
    {
      if !connected {
        return Fail(NotConnected);
      }
      if Key(p) !in files {
        return Fail(RemoteNotFound(p));
      }
      if output.closed {
        return Fail(StreamDisposed);
      }
      output.content := output.content + files[Key(p)];
      r := Pass;
    }

    /** `UploadFile(input, path, canOverride: true)`: the bytes become the file at
        `path`, replacing any file there. */
    method UploadFile(content: seq<byte>, p: string) returns (r: Outcome)
      requires Valid()
      modifies this
      ensures Valid()
      ensures r == (if !old(connected) then Fail(NotConnected)
                    else if old(Writable(p)) then Pass else Fail(RemoteFailure(p)))
      ensures files == (if r.Pass? then old(files)[p := content] else old(files))
      ensures dirs == old(dirs) && bound == old(bound)
      ensures connected == old(connected) && connects == old(connects)
    {
      if !connected {
        return Fail(NotConnected);
      }
      if p == "" || EndsWith(p, '/') || p in dirs || BelowFile(files, p) {
        return Fail(RemoteFailure(p));
      }
      files := files[p := content];
      r := Pass;
    }

    /** `CreateDirectory(path)`: refused when the path is taken or lies below
        a file. */
    method CreateDirectory(p: string) returns (r: Outcome)
      requires Valid()
      modifies this
      ensures Valid()
      ensures r == (if !old(connected) then Fail(NotConnected)
                    else if old(PathExists(p)) || BelowFile(old(files), p) then Fail(RemoteFailure(p)) else Pass)
      ensures dirs == (if r.Pass? then old(dirs)[Key(p) := []] else old(dirs))
      ensures files == old(files) && bound >= old(bound)
      ensures connected == old(connected) && connects == old(connects)
    {
      if !connected {
        return Fail(NotConnected);
      }
      if Key(p) in dirs || Key(p) in files || BelowFile(files, p) {
        return Fail(RemoteFailure(p));
      }
      dirs := dirs[Key(p) := []];
      if |Key(p)| > bound {
        bound := |Key(p)|;
      }
      r := Pass;
    }

    /** `Delete(path)`: removes a file, or a directory that lists nothing but
        "." and "..". */
    method Delete(p: string) returns (r: Outcome)
      requires Valid()
      modifies this
      ensures Valid()
      ensures !old(connected) ==> r == Fail(NotConnected)
      ensures old(connected) && !old(PathExists(p)) ==> r == Fail(RemoteNotFound(p))
      ensures old(connected) && Key(p) in old(files) ==> r.Pass? && files == old(files) - {Key(p)} && dirs == old(dirs)
      ensures old(connected) && Key(p) in old(dirs) ==>
        if VisibleInfos(old(dirs)[Key(p)]) == [] then r.Pass? && dirs == old(dirs) - {Key(p)} && files == old(files)
        else r == Fail(RemoteFailure(p)) && dirs == old(dirs) && files == old(files)
      ensures r.Fail? ==> dirs == old(dirs) && files == old(files)
      ensures old(connected) ==> (r.Pass? <==> old(Deletable(p)))
      ensures r.Pass? ==> Taken() == old(Taken()) - {Key(p)}
      ensures r.Pass? ==> files == old(files) - {Key(p)} && dirs == old(dirs) - {Key(p)}
      ensures bound == old(bound) && connected == old(connected) && connects == old(connects)
    {
      if !connected {
        return Fail(NotConnected);
      }
      var k := Key(p);
      if k in files {
        assert dirs - {k} == dirs;
        files := files - {k};
        return Pass;
      }
      if k !in dirs {
        return Fail(RemoteNotFound(p));
      }
      if VisibleInfos(dirs[k]) != [] {
        return Fail(RemoteFailure(p));
      }
      assert files - {k} == files;
      dirs := dirs - {k};
      r := Pass;
    }
  }
}
