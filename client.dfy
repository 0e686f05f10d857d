/** The synchronous algorithm of the SFTP client (the .NET 9 build and its
    .NET Standard 2.0 subset, which share it): every operation connects on
    demand, does its work through the session, and in its `finally` drops the
    session unless the keep-open flag resolves to true. Recursive and inner calls
    pass `true`, so only the outermost call applies the policy. */
module Client {
  import opened Common
  import opened Paths
  import opened Folders
  import opened FolderCreation
  import opened Listing
  import opened Policy
  import opened Remote
  import opened Local
  import opened Mirroring
  import opened Uploading

  /** `SFtpClient.GlobalAutoCloseStreams`: one value shared by every client. */
  class GlobalSettings {
    var autoCloseStreams: bool

    constructor ()
      ensures !autoCloseStreams
    {
      autoCloseStreams := false;
    }
  }

  /** The bytes read back from a staged file: those of the file the transform
      returned when one is given, otherwise the staged bytes themselves
      (`ReadAllText` in `DownloadAsStringInternal`, the stream given to
      `UploadFile` in `UploadInternal`). */
  function StagedBytes(transform: Option<Transform>, tempPath: string, staged: seq<byte>): seq<byte> {
    match transform
    case None => staged
    case Some(t) => if t.apply(tempPath, staged).Some? then t.apply(tempPath, staged).value.1 else []
  }

  /** The transform hands back a file the client can open: it neither throws
      nor returns null, and the path it returns is a file path of the disk
      with directories `ldirs` and files `lfiles` once the staged file is
      written at `tempPath`. */
  predicate TransformWrites(t: Transform, tempPath: string, staged: seq<byte>,
                            ldirs: map<string, DirListing>, lfiles: map<string, seq<byte>>) {
    t.apply(tempPath, staged).Some? && LocalWritable(ldirs, lfiles[tempPath := staged], t.apply(tempPath, staged).value.0)
  }

  /** The path a transform that succeeds returns for the staged file. */
  function TransformPath(t: Transform, tempPath: string, staged: seq<byte>): string
    requires t.apply(tempPath, staged).Some?
  {
    t.apply(tempPath, staged).value.0
  }

  /** The server and the disk after the connected part of an upload of
      `content` (from a stream that was `closed` or not) to `remotePath`, from
      a server with directories `rdirs` and files `rfiles` and a disk with
      files `lfiles` and directories `ldirs`: the missing ancestor folders are
      created up to the first one below a file; the upload passes exactly when
      all were got through, the stream could be read, the target can be
      written and, with a transform, its file could be written at the path it
      chose; the file then holds the staged bytes; and of the local files only
      the transform's file is gone. */
  ghost predicate StreamUploaded(r: Outcome, rdirs: map<string, seq<RemoteEntry>>, rfiles: map<string, seq<byte>>,
                                 lfiles: map<string, seq<byte>>, ldirs: map<string, DirListing>,
                                 content: seq<byte>, closed: bool, remotePath: string,
                                       preProcess: Option<Transform>, tempPath: string,
                                 rdirs': map<string, seq<RemoteEntry>>, rfiles': map<string, seq<byte>>,
                                 lfiles': map<string, seq<byte>>)
  {
    var ancestors := AncestorFolders(remotePath);
    var reached := Reached(rdirs.Keys + rfiles.Keys, rfiles, ancestors);
    var foldered := reached == |ancestors|;
    var written := foldered && preProcess.Some? && !closed && TransformWrites(preProcess.value, tempPath, content, ldirs, lfiles);
    && rdirs' == AddFolders(rdirs, Missing(rdirs.Keys + rfiles.Keys, ancestors[..reached]))
    && (preProcess.Some? && foldered ==> tempPath !in lfiles && Key(tempPath) !in ldirs)
    && (r.Pass? <==> foldered && !closed && RemoteWritable(rdirs', rfiles, remotePath) && (preProcess.Some? ==> written))
    && rfiles' == (if r.Pass? then rfiles[remotePath := StagedBytes(preProcess, tempPath, content)] else rfiles)
    && lfiles' == (if written then lfiles - {TransformPath(preProcess.value, tempPath, content)} else lfiles)
  }

  class SftpClient {
    /** The server and the library session `c` connected to it. */
    const server: Transport
    const disk: LocalFs
    const globals: GlobalSettings
    var keepConnectionOpen: bool
    var autoCloseStreams: NullableBool
    /** The library session object exists (the field `c` is not null). */
    var sessionCreated: bool
    var disposedValue: bool

    ghost predicate Valid()
      reads this, server, disk
    {
      && server.Valid()
      && disk.Valid()
      && (server.connected ==> sessionCreated)
    }

    constructor (server: Transport, disk: LocalFs, globals: GlobalSettings)
      requires server.Valid() && disk.Valid() && !server.connected
      ensures Valid()
      ensures this.server == server && this.disk == disk && this.globals == globals
      ensures !keepConnectionOpen && autoCloseStreams == Null
      ensures !sessionCreated && !disposedValue
    {
      this.server := server;
      this.disk := disk;
      this.globals := globals;
      keepConnectionOpen := false;
      autoCloseStreams := Null;
      sessionCreated := false;
      disposedValue := false;
    }

    /** Connecting on demand cannot succeed: not connected and refused. */
    ghost predicate CannotConnect()
      reads server
    {
      !server.connected && server.connectFails
    }

    /** The session after an operation whose `finally` resolved the keep-open
        flag to `keep`, when it was `wasConnected` with `connectsBefore`
        connections made before the operation: dropped unless kept (or the drop
        itself failed), still up when kept and it was up or could be brought up,
        and one connection made exactly when there was none and the server
        accepts one. */
    ghost predicate SessionAfter(keep: bool, wasConnected: bool, connectsBefore: nat)
      reads server
    {
      && (!keep && !server.disconnectFails ==> !server.connected)
      && (keep && (wasConnected || !server.connectFails) ==> server.connected)
      && server.connects == connectsBefore + (if wasConnected || server.connectFails then 0 else 1)
    }

    /** `AutoConnect()`: connects only when not connected, and says whether it did. */
    method AutoConnect() returns (r: Result<bool>)
      requires Valid()
      modifies this`sessionCreated, server
      ensures Valid() && sessionCreated
      ensures server.Contents() == old(server.Contents())
      ensures old(server.connected) ==> r == Success(false) && server.connected && server.connects == old(server.connects)
      ensures !old(server.connected) ==>
        r == (if server.connectFails then Failure(ConnectionFailed) else Success(true))
        && server.connected == r.Success?
        && server.connects == old(server.connects) + (if r.Success? then 1 else 0)
    {
      sessionCreated := true;
      if server.connected {
        return Success(false);
      }
      var c := server.Connect();
      if c.Fail? {
        return Failure(c.error);
      }
      r := Success(true);
    }

    /** `Disconnect()`: nothing to do when not connected. */
    method Disconnect() returns (r: Outcome)
      requires Valid()
      modifies this`sessionCreated, server
      ensures Valid() && sessionCreated
      ensures server.Contents() == old(server.Contents()) && server.connects == old(server.connects)
      ensures !old(server.connected) ==> r == Pass && !server.connected
      ensures old(server.connected) ==>
        r == (if server.disconnectFails then Fail(DisconnectFailed) else Pass)
        && server.connected == r.Fail?
    {
      sessionCreated := true;
      if !server.connected {
        return Pass;
      }
      r := server.Disconnect();
    }

    /** The `finally` shared by the operations:
        `try { if (keepConnectionOpen != true) Disconnect(); } catch { }`. */
    method Release(keep: bool, ghost wasConnected: bool, ghost connectsBefore: nat)
      requires Valid()
      modifies this`sessionCreated, server
      ensures Valid()
      ensures server.Contents() == old(server.Contents()) && server.connects == old(server.connects)
      ensures keep ==> server.connected == old(server.connected) && sessionCreated == old(sessionCreated)
      ensures !keep ==> server.connected == (old(server.connected) && server.disconnectFails) && sessionCreated
      ensures old(SessionAfter(true, wasConnected, connectsBefore)) ==> SessionAfter(keep, wasConnected, connectsBefore)
    {
      if !keep {
        var _ := Disconnect();
      }
    }

    /** `ExistInternal(remotePath, keepConnectionOpen)`: the library's own test. */
    method ExistInternal(remotePath: string, keepArg: NullableBool) returns (r: Result<bool>)
      requires Valid()
      modifies this`sessionCreated, server
      ensures Valid() && sessionCreated
      ensures server.Contents() == old(server.Contents())
      ensures r == (if old(CannotConnect()) then Failure(ConnectionFailed) else Success(old(server.PathExists(remotePath))))
      ensures SessionAfter(ResolveKeepOpen(keepArg, keepConnectionOpen), old(server.connected), old(server.connects))
    {
      var keep := ResolveKeepOpen(keepArg, keepConnectionOpen);
      var c := AutoConnect();
      if c.Failure? {
        r := Failure(c.error);
      } else {
        r := server.Exists(remotePath);
      }
      Release(keep, old(server.connected), old(server.connects));
    }

    /** `GetFileInfoInternal(remotePath, keepConnectionOpen)`: the record of a
        remote file or directory; a missing path is an error, never null. */
    method GetFileInfoInternal(remotePath: string, keepArg: NullableBool) returns (r: Result<FileInfo>)
      requires Valid()
      modifies this`sessionCreated, server
      ensures Valid() && sessionCreated
      ensures server.Contents() == old(server.Contents())
      ensures old(CannotConnect()) ==> r == Failure(ConnectionFailed)
      ensures !old(CannotConnect()) ==>
        (r.Success? <==> old(server.PathExists(remotePath)))
        && (r.Success? ==> r.value == ToInfo(old(server.Stat(remotePath)).value)
                           && r.value.fullPath == Key(remotePath)
                           && r.value.isDirectory == (Key(remotePath) in old(server.dirs)))
        && (r.Failure? ==> r.error == RemoteNotFound(remotePath))
      ensures SessionAfter(ResolveKeepOpen(keepArg, keepConnectionOpen), old(server.connected), old(server.connects))
    {
      var keep := ResolveKeepOpen(keepArg, keepConnectionOpen);
      var c := AutoConnect();
      if c.Failure? {
        r := Failure(c.error);
      } else {
        var entry := server.Get(remotePath);
        if entry.Failure? {
          r := Failure(entry.error);
        } else {
          r := Success(ToInfo(entry.value));
        }
      }
      Release(keep, old(server.connected), old(server.connects));
    }

    /** `ExistsInternal(remotePath, keepConnectionOpen)`: true when the record is
        not null. Since the record is never null, the answer is never false:
        a missing path surfaces as the lookup's error. */
    method ExistsInternal(remotePath: string, keepArg: NullableBool) returns (r: Result<bool>)
      requires Valid()
      modifies this`sessionCreated, server
      ensures Valid() && sessionCreated
      ensures server.Contents() == old(server.Contents())
      ensures r != Success(false)
      ensures r.Success? <==> !old(CannotConnect()) && old(server.PathExists(remotePath))
      ensures r.Failure? ==> r.error == (if old(CannotConnect()) then ConnectionFailed else RemoteNotFound(remotePath))
      ensures SessionAfter(ResolveKeepOpen(keepArg, keepConnectionOpen), old(server.connected), old(server.connects))
    {
      var info := GetFileInfoInternal(remotePath, keepArg);
      if info.Failure? {
        return Failure(info.error);
      }
      r := Success(true);
    }

    /** `DeleteInternal(remotePath, keepConnectionOpen)` */
    method DeleteInternal(remotePath: string, keepArg: NullableBool) returns (r: Outcome)
      requires Valid()
      modifies this`sessionCreated, server
      ensures Valid() && sessionCreated
      ensures old(CannotConnect()) ==> r == Fail(ConnectionFailed)
      ensures !old(CannotConnect()) ==> (r.Pass? <==> old(server.Deletable(remotePath)))
      ensures r.Pass? ==> server.Taken() == old(server.Taken()) - {Key(remotePath)}
      ensures r.Pass? ==> server.files == old(server.files) - {Key(remotePath)} && server.dirs == old(server.dirs) - {Key(remotePath)}
      ensures r.Fail? ==> server.Contents() == old(server.Contents())
      ensures server.bound == old(server.bound)
      ensures SessionAfter(ResolveKeepOpen(keepArg, keepConnectionOpen), old(server.connected), old(server.connects))
    {
      var keep := ResolveKeepOpen(keepArg, keepConnectionOpen);
      var c := AutoConnect();
      if c.Failure? {
        r := Fail(c.error);
      } else {
        r := server.Delete(remotePath);
      }
      Release(keep, old(server.connected), old(server.connects));
    }

    /** `ListFilesInternal(remotePath, keepConnectionOpen)`: every listed entry
        but "." and "..", in the server's order; a blank path lists "". */
    method ListFilesInternal(remotePath: string, keepArg: NullableBool) returns (r: Result<seq<FileInfo>>)
      requires Valid()
      modifies this`sessionCreated, server
      ensures Valid() && sessionCreated
      ensures server.Contents() == old(server.Contents())
      ensures var path := if IsBlank(remotePath) then "" else remotePath;
        && (old(CannotConnect()) ==> r == Failure(ConnectionFailed))
        && (!old(CannotConnect()) ==>
              r == if Key(path) in old(server.dirs) then Success(VisibleInfos(old(server.dirs)[Key(path)]))
                   else Failure(RemoteNotFound(path)))
      ensures SessionAfter(ResolveKeepOpen(keepArg, keepConnectionOpen), old(server.connected), old(server.connects))
    {
      var keep := ResolveKeepOpen(keepArg, keepConnectionOpen);
      var path := remotePath;
      if IsBlank(path) {
        path := "";
      }
      var c := AutoConnect();
      if c.Failure? {
        r := Failure(c.error);
      } else {
        var listing := server.ListDirectory(path);
        if listing.Failure? {
          r := Failure(listing.error);
        } else {
          var list := VisibleRecords(listing.value);
          r := Success(list);
        }
      }
      Release(keep, old(server.connected), old(server.connects));
    }

    /** The `foreach` of `ListFilesInternal`: one record per listed entry that is
        not "." or "..", added in the server's order. */
    method VisibleRecords(entries: seq<RemoteEntry>) returns (list: seq<FileInfo>)
      ensures list == VisibleInfos(entries)
    {
      list := [];
      var i := 0;
      while i < |entries|
        invariant 0 <= i <= |entries|
        invariant list == VisibleInfos(entries[..i])
      {
        if !IsDotEntry(entries[i]) {
          list := list + [ToInfo(entries[i])];
        }
        VisibleInfosAppend(entries[..i], [entries[i]]);
        assert entries[..i + 1] == entries[..i] + [entries[i]];
        i := i + 1;
      }
      assert entries[..|entries|] == entries;
    }

    /** `DownloadInternal(remotePath, output, keepConnectionOpen, closeStream)`:
        the file's bytes are appended to the caller's stream, which is disposed
        exactly when the close flag resolves to true, whatever the outcome. */
    method DownloadToStream(remotePath: string, output: Stream, keepArg: NullableBool, closeArg: NullableBool)
      returns (r: Outcome)
      requires Valid()
      modifies this`sessionCreated, server, output
      ensures Valid() && sessionCreated
      ensures server.Contents() == old(server.Contents())
      ensures r.Pass? <==> !old(CannotConnect()) && Key(remotePath) in old(server.files) && !old(output.closed)
      ensures old(CannotConnect()) ==> r == Fail(ConnectionFailed)
      ensures output.content == if r.Pass? then old(output.content) + old(server.files)[Key(remotePath)] else old(output.content)
      ensures output.closed == (old(output.closed) || ClosesStream(closeArg, autoCloseStreams, globals.autoCloseStreams))
      ensures SessionAfter(ResolveKeepOpen(keepArg, keepConnectionOpen), old(server.connected), old(server.connects))
    {
      var keep := ResolveKeepOpen(keepArg, keepConnectionOpen);
      var close := ClosesStream(closeArg, autoCloseStreams, globals.autoCloseStreams);
      r := DownloadTry(remotePath, output);
      if close {
        output.Close();
      }
      Release(keep, old(server.connected), old(server.connects));
    }

    /** The `try` of `DownloadInternal(remotePath, output, ...)`: connect on
        demand, then the remote file's bytes are written to the stream. */
    method DownloadTry(remotePath: string, output: Stream) returns (r: Outcome)
      requires Valid()
      modifies this`sessionCreated, server, output
      ensures Valid() && sessionCreated
      ensures server.Contents() == old(server.Contents())
      ensures r.Pass? <==> !old(CannotConnect()) && Key(remotePath) in old(server.files) && !old(output.closed)
      ensures old(CannotConnect()) ==> r == Fail(ConnectionFailed)
      ensures output.content == if r.Pass? then old(output.content) + old(server.files)[Key(remotePath)] else old(output.content)
      ensures output.closed == old(output.closed)
      ensures SessionAfter(true, old(server.connected), old(server.connects))
    {
      var c := AutoConnect();
      if c.Failure? {
        r := Fail(c.error);
      } else {
        r := server.DownloadFile(remotePath, output);
      }
    }

    /** `using (var f = new FileStream(path, ...)) DownloadInternal(remotePath, f, keep)`:
        the local file is created (or emptied), the remote file's bytes go into
        it, and the stream is closed. A path where no file can be written
        fails before any remote access. */
    method DownloadIntoFile(remotePath: string, localPath: string, keepArg: NullableBool) returns (r: Outcome)
      requires Valid()
      modifies this`sessionCreated, server, disk
      ensures Valid()
      ensures server.Contents() == old(server.Contents()) && disk.dirs == old(disk.dirs)
      ensures !old(disk.Writable(localPath)) ==>
        && r.Fail? && disk.files == old(disk.files)
        && server.connected == old(server.connected) && server.connects == old(server.connects)
      ensures old(disk.Writable(localPath)) ==>
        && SessionAfter(ResolveKeepOpen(keepArg, keepConnectionOpen), old(server.connected), old(server.connects))
        && (r.Pass? <==> !old(CannotConnect()) && Key(remotePath) in old(server.files))
        && disk.files == old(disk.files)[localPath := if r.Pass? then old(server.files)[Key(remotePath)] else []]
    {
      r := disk.WriteFile(localPath, []);
      if r.Fail? {
        return;
      }
      var f := new Stream([]);
      r := DownloadToStream(remotePath, f, keepArg, Null);
      assert f.content == if r.Pass? then server.files[Key(remotePath)] else [];
      var _ := disk.WriteFile(localPath, f.content);
      Overwrite(old(disk.files), localPath, [], f.content);
    }

    /** The `finally` of the staged operations: the current path and the backup
        of the temporary path are deleted, errors swallowed. */
    method DeleteStaged(current: string, backup: Option<string>)
      requires disk.Valid() && current != "" && Key(current) !in disk.dirs
      requires backup.Some? ==> backup.value != "" && Key(backup.value) !in disk.dirs
      modifies disk
      ensures disk.Valid() && disk.dirs == old(disk.dirs) && disk.bound == old(disk.bound)
      ensures disk.files == if backup.Some? then old(disk.files) - {current} - {backup.value} else old(disk.files) - {current}
    {
      var _ := disk.DeleteFile(current);
      if backup.Some? {
        var _ := disk.DeleteFile(backup.value);
      }
    }

    /** `DownloadAsStringInternal(remoteFilePath, encoding, postProcess, keepConnectionOpen)`:
        the file goes into a fresh temporary file through `DownloadInternal`, the
        transform (when given) turns that file into another, and the bytes of
        the last one are returned. Both paths are deleted whatever happens, so
        no staged file survives and a file the transform returned is deleted
        even if it was there before. */
    method DownloadAsString(remotePath: string, postProcess: Option<Transform>, keepArg: NullableBool)
      returns (r: Result<seq<byte>>, ghost tempPath: string)
      requires Valid()
      modifies this`sessionCreated, server, disk
      ensures Valid()
      ensures server.Contents() == old(server.Contents())
      ensures SessionAfter(ResolveKeepOpen(keepArg, keepConnectionOpen), old(server.connected), old(server.connects))
      ensures tempPath !in old(disk.files) && Key(tempPath) !in old(disk.dirs) && tempPath !in disk.files
      ensures var fetched := !old(CannotConnect()) && Key(remotePath) in old(server.files);
        && (r.Success? <==> fetched && (postProcess.Some? ==>
              TransformWrites(postProcess.value, tempPath, old(server.files)[Key(remotePath)], disk.dirs, old(disk.files))))
        && (r.Success? ==> r.value == StagedBytes(postProcess, tempPath, old(server.files)[Key(remotePath)]))
        && disk.files == if r.Success? && postProcess.Some?
                         then old(disk.files) - {TransformPath(postProcess.value, tempPath, old(server.files)[Key(remotePath)])}
                         else old(disk.files)
      ensures disk.dirs == old(disk.dirs)
    {
      var keep := ResolveKeepOpen(keepArg, keepConnectionOpen);
      var temp := disk.NewTempPath();
      tempPath := temp;
      var current := temp;
      var backup: Option<string> := None;
      var d := DownloadIntoFile(remotePath, temp, Value(keep));
      WriteThenDelete(old(disk.files), temp, disk.files[temp]);
      if d.Fail? {
        r := Failure(d.error);
      } else {
        match postProcess {
          case None =>
            r := Success(disk.files[current]);
          case Some(t) =>
            backup := Some(temp);
            var produced := t.apply(temp, disk.files[temp]);
            if produced.None? {
              r := Failure(TransformFailed);
            } else {
              var (out, bytes) := produced.value;
              StagedCleanup(old(disk.files), temp, disk.files[temp], out, bytes);
              var w := disk.WriteFile(out, bytes);
              if w.Fail? {
                r := Failure(w.error);
              } else {
                current := out;
                r := Success(disk.files[current]);
              }
            }
        }
      }
      DeleteStaged(current, backup);
    }

    /** The argument checks and the creation of the parent directory that
        `DownloadInternal(remotePath, localPath, ...)` does before its `try`. A
        blank path is refused; a parent that `Path.GetDirectoryName` gives as
        null (the root) or as "" (a bare file name) makes
        `Directory.CreateDirectory` throw. */
    function DownloadPrecheck(remotePath: string, localPath: string): (r: Outcome)
      reads disk
      ensures r.Pass? ==> (!IsBlank(remotePath) && !IsBlank(localPath)
        && (disk.DirExists(GetDirectoryName(localPath)) || disk.CreateDirectoryOutcome(GetDirectoryName(localPath)).Pass?))
      ensures IsBlank(remotePath) ==> r == Fail(EmptyArgument("remotePath"))
      ensures !IsBlank(remotePath) && IsBlank(localPath) ==> r == Fail(EmptyArgument("localPath"))
      ensures !IsBlank(localPath) && GetDirectoryName(localPath) == Some("") ==> r.Fail?
    {
      if IsBlank(remotePath) then Fail(EmptyArgument("remotePath"))
      else if IsBlank(localPath) then Fail(EmptyArgument("localPath"))
      else if disk.DirExists(GetDirectoryName(localPath)) then Pass
      else disk.CreateDirectoryOutcome(GetDirectoryName(localPath))
    }

    /** The checks before the `try` of `DownloadInternal(remotePath, localPath, ...)`:
        the arguments are tested, then the parent directory is created when
        `Directory.Exists` says it is not there. */
    method PrepareParent(remotePath: string, localPath: string) returns (r: Outcome)
      requires disk.Valid()
      modifies disk
      ensures disk.Valid()
      ensures r == old(DownloadPrecheck(remotePath, localPath))
      ensures disk.files == old(disk.files) && old(disk.dirs).Keys <= disk.dirs.Keys
      ensures r.Pass? ==> !IsBlank(remotePath) && !IsBlank(localPath)
      ensures r.Fail? ==> disk.dirs == old(disk.dirs)
    {
      r := DownloadPrecheck(remotePath, localPath);
      if r.Fail? {
        return;
      }
      var parent := GetDirectoryName(localPath);
      if !disk.DirExists(parent) {
        var _ := disk.CreateDirectory(parent);
      }
    }

    /** The remote tree at `remotePath` is reproduced at `localPath` in the
        current state. */
    ghost predicate Downloaded(remotePath: string, localPath: string)
      requires Valid()
      reads this, server, disk
    {
      Mirrored(server.dirs, server.files, server.bound, disk.files, disk.dirs.Keys, remotePath, localPath)
    }

    /** `DownloadInternal(remotePath, localPath, keepConnectionOpen)`: after the
        argument checks (outside the `try`, so their failure leaves the session
        alone), the remote file or directory tree is downloaded to `localPath`
        with every inner call keeping the session open, and the session is then
        dropped unless kept. Only files at or inside `localPath` change, local
        directories are only added, and on success the remote tree is mirrored
        there. */
    method DownloadToPath(remotePath: string, localPath: string, keepArg: NullableBool) returns (r: Outcome)
      requires Valid()
      modifies this`sessionCreated, server, disk
      decreases server.bound - |Key(remotePath)|, 3
      ensures Valid()
      ensures server.Contents() == old(server.Contents())
      ensures old(DownloadPrecheck(remotePath, localPath)).Fail? ==>
        && r == old(DownloadPrecheck(remotePath, localPath))
        && server.connected == old(server.connected) && server.connects == old(server.connects)
        && disk.files == old(disk.files) && disk.dirs == old(disk.dirs)
      ensures old(DownloadPrecheck(remotePath, localPath)).Pass? ==>
        SessionAfter(ResolveKeepOpen(keepArg, keepConnectionOpen), old(server.connected), old(server.connects))
      ensures SameOutside(old(disk.files), disk.files, localPath) && old(disk.dirs).Keys <= disk.dirs.Keys
      ensures r.Pass? ==> Downloaded(remotePath, localPath)
    {
      var keep := ResolveKeepOpen(keepArg, keepConnectionOpen);
      r := PrepareParent(remotePath, localPath);
      if r.Fail? {
        return;
      }
      r := DownloadAndRelease(remotePath, localPath, keep);
    }

    /** The `try` and `finally` of `DownloadInternal(remotePath, localPath, ...)`
        once the argument checks have passed. */
    method DownloadAndRelease(remotePath: string, localPath: string, keep: bool) returns (r: Outcome)
      requires Valid() && !IsBlank(remotePath) && localPath != []
      modifies this`sessionCreated, server, disk
      decreases server.bound - |Key(remotePath)|, 2
      ensures Valid()
      ensures server.Contents() == old(server.Contents())
      ensures SessionAfter(keep, old(server.connected), old(server.connects))
      ensures SameOutside(old(disk.files), disk.files, localPath) && old(disk.dirs).Keys <= disk.dirs.Keys
      ensures r.Pass? ==> Downloaded(remotePath, localPath)
    {
      r := DownloadTree(remotePath, localPath);
      Release(keep, old(server.connected), old(server.connects));
    }

    /** The `try` block of `DownloadInternal(remotePath, localPath, ...)`: the
        record of the remote path decides between a directory and a file. */
    method DownloadTree(remotePath: string, localPath: string) returns (r: Outcome)
      requires Valid() && !IsBlank(remotePath) && localPath != []
      modifies this`sessionCreated, server, disk
      decreases server.bound - |Key(remotePath)|, 1
      ensures Valid()
      ensures server.Contents() == old(server.Contents())
      ensures SessionAfter(true, old(server.connected), old(server.connects))
      ensures SameOutside(old(disk.files), disk.files, localPath) && old(disk.dirs).Keys <= disk.dirs.Keys
      ensures r.Pass? ==> Downloaded(remotePath, localPath)
    {
      var info := GetFileInfoInternal(remotePath, Value(true));
      if info.Failure? {
        return Fail(info.error);
      }
      if info.value.isDirectory {
        r := DownloadDirectoryEntries(remotePath, localPath);
      } else {
        r := DownloadSingleFile(remotePath, localPath);
      }
    }

    /** A remote file downloaded to a local path: an existing local file is
        deleted, then a new one is created and the bytes are written into it. */
    method DownloadSingleFile(remotePath: string, localPath: string) returns (r: Outcome)
      requires Valid() && server.connected && Key(remotePath) in server.files
      modifies this`sessionCreated, server, disk
      ensures Valid() && server.connected && server.connects == old(server.connects)
      ensures server.Contents() == old(server.Contents())
      ensures r.Pass? <==> old(disk.Writable(localPath))
      ensures SameOutside(old(disk.files), disk.files, localPath) && disk.dirs == old(disk.dirs)
      ensures r.Pass? ==> localPath in disk.files && disk.files[localPath] == server.files[Key(remotePath)]
    {
      ghost var before := disk.files;
      assert Beneath(localPath, localPath);
      BelowFileIgnoresSelf(before, localPath, []);
      if localPath in disk.files {
        var _ := disk.DeleteFile(localPath);
        SameOutsideUpdate(before, localPath, [], localPath);
      }
      ghost var cleared := disk.files;
      r := DownloadIntoFile(remotePath, localPath, Value(true));
      if old(disk.Writable(localPath)) {
        SameOutsideUpdate(cleared, localPath, disk.files[localPath], localPath);
      }
    }

    /** The local side of a directory download: a file at the local path is
        deleted, then the directory is created unless it is there. */
    method PrepareDirectory(localPath: string) returns (r: Outcome)
      requires disk.Valid() && localPath != []
      modifies disk
      ensures disk.Valid()
      ensures r.Pass? <==>
        || Key(localPath) in old(disk.dirs)
        || (Key(localPath) !in old(disk.files) - {localPath} && !BelowFile(old(disk.files), localPath))
      ensures r.Pass? ==> disk.DirExists(Some(localPath))
      ensures SameOutside(old(disk.files), disk.files, localPath) && old(disk.dirs).Keys <= disk.dirs.Keys
    {
      BelowFileIgnoresSelf(disk.files, localPath, []);
      if localPath in disk.files {
        var _ := disk.DeleteFile(localPath);
        SameOutsideUpdate(old(disk.files), localPath, [], localPath);
      }
      r := Pass;
      if !disk.DirExists(Some(localPath)) {
        r := disk.CreateDirectory(Some(localPath));
      }
    }

    /** A remote directory downloaded to a local path: a local file of that
        name is deleted, the local directory is created when absent, and every
        listed child is downloaded, in order, to `Path.Combine(localPath, name)`. */
    method DownloadDirectoryEntries(remotePath: string, localPath: string) returns (r: Outcome)
      requires Valid() && server.connected && !IsBlank(remotePath) && localPath != []
      requires Key(remotePath) in server.dirs
      modifies this`sessionCreated, server, disk
      decreases server.bound - |Key(remotePath)|, 0
      ensures Valid() && server.connected && server.connects == old(server.connects)
      ensures server.Contents() == old(server.Contents())
      ensures SameOutside(old(disk.files), disk.files, localPath) && old(disk.dirs).Keys <= disk.dirs.Keys
      ensures r.Pass? ==> Downloaded(remotePath, localPath)
    {
      r := PrepareDirectory(localPath);
      if r.Fail? {
        return;
      }
      var listing := ListFilesInternal(remotePath, Value(true));
      assert listing.Success?;
      var list := listing.value;
      var k := Key(remotePath);
      var i := 0;
      while i < |list|
        invariant server.Contents() == old(server.Contents()) && k in server.dirs
        invariant 0 <= i <= |list| && list == VisibleInfos(server.dirs[k])
        invariant Valid() && server.connected && server.connects == old(server.connects)
        invariant SameOutside(old(disk.files), disk.files, localPath) && old(disk.dirs).Keys <= disk.dirs.Keys
        invariant disk.DirExists(Some(localPath))
        invariant ChildrenMirrored(server.dirs, server.files, server.bound, disk.files, disk.dirs.Keys, list, i, localPath)
      {
        var child := list[i];
        ChildShape(server.dirs, server.bound, k, i);
        ghost var before := disk.files;
        ghost var dirsBefore := disk.dirs.Keys;
        r := DownloadToPath(child.fullPath, Combine(localPath, child.name), Value(true));
        SameOutsideOfChild(before, disk.files, localPath, child.name);
        if r.Fail? {
          return;
        }
        NextChildMirrored(server.dirs, server.files, server.bound, k, localPath, i, before, dirsBefore, disk.files, disk.dirs.Keys);
        i := i + 1;
      }
      r := Pass;
    }

    /** One folder of the creation loop: `Exists`, then `CreateDirectory` when
        the answer is no, which throws when the folder lies below a file. */
    method CreateIfMissing(folder: string) returns (r: Outcome)
      requires Valid() && server.connected
      modifies server
      ensures Valid() && server.connected && server.connects == old(server.connects)
      ensures r.Pass? <==> old(server.PathExists(folder)) || !BelowFile(old(server.files), folder)
      ensures r.Fail? ==> r == Fail(RemoteFailure(folder))
      ensures server.dirs ==
        if r.Pass? && !old(server.PathExists(folder)) then old(server.dirs)[Key(folder) := []] else old(server.dirs)
      ensures server.files == old(server.files)
    {
      r := Pass;
      var e := server.Exists(folder);
      if e == Success(false) {
        r := server.CreateDirectory(folder);
      }
    }

    /** Turn `i` of the folder loop, whose folder is `ancestors[i]`, after
        turns that created `created` on a server that had directories `dirs`
        and files `files` before the loop: the loop goes on with the folder
        made when it was missing, or stops where `Reached` says. */
    method CreationTurn(folder: string, ghost dirs: map<string, seq<RemoteEntry>>, ghost files: map<string, seq<byte>>,
                        ghost ancestors: seq<string>, ghost i: nat, ghost created: seq<string>)
      returns (r: Outcome, ghost created': seq<string>)
      requires Valid() && server.connected
      requires i < |ancestors| && folder == ancestors[i]
      requires Reached(dirs.Keys + files.Keys, files, ancestors[..i]) == i
      requires created == Missing(dirs.Keys + files.Keys, ancestors[..i])
      requires server.dirs == AddFolders(dirs, created) && server.files == files
      modifies server
      ensures Valid() && server.connected && server.connects == old(server.connects) && server.files == files
      ensures server.dirs == AddFolders(dirs, created')
      ensures r.Pass? ==>
        && Reached(dirs.Keys + files.Keys, files, ancestors[..i + 1]) == i + 1
        && created' == Missing(dirs.Keys + files.Keys, ancestors[..i + 1])
      ensures r.Fail? ==>
        && Reached(dirs.Keys + files.Keys, files, ancestors) == i
        && created' == created && r == Fail(RemoteFailure(folder))
    {
      ghost var existing := dirs.Keys + files.Keys;
      MissingStep(existing, ancestors, i);
      ReachedStep(existing, files, ancestors, i);
      AddFoldersKeys(dirs, created);
      ghost var made := !server.PathExists(folder);
      created' := created;
      r := CreateIfMissing(folder);
      if r.Fail? {
        ReachedStops(existing, files, ancestors, i);
        return;
      }
      if made {
        AddFoldersStep(dirs, created, folder);
        created' := created + [folder];
      }
    }

    /** The folder loop of `UploadInternal(input, remotePath, ...)`: the path is
        split with `FolderSplitterRegex`, '\' becomes '/' in each piece, and each
        cumulative prefix is created when `Exists` says it is not there. The
        first `CreateDirectory` that throws ends the loop. */
    method CreateAncestorFolders(remotePath: string) returns (r: Outcome, ghost created: seq<string>)
      requires Valid() && server.connected
      modifies server
      ensures Valid() && server.connected && server.connects == old(server.connects)
      ensures var ancestors := AncestorFolders(remotePath);
        var n := Reached(old(server.Taken()), old(server.files), ancestors);
        && created == Missing(old(server.Taken()), ancestors[..n])
        && (r.Pass? <==> n == |ancestors|)
        && (r.Fail? ==> n < |ancestors| && r == Fail(RemoteFailure(ancestors[n])))
      ensures server.dirs == AddFolders(old(server.dirs), created) && server.files == old(server.files)
    {
      ghost var ancestors := AncestorFolders(remotePath);
      var folders := NormalizeAll(Segments(remotePath));
      var folderToCreate := "";
      created := [];
      r := Pass;
      var i := 0;
      while i < |folders|
        invariant 0 <= i <= |folders| && |ancestors| == |folders|
        invariant folderToCreate == Concat(folders[..i])
        invariant Reached(old(server.Taken()), old(server.files), ancestors[..i]) == i && r == Pass
        invariant created == Missing(old(server.Taken()), ancestors[..i])
        invariant server.dirs == AddFolders(old(server.dirs), created) && server.files == old(server.files)
        invariant Valid() && server.connected && server.connects == old(server.connects)
      {
        ConcatLastSegment(folders, i);
        CumulativeAt("", folders, i);
        folderToCreate := folderToCreate + folders[i];
        assert folderToCreate == ancestors[i];
        r, created := CreationTurn(folderToCreate, old(server.dirs), old(server.files), ancestors, i, created);
        if r.Fail? {
          return;
        }
        i := i + 1;
      }
      assert ancestors[..|folders|] == ancestors;
    }

    /** The `try` of `UploadInternal(input, ...)` after the folders, with the
        deletions of its `finally` (they touch only the local disk, so making
        them before the stream is closed and the session dropped changes
        nothing). Without a transform the stream goes to `UploadFile` as it is.
        With one, it is copied into a fresh temporary file, the transform turns
        that file into another, and the bytes of that one are uploaded; both
        files are deleted at the end. */
    method SendContent(input: Stream, remotePath: string, preProcess: Option<Transform>)
      returns (r: Outcome, ghost tempPath: string, copied: bool)
      requires Valid() && server.connected
      modifies server, disk
      ensures copied == (preProcess.Some? && !input.closed)
      ensures Valid() && server.connected && server.connects == old(server.connects)
      ensures server.dirs == old(server.dirs) && disk.dirs == old(disk.dirs) && disk.bound == old(disk.bound)
      ensures preProcess.Some? ==> tempPath !in old(disk.files) && Key(tempPath) !in old(disk.dirs)
      ensures r.Pass? <==>
        && !input.closed && old(server.Writable(remotePath))
        && (preProcess.Some? ==> TransformWrites(preProcess.value, tempPath, input.content, disk.dirs, old(disk.files)))
      ensures server.files ==
        if r.Pass? then old(server.files)[remotePath := StagedBytes(preProcess, tempPath, input.content)]
        else old(server.files)
      ensures disk.files ==
        if preProcess.Some? && !input.closed && TransformWrites(preProcess.value, tempPath, input.content, disk.dirs, old(disk.files))
        then old(disk.files) - {TransformPath(preProcess.value, tempPath, input.content)}
        else old(disk.files)
    {
      tempPath := "";
      copied := false;
      if preProcess.None? {
        if input.closed {
          r := Fail(StreamDisposed);
          return;
        }
        r := server.UploadFile(input.content, remotePath);
        return;
      }
      var t := preProcess.value;
      var temp := disk.NewTempPath();
      tempPath := temp;
      var current := temp;
      if input.closed {
        var _ := disk.WriteFile(temp, []);
        WriteThenDelete(old(disk.files), temp, []);
        r := Fail(StreamDisposed);
      } else {
        var _ := disk.WriteFile(temp, input.content);
        copied := true;
        WriteThenDelete(old(disk.files), temp, input.content);
        var produced := t.apply(temp, input.content);
        if produced.None? {
          r := Fail(TransformFailed);
        } else {
          var (out, bytes) := produced.value;
          StagedCleanup(old(disk.files), temp, input.content, out, bytes);
          r := disk.WriteFile(out, bytes);
          if r.Pass? {
            current := out;
            r := server.UploadFile(disk.files[out], remotePath);
          }
        }
      }
      DeleteStaged(current, Some(temp));
    }

    /** The connected part of the `try` of `UploadInternal(input, ...)`: the
        missing ancestor folders, then the bytes. */
    method UploadConnected(input: Stream, remotePath: string, preProcess: Option<Transform>)
      returns (r: Outcome, ghost tempPath: string, copied: bool)
      requires Valid() && server.connected
      modifies server, disk
      ensures copied == (preProcess.Some? && !input.closed
                         && CreatesAll(old(server.Taken()), old(server.files), AncestorFolders(remotePath)))
      ensures Valid() && server.connected && server.connects == old(server.connects) && disk.dirs == old(disk.dirs) && disk.bound == old(disk.bound)
      ensures StreamUploaded(r, old(server.dirs), old(server.files), old(disk.files), disk.dirs, input.content, input.closed,
                             remotePath, preProcess, tempPath, server.dirs, server.files, disk.files)
    {
      ghost var created;
      r, created := CreateAncestorFolders(remotePath);
      if r.Fail? {
        tempPath, copied := "", false;
        return;
      }
      assert AncestorFolders(remotePath)[..|AncestorFolders(remotePath)|] == AncestorFolders(remotePath);
      r, tempPath, copied := SendContent(input, remotePath, preProcess);
    }

    /** The `try` of `UploadInternal(input, ...)` for a stream that is there:
        connect on demand, then the folders and the bytes. */
    method UploadTry(input: Stream, remotePath: string, preProcess: Option<Transform>)
      returns (r: Outcome, ghost tempPath: string, copied: bool)
      requires Valid()
      modifies this`sessionCreated, server, disk
      ensures copied == (!old(CannotConnect()) && preProcess.Some? && !input.closed
                         && CreatesAll(old(server.Taken()), old(server.files), AncestorFolders(remotePath)))
      ensures Valid() && disk.dirs == old(disk.dirs) && disk.bound == old(disk.bound)
      ensures SessionAfter(true, old(server.connected), old(server.connects))
      ensures old(CannotConnect()) ==>
        r == Fail(ConnectionFailed) && server.Contents() == old(server.Contents()) && disk.files == old(disk.files)
        && CannotConnect()
      ensures !old(CannotConnect()) ==>
        StreamUploaded(r, old(server.dirs), old(server.files), old(disk.files), disk.dirs, input.content, input.closed,
                       remotePath, preProcess, tempPath, server.dirs, server.files, disk.files)
    {
      tempPath := "";
      copied := false;
      var c := AutoConnect();
      if c.Failure? {
        r := Fail(c.error);
      } else {
        r, tempPath, copied := UploadConnected(input, remotePath, preProcess);
      }
    }

    /** `UploadInternal(input, ...)` for a stream that is there: the `try`,
        then the `finally` but for the staged files (which the `try` already
        removed; removing them before the stream is closed and the session
        dropped changes nothing): the input is disposed when the close flag
        resolved to true, then the session is dropped unless kept. */
    method UploadGiven(input: Stream, remotePath: string, preProcess: Option<Transform>, close: bool, keep: bool)
      returns (r: Outcome, ghost tempPath: string)
      requires Valid()
      modifies this`sessionCreated, server, disk, input
      ensures Valid() && disk.dirs == old(disk.dirs) && disk.bound == old(disk.bound)
      ensures input.content == old(input.content) && input.closed == (old(input.closed) || close)
      ensures SessionAfter(keep, old(server.connected), old(server.connects))
      ensures old(CannotConnect()) ==>
        r == Fail(ConnectionFailed) && server.Contents() == old(server.Contents()) && disk.files == old(disk.files)
        && CannotConnect()
      ensures !old(CannotConnect()) ==>
        StreamUploaded(r, old(server.dirs), old(server.files), old(disk.files), disk.dirs,
                       old(input.content), old(input.closed),
                       remotePath, preProcess, tempPath, server.dirs, server.files, disk.files)
    {
      var copied;
      r, tempPath, copied := UploadTry(input, remotePath, preProcess);
      ghost var rdirs, rfiles := server.dirs, server.files;
      if close {
        input.Close();
      }
      Release(keep, old(server.connected), old(server.connects));
      assert server.dirs == rdirs && server.files == rfiles;
    }

    /** `UploadInternal(input, remotePath, preProcess, keepConnectionOpen, closeStream)`:
        a null input is refused inside the `try`, so the `finally` still drops
        the session unless kept. Otherwise the client connects on demand,
        creates the missing ancestor folders of the target, and sends the
        bytes (through the transform's file when one is given); the input is
        disposed exactly when the close flag resolves to true, whatever the
        outcome, and no staged file survives. */
    method UploadFromStream(input: Stream?, remotePath: string, preProcess: Option<Transform>,
                            keepArg: NullableBool, closeArg: NullableBool)
      returns (r: Outcome, ghost tempPath: string)
      requires Valid()
      modifies this`sessionCreated, server, disk, input
      ensures Valid() && disk.dirs == old(disk.dirs) && disk.bound == old(disk.bound)
      ensures input == null ==>
        && r == Fail(ArgumentNull("input"))
        && server.Contents() == old(server.Contents()) && disk.files == old(disk.files)
        && server.connects == old(server.connects)
        && server.connected == (old(server.connected) && (ResolveKeepOpen(keepArg, keepConnectionOpen) || server.disconnectFails))
      ensures input != null ==>
        && input.content == old(input.content)
        && input.closed == (old(input.closed) || ClosesStream(closeArg, autoCloseStreams, globals.autoCloseStreams))
        && SessionAfter(ResolveKeepOpen(keepArg, keepConnectionOpen), old(server.connected), old(server.connects))
      ensures input != null && old(CannotConnect()) ==>
        r == Fail(ConnectionFailed) && server.Contents() == old(server.Contents()) && disk.files == old(disk.files)
        && CannotConnect()
      ensures input != null && !old(CannotConnect()) ==>
        StreamUploaded(r, old(server.dirs), old(server.files), old(disk.files), disk.dirs,
                       old(input.content), old(input.closed),
                       remotePath, preProcess, tempPath, server.dirs, server.files, disk.files)
    {
      var keep := ResolveKeepOpen(keepArg, keepConnectionOpen);
      var close := ClosesStream(closeArg, autoCloseStreams, globals.autoCloseStreams);
      if input == null {
        r, tempPath := Fail(ArgumentNull("input")), "";
        Release(keep, old(server.connected), old(server.connects));
      } else {
        r, tempPath := UploadGiven(input, remotePath, preProcess, close, keep);
      }
    }

    /** The session after an operation that may never have connected: dropped
        unless kept (or the drop itself failed), and still up when kept and it
        was up before. */
    ghost predicate KeptOrDropped(keep: bool, wasConnected: bool)
      reads server
    {
      && (!keep && !server.disconnectFails ==> !server.connected)
      && (keep && wasConnected ==> server.connected)
    }

    /** The argument checks of `UploadInternal(localPath, remotePath, ...)`,
        made before any remote access: both paths must be given (a null path is
        modelled as ""), and the local path must be a directory or a file. */
    function UploadPrecheck(localPath: string, remotePath: string): (r: Outcome)
      reads disk
      ensures r.Pass? <==> localPath != "" && remotePath != "" && (IsLocalDir(disk.dirs, localPath) || localPath in disk.files)
    {
      if localPath == "" then Fail(ArgumentNull("localPath"))
      else if remotePath == "" then Fail(ArgumentNull("remotePath"))
      else if disk.DirExists(Some(localPath)) || disk.FileExists(localPath) then Pass
      else Fail(LocalFileMissing(localPath))
    }

    /** `UploadInternal(localPath, remotePath, preProcess, keepConnectionOpen)`:
        after the argument checks (outside any `try`, so their failure leaves
        the session alone), a local directory is uploaded entry by entry below
        its mirrored prefix and the session is then dropped unless kept; a
        local file is opened and sent through the stream upload, to the remote
        path with the file name appended when it ends in '/'. Remote files
        change only where the upload is rooted, remote directories are only
        added, and without a transform the local disk is untouched and a
        success leaves the local tree on the server. */
    method UploadFromPath(localPath: string, remotePath: string, preProcess: Option<Transform>, keepArg: NullableBool)
      returns (r: Outcome, ghost tempPath: string)
      requires Valid()
      modifies this`sessionCreated, server, disk
      decreases disk.bound - |Key(localPath)|, 3
      ensures Valid() && disk.dirs == old(disk.dirs) && disk.bound == old(disk.bound)
      ensures old(UploadPrecheck(localPath, remotePath)).Fail? ==>
        && r == old(UploadPrecheck(localPath, remotePath))
        && server.Contents() == old(server.Contents()) && disk.files == old(disk.files)
        && server.connected == old(server.connected) && server.connects == old(server.connects)
      ensures old(UploadPrecheck(localPath, remotePath)).Pass? ==>
        KeptOrDropped(ResolveKeepOpen(keepArg, keepConnectionOpen), old(server.connected))
      ensures old(UploadPrecheck(localPath, remotePath)).Pass? && !old(disk.DirExists(Some(localPath))) ==>
        && (old(CannotConnect()) ==>
              r == Fail(ConnectionFailed) && server.Contents() == old(server.Contents()) && disk.files == old(disk.files))
        && (!old(CannotConnect()) ==>
              StreamUploaded(r, old(server.dirs), old(server.files), old(disk.files), disk.dirs, old(disk.files)[localPath], false,
                             UploadTarget(localPath, remotePath), preProcess, tempPath, server.dirs, server.files, disk.files))
      ensures old(server.dirs).Keys <= server.dirs.Keys
      ensures preProcess.None? ==> disk.files == old(disk.files)
      ensures OnlyDeleted(old(disk.files), disk.files)
      ensures old(CannotConnect()) ==> CannotConnect() && server.Contents() == old(server.Contents()) && disk.files == old(disk.files)
      ensures Tidy(disk.dirs, localPath, remotePath) ==>
        SameOutside(old(server.files), server.files, UploadRoot(disk.dirs, localPath, remotePath))
      ensures r.Pass? && preProcess.None? && Tidy(disk.dirs, localPath, remotePath) ==>
        TreeUploaded(disk.dirs, disk.files, disk.bound, server.files, localPath, remotePath)
    {
      var keep := ResolveKeepOpen(keepArg, keepConnectionOpen);
      tempPath := "";
      r := UploadPrecheck(localPath, remotePath);
      if r.Fail? {
        return;
      }
      if disk.DirExists(Some(localPath)) {
        r := UploadLocalDirectory(localPath, remotePath, preProcess, keep);
      } else {
        r, tempPath := UploadLocalFile(localPath, remotePath, preProcess, keep);
      }
    }

    /** The directory branch of `UploadInternal(localPath, ...)` with its
        `finally`: the session is dropped unless kept. */
    method UploadLocalDirectory(localPath: string, remotePath: string, preProcess: Option<Transform>, keep: bool)
      returns (r: Outcome)
      requires Valid() && IsLocalDir(disk.dirs, localPath)
      modifies this`sessionCreated, server, disk
      decreases disk.bound - |Key(localPath)|, 2
      ensures Valid() && disk.dirs == old(disk.dirs) && disk.bound == old(disk.bound)
      ensures KeptOrDropped(keep, old(server.connected))
      ensures old(server.dirs).Keys <= server.dirs.Keys
      ensures preProcess.None? ==> disk.files == old(disk.files)
      ensures OnlyDeleted(old(disk.files), disk.files)
      ensures old(CannotConnect()) ==> CannotConnect() && server.Contents() == old(server.Contents()) && disk.files == old(disk.files)
      ensures Tidy(disk.dirs, localPath, remotePath) ==>
        SameOutside(old(server.files), server.files, MirrorDirectory(remotePath, localPath))
      ensures r.Pass? && preProcess.None? && Tidy(disk.dirs, localPath, remotePath) ==>
        TreeUploaded(disk.dirs, disk.files, disk.bound, server.files, localPath, remotePath)
    {
      r := UploadDirectory(localPath, remotePath, preProcess);
      Release(keep, old(server.connected), old(server.connects));
    }

    /** The file branch of `UploadInternal(localPath, ...)`:
        `using (var file = File.OpenRead(localPath)) UploadInternal(file, target, preProcess, keep)`. */
    method UploadLocalFile(localPath: string, remotePath: string, preProcess: Option<Transform>, keep: bool)
      returns (r: Outcome, ghost tempPath: string)
      requires Valid() && localPath in disk.files
      modifies this`sessionCreated, server, disk
      ensures Valid() && disk.dirs == old(disk.dirs) && disk.bound == old(disk.bound)
      ensures SessionAfter(keep, old(server.connected), old(server.connects))
      ensures old(CannotConnect()) ==>
        r == Fail(ConnectionFailed) && server.Contents() == old(server.Contents()) && disk.files == old(disk.files)
        && CannotConnect()
      ensures !old(CannotConnect()) ==>
        StreamUploaded(r, old(server.dirs), old(server.files), old(disk.files), disk.dirs, old(disk.files)[localPath], false,
                       UploadTarget(localPath, remotePath), preProcess, tempPath, server.dirs, server.files, disk.files)
      ensures old(server.dirs).Keys <= server.dirs.Keys
      ensures preProcess.None? ==> disk.files == old(disk.files)
      ensures OnlyDeleted(old(disk.files), disk.files)
      ensures SameOutside(old(server.files), server.files, UploadTarget(localPath, remotePath))
      ensures r.Pass? && preProcess.None? ==>
        UploadTarget(localPath, remotePath) in server.files
        && server.files[UploadTarget(localPath, remotePath)] == disk.files[localPath]
    {
      var target := remotePath;
      if EndsWith(remotePath, '/') {
        target := remotePath + GetFileName(localPath);
      }
      var file := new Stream(disk.files[localPath]);
      r, tempPath := UploadFromStream(file, target, preProcess, Value(keep), Null);
      file.Close();
      if !old(CannotConnect()) {
        var ancestors := AncestorFolders(target);
        AddFoldersKeys(old(server.dirs), Missing(old(server.Taken()), ancestors[..Reached(old(server.Taken()), old(server.files), ancestors)]));
        if r.Pass? {
          SameOutsideUpdate(old(server.files), target, StagedBytes(preProcess, tempPath, old(disk.files)[localPath]), target);
        }
      }
    }

    /** The directory branch of `UploadInternal(localPath, ...)`: both paths get
        a '/' when they lack one, and every file of the directory and then
        every subdirectory (with a '/' appended) is uploaded, keeping the
        session open, to the mirrored prefix followed by its file name, which
        is "" for a subdirectory. The first failure ends the loop. */
    method UploadDirectory(localPath: string, remotePath: string, preProcess: Option<Transform>)
      returns (r: Outcome)
      requires Valid() && IsLocalDir(disk.dirs, localPath)
      modifies this`sessionCreated, server, disk
      decreases disk.bound - |Key(localPath)|, 1
      ensures Valid() && disk.dirs == old(disk.dirs) && disk.bound == old(disk.bound)
      ensures old(server.connected) ==> server.connected
      ensures old(server.dirs).Keys <= server.dirs.Keys
      ensures preProcess.None? ==> disk.files == old(disk.files)
      ensures OnlyDeleted(old(disk.files), disk.files)
      ensures old(CannotConnect()) ==> CannotConnect() && server.Contents() == old(server.Contents()) && disk.files == old(disk.files)
      ensures Tidy(disk.dirs, localPath, remotePath) ==>
        SameOutside(old(server.files), server.files, MirrorDirectory(remotePath, localPath))
      ensures r.Pass? && preProcess.None? && Tidy(disk.dirs, localPath, remotePath) ==>
        TreeUploaded(disk.dirs, disk.files, disk.bound, server.files, localPath, remotePath)
    {
      var lp := LocalDirPrefix(localPath);
      var rp := RemoteDirPrefix(remotePath);
      assert Key(lp) == Key(localPath) by { KeyAppendSlash(localPath); }
      var entries := Entries(lp, disk.dirs[Key(lp)]);
      var m := ReplaceDoubleSlash(rp + "/" + DirectoryName(lp) + "/");
      ghost var tidy := Tidy(disk.dirs, localPath, remotePath);
      r := Pass;
      var i := 0;
      while i < |entries|
        invariant 0 <= i <= |entries|
        invariant Valid() && disk.dirs == old(disk.dirs) && disk.bound == old(disk.bound)
        invariant old(server.connected) ==> server.connected
        invariant old(server.dirs).Keys <= server.dirs.Keys
        invariant preProcess.None? ==> disk.files == old(disk.files)
        invariant OnlyDeleted(old(disk.files), disk.files)
        invariant old(CannotConnect()) ==> CannotConnect() && server.Contents() == old(server.Contents()) && disk.files == old(disk.files)
        invariant tidy ==> SameOutside(old(server.files), server.files, m)
        invariant preProcess.None? && tidy ==>
          ChildrenUploaded(disk.dirs, disk.files, disk.bound, server.files, localPath, remotePath, i)
      {
        r := UploadEntry(localPath, remotePath, preProcess, entries, m, i);
        if r.Fail? {
          return;
        }
        i := i + 1;
      }
      if tidy && preProcess.None? {
        AllChildrenUploaded(disk.dirs, disk.files, disk.bound, server.files, localPath, remotePath);
      }
    }

    /** One turn of the directory loop: entry `i` uploaded below the mirrored
        prefix `m`, the session kept open. It writes only inside the entry's
        slot of `m`, so what the earlier entries left stays. */
    method UploadEntry(localPath: string, remotePath: string, preProcess: Option<Transform>,
                       entries: seq<string>, m: string, i: nat)
      returns (r: Outcome)
      requires Valid() && IsLocalDir(disk.dirs, localPath)
      requires entries == Entries(LocalDirPrefix(localPath), disk.dirs[Key(localPath)])
      requires m == MirrorDirectory(remotePath, localPath) && i < |entries|
      modifies this`sessionCreated, server, disk
      decreases disk.bound - |Key(localPath)|, 0
      ensures Valid() && disk.dirs == old(disk.dirs) && disk.bound == old(disk.bound)
      ensures old(server.connected) ==> server.connected
      ensures old(server.dirs).Keys <= server.dirs.Keys
      ensures preProcess.None? ==> disk.files == old(disk.files)
      ensures OnlyDeleted(old(disk.files), disk.files)
      ensures old(CannotConnect()) ==> CannotConnect() && server.Contents() == old(server.Contents()) && disk.files == old(disk.files)
      ensures Tidy(disk.dirs, localPath, remotePath) ==> SameOutside(old(server.files), server.files, m)
      ensures (&& r.Pass? && preProcess.None? && Tidy(disk.dirs, localPath, remotePath)
               && old(ChildrenUploaded(disk.dirs, disk.files, disk.bound, server.files, localPath, remotePath, i))) ==>
        ChildrenUploaded(disk.dirs, disk.files, disk.bound, server.files, localPath, remotePath, i + 1)
    {
      EntriesLonger(localPath, disk.dirs[Key(localPath)]);
      var entry := entries[i];
      ghost var before := server.files;
      ghost var lfiles := disk.files;
      ghost var tempPath;
      r, tempPath := UploadFromPath(entry, m + GetFileName(entry), preProcess, Value(true));
      if Tidy(disk.dirs, localPath, remotePath) {
        ChildFrame(disk.dirs, lfiles, disk.bound, localPath, remotePath, i, before, server.files);
        if r.Pass? && preProcess.None? && old(ChildrenUploaded(disk.dirs, disk.files, disk.bound, server.files, localPath, remotePath, i)) {
          NextChildUploaded(disk.dirs, disk.files, disk.bound, localPath, remotePath, i, before, server.files);
        }
      }
    }

    /** `Dispose(disposing)`, which the public `Dispose()` calls with true: the
        first call, when disposing and a session object exists, disconnects it
        and then disposes and forgets it; a failing disconnect is swallowed and
        leaves the session object in place. The client is then marked disposed,
        and any later call does nothing. No session is ever created here. */
    method Dispose(disposing: bool)
      requires Valid()
      modifies this`sessionCreated, this`disposedValue, server
      ensures Valid() && disposedValue
      ensures server.Contents() == old(server.Contents()) && server.connects == old(server.connects)
      ensures old(disposedValue) || !disposing ==>
        sessionCreated == old(sessionCreated) && server.connected == old(server.connected)
      ensures !old(disposedValue) && disposing ==>
        && server.connected == (old(server.connected) && server.disconnectFails)
        && sessionCreated == server.connected
    {
      if !disposedValue {
        if disposing && sessionCreated {
          var d := Disconnect();
          if d.Pass? {
            sessionCreated := false;
          }
        }
        disposedValue := true;
      }
    }
  }
}
