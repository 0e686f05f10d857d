/** The legacy client of the `Com.H.Net.Ssh` package. It runs the same
    algorithms as the newer client on the same kind of session, with three
    differences: the keep-open flag is named `DisableAutoDisconnect` (the
    session is dropped when it resolves to false), no operation has a
    close-stream flag (the caller's output stream is never disposed, and a
    staged upload always closes its input once copied), and disposal differs. */
module Legacy {
  import opened Common
  import opened Paths
  import opened Policy
  import opened Folders
  import opened FolderCreation
  import opened Listing
  import opened Remote
  import opened Local
  import opened Mirroring
  import opened Uploading
  import opened Client

  class LegacySftpClient {
    /** The session machinery shared with the newer client; its keep-open
        setting holds `DisableAutoDisconnect`. */
    const session: SftpClient
    var disposedValue: bool

    ghost predicate Valid()
      reads this, session, session.server, session.disk
    {
      session.Valid()
    }

    /** The instance setting `DisableAutoDisconnect`. */
    function DisableAutoDisconnect(): bool
      reads this, session
    {
      session.keepConnectionOpen
    }

    /** The per-call flag resolved against the instance setting says to keep the
        session (it is not `false`). */
    predicate Keeps(disableArg: NullableBool)
      reads this, session
    {
      !LegacyDropsSession(disableArg, DisableAutoDisconnect())
    }

    constructor (server: Transport, disk: LocalFs, globals: GlobalSettings)
      requires server.Valid() && disk.Valid() && !server.connected
      ensures Valid() && !DisableAutoDisconnect() && !disposedValue
      ensures session.server == server && session.disk == disk && !session.sessionCreated
    {
      session := new SftpClient(server, disk, globals);
      disposedValue := false;
    }

    /** The session after a call with the flag `disableArg`: dropped when it
        resolved to false (unless the drop failed), kept otherwise. */
    ghost predicate SessionAfter(disableArg: NullableBool, wasConnected: bool, connectsBefore: nat)
      reads this, session, session.server
    {
      session.SessionAfter(Keeps(disableArg), wasConnected, connectsBefore)
    }

    /** `Disconnect()`: nothing to do when not connected. */
    method Disconnect() returns (r: Outcome)
      requires Valid()
      modifies session`sessionCreated, session.server
      ensures Valid()
      ensures session.server.Contents() == old(session.server.Contents())
      ensures session.server.connects == old(session.server.connects)
      ensures !old(session.server.connected) ==> r == Pass && !session.server.connected
      ensures old(session.server.connected) ==>
        r == (if session.server.disconnectFails then Fail(DisconnectFailed) else Pass)
        && session.server.connected == r.Fail?
    {
      r := session.Disconnect();
    }

    /** `ExistInternal(remotePath, disableAutoDisconnect)`. */
    method ExistInternal(remotePath: string, disableArg: NullableBool) returns (r: Result<bool>)
      requires Valid()
      modifies session`sessionCreated, session.server
      ensures Valid()
      ensures session.server.Contents() == old(session.server.Contents())
      ensures r == if old(session.CannotConnect()) then Failure(ConnectionFailed)
                   else Success(old(session.server.PathExists(remotePath)))
      ensures SessionAfter(disableArg, old(session.server.connected), old(session.server.connects))
    {
      r := session.ExistInternal(remotePath, disableArg);
    }

    /** `GetFileInfoInternal(remotePath, disableAutoDisconnect)`: a missing path
        is an error. */
    method GetFileInfoInternal(remotePath: string, disableArg: NullableBool) returns (r: Result<FileInfo>)
      requires Valid()
      modifies session`sessionCreated, session.server
      ensures Valid()
      ensures session.server.Contents() == old(session.server.Contents())
      ensures r.Success? <==> !old(session.CannotConnect()) && old(session.server.PathExists(remotePath))
      ensures r.Success? ==> r.value == ToInfo(old(session.server.Stat(remotePath)).value)
                             && r.value.fullPath == Key(remotePath)
                             && r.value.isDirectory == (Key(remotePath) in old(session.server.dirs))
      ensures r.Failure? ==> r.error == (if old(session.CannotConnect()) then ConnectionFailed else RemoteNotFound(remotePath))
      ensures SessionAfter(disableArg, old(session.server.connected), old(session.server.connects))
    {
      r := session.GetFileInfoInternal(remotePath, disableArg);
    }

    /** `ExistsInternal(remotePath, disableAutoDisconnect)`: true when the record
        is there; a failure of the lookup propagates, so it never answers false. */
    method ExistsInternal(remotePath: string, disableArg: NullableBool) returns (r: Result<bool>)
      requires Valid()
      modifies session`sessionCreated, session.server
      ensures Valid()
      ensures session.server.Contents() == old(session.server.Contents())
      ensures r != Success(false)
      ensures r.Success? <==> !old(session.CannotConnect()) && old(session.server.PathExists(remotePath))
      ensures r.Failure? ==> r.error == (if old(session.CannotConnect()) then ConnectionFailed else RemoteNotFound(remotePath))
      ensures SessionAfter(disableArg, old(session.server.connected), old(session.server.connects))
    {
      r := session.ExistsInternal(remotePath, disableArg);
    }

    /** `DeleteInternal(remotePath, disableAutoDisconnect)`. */
    method DeleteInternal(remotePath: string, disableArg: NullableBool) returns (r: Outcome)
      requires Valid()
      modifies session`sessionCreated, session.server
      ensures Valid()
      ensures r.Pass? <==> !old(session.CannotConnect()) && old(session.server.Deletable(remotePath))
      ensures r.Pass? ==> session.server.Taken() == old(session.server.Taken()) - {Key(remotePath)}
      ensures r.Pass? ==> session.server.files == old(session.server.files) - {Key(remotePath)}
                          && session.server.dirs == old(session.server.dirs) - {Key(remotePath)}
      ensures r.Fail? ==> session.server.Contents() == old(session.server.Contents())
      ensures SessionAfter(disableArg, old(session.server.connected), old(session.server.connects))
    {
      r := session.DeleteInternal(remotePath, disableArg);
    }

    /** `ListFilesInternal(remotePath, disableAutoDisconnect)`: the listing
        without "." and "..", a blank path read as "". */
    method ListFilesInternal(remotePath: string, disableArg: NullableBool) returns (r: Result<seq<FileInfo>>)
      requires Valid()
      modifies session`sessionCreated, session.server
      ensures Valid()
      ensures session.server.Contents() == old(session.server.Contents())
      ensures var path := if IsBlank(remotePath) then "" else remotePath;
        && (old(session.CannotConnect()) ==> r == Failure(ConnectionFailed))
        && (!old(session.CannotConnect()) ==>
              r == if Key(path) in old(session.server.dirs) then Success(VisibleInfos(old(session.server.dirs)[Key(path)]))
                   else Failure(RemoteNotFound(path)))
      ensures SessionAfter(disableArg, old(session.server.connected), old(session.server.connects))
    {
      r := session.ListFilesInternal(remotePath, disableArg);
    }

    /** `DownloadInternal(remotePath, output, disableAutoDisconnect)`: the remote
        bytes are appended to the caller's stream, which is never disposed. */
    method DownloadToStream(remotePath: string, output: Stream, disableArg: NullableBool) returns (r: Outcome)
      requires Valid()
      modifies session`sessionCreated, session.server, output
      ensures Valid()
      ensures session.server.Contents() == old(session.server.Contents())
      ensures r.Pass? <==> !old(session.CannotConnect()) && Key(remotePath) in old(session.server.files) && !old(output.closed)
      ensures output.content ==
        if r.Pass? then old(output.content) + old(session.server.files)[Key(remotePath)] else old(output.content)
      ensures output.closed == old(output.closed)
      ensures SessionAfter(disableArg, old(session.server.connected), old(session.server.connects))
    {
      r := session.DownloadToStream(remotePath, output, disableArg, Value(false));
    }

    /** `DownloadAsStringInternal(remotePath, encoding, postProcess, disableAutoDisconnect)`:
        the remote bytes, read back from the temporary file or from the file the
        transform made of it; no staged file is left behind. */
    method DownloadAsString(remotePath: string, postProcess: Option<Transform>, disableArg: NullableBool)
      returns (r: Result<seq<byte>>, ghost tempPath: string)
      requires Valid()
      modifies session`sessionCreated, session.server, session.disk
      ensures Valid()
      ensures session.server.Contents() == old(session.server.Contents())
      ensures SessionAfter(disableArg, old(session.server.connected), old(session.server.connects))
      ensures tempPath !in old(session.disk.files) && Key(tempPath) !in old(session.disk.dirs) && tempPath !in session.disk.files
      ensures var fetched := !old(session.CannotConnect()) && Key(remotePath) in old(session.server.files);
        && (r.Success? <==> fetched && (postProcess.Some? ==>
              TransformWrites(postProcess.value, tempPath, old(session.server.files)[Key(remotePath)],
                              session.disk.dirs, old(session.disk.files))))
        && (r.Success? ==> r.value == StagedBytes(postProcess, tempPath, old(session.server.files)[Key(remotePath)]))
        && session.disk.files == if r.Success? && postProcess.Some?
                                 then old(session.disk.files) - {TransformPath(postProcess.value, tempPath, old(session.server.files)[Key(remotePath)])}
                                 else old(session.disk.files)
      ensures session.disk.dirs == old(session.disk.dirs)
    {
      r, tempPath := session.DownloadAsString(remotePath, postProcess, disableArg);
    }

    /** `DownloadInternal(remotePath, localPath, disableAutoDisconnect)`: the
        remote file or tree is reproduced at `localPath`, every inner call
        keeping the session. */
    method DownloadToPath(remotePath: string, localPath: string, disableArg: NullableBool) returns (r: Outcome)
      requires Valid()
      modifies session`sessionCreated, session.server, session.disk
      ensures Valid()
      ensures session.server.Contents() == old(session.server.Contents())
      ensures old(session.DownloadPrecheck(remotePath, localPath)).Fail? ==>
        r == old(session.DownloadPrecheck(remotePath, localPath))
        && session.server.connected == old(session.server.connected) && session.server.connects == old(session.server.connects)
        && session.disk.files == old(session.disk.files) && session.disk.dirs == old(session.disk.dirs)
      ensures old(session.DownloadPrecheck(remotePath, localPath)).Pass? ==>
        SessionAfter(disableArg, old(session.server.connected), old(session.server.connects))
      ensures SameOutside(old(session.disk.files), session.disk.files, localPath)
      ensures old(session.disk.dirs).Keys <= session.disk.dirs.Keys
      ensures r.Pass? ==> session.Downloaded(remotePath, localPath)
    {
      r := session.DownloadToPath(remotePath, localPath, disableArg);
    }

    /** `UploadInternal(localPath, remotePath, preProcess, disableAutoDisconnect)`:
        a local file or tree sent below the remote path, every inner call
        keeping the session. */
    method UploadFromPath(localPath: string, remotePath: string, preProcess: Option<Transform>, disableArg: NullableBool)
      returns (r: Outcome, ghost tempPath: string)
      requires Valid()
      modifies session`sessionCreated, session.server, session.disk
      ensures Valid() && session.disk.dirs == old(session.disk.dirs)
      ensures old(session.UploadPrecheck(localPath, remotePath)).Fail? ==>
        r == old(session.UploadPrecheck(localPath, remotePath))
        && session.server.Contents() == old(session.server.Contents()) && session.disk.files == old(session.disk.files)
        && session.server.connected == old(session.server.connected) && session.server.connects == old(session.server.connects)
      ensures old(session.UploadPrecheck(localPath, remotePath)).Pass? ==>
        session.KeptOrDropped(Keeps(disableArg), old(session.server.connected))
      ensures old(session.UploadPrecheck(localPath, remotePath)).Pass? && !old(session.disk.DirExists(Some(localPath))) ==>
        && (old(session.CannotConnect()) ==>
              r == Fail(ConnectionFailed) && session.server.Contents() == old(session.server.Contents())
              && session.disk.files == old(session.disk.files))
        && (!old(session.CannotConnect()) ==>
              StreamUploaded(r, old(session.server.dirs), old(session.server.files), old(session.disk.files),
                             session.disk.dirs, old(session.disk.files)[localPath], false, UploadTarget(localPath, remotePath),
                             preProcess, tempPath, session.server.dirs, session.server.files, session.disk.files))
      ensures preProcess.None? ==> session.disk.files == old(session.disk.files)
      ensures OnlyDeleted(old(session.disk.files), session.disk.files)
      ensures old(session.CannotConnect()) ==>
        session.CannotConnect() && session.server.Contents() == old(session.server.Contents())
        && session.disk.files == old(session.disk.files)
      ensures Tidy(session.disk.dirs, localPath, remotePath) ==>
        SameOutside(old(session.server.files), session.server.files,
                    UploadRoot(session.disk.dirs, localPath, remotePath))
      ensures r.Pass? && preProcess.None? && Tidy(session.disk.dirs, localPath, remotePath) ==>
        TreeUploaded(session.disk.dirs, session.disk.files, session.disk.bound, session.server.files, localPath, remotePath)
    {
      r, tempPath := session.UploadFromPath(localPath, remotePath, preProcess, disableArg);
    }

    /** `UploadInternal(input, ...)` for a stream that is there: the `try`,
        where a staged upload closes the input once it is copied, then the
        `finally`, which drops the session unless kept. */
    method UploadGiven(input: Stream, remotePath: string, preProcess: Option<Transform>, keep: bool)
      returns (r: Outcome, ghost tempPath: string)
      requires Valid()
      modifies session`sessionCreated, session.server, session.disk, input
      ensures Valid() && session.disk.dirs == old(session.disk.dirs)
      ensures session.SessionAfter(keep, old(session.server.connected), old(session.server.connects))
      ensures input.content == old(input.content)
      ensures input.closed == (old(input.closed) || (preProcess.Some? && !old(session.CannotConnect())
                                              && CreatesAll(old(session.server.Taken()), old(session.server.files),
                                                            AncestorFolders(remotePath))))
      ensures old(session.CannotConnect()) ==>
        r == Fail(ConnectionFailed) && session.server.Contents() == old(session.server.Contents())
        && session.disk.files == old(session.disk.files)
      ensures !old(session.CannotConnect()) ==>
        StreamUploaded(r, old(session.server.dirs), old(session.server.files), old(session.disk.files),
                       session.disk.dirs, old(input.content), old(input.closed), remotePath, preProcess, tempPath,
                       session.server.dirs, session.server.files, session.disk.files)
    {
      var copied;
      r, tempPath, copied := session.UploadTry(input, remotePath, preProcess);
      ghost var rdirs, rfiles := session.server.dirs, session.server.files;
      if copied {
        input.Close();
      }
      session.Release(keep, old(session.server.connected), old(session.server.connects));
      assert session.server.dirs == rdirs && session.server.files == rfiles;
    }

    /** `UploadInternal(input, remotePath, preProcess, disableAutoDisconnect)`:
        as the newer client's stream upload, except that nothing is disposed in
        the `finally`; instead a staged upload closes the input right after
        copying it into the temporary file. Without a transform the input is
        left open. */
    method UploadFromStream(input: Stream?, remotePath: string, preProcess: Option<Transform>, disableArg: NullableBool)
      returns (r: Outcome, ghost tempPath: string)
      requires Valid()
      modifies session`sessionCreated, session.server, session.disk, input
      ensures Valid() && session.disk.dirs == old(session.disk.dirs)
      ensures input == null ==>
        && r == Fail(ArgumentNull("input"))
        && session.server.Contents() == old(session.server.Contents())
        && session.disk.files == old(session.disk.files)
        && session.server.connects == old(session.server.connects)
        && session.server.connected == (old(session.server.connected) && (Keeps(disableArg) || session.server.disconnectFails))
      ensures input != null ==>
        && SessionAfter(disableArg, old(session.server.connected), old(session.server.connects))
        && input.content == old(input.content)
        && input.closed == (old(input.closed) || (preProcess.Some? && !old(session.CannotConnect())
                                              && CreatesAll(old(session.server.Taken()), old(session.server.files),
                                                            AncestorFolders(remotePath))))
      ensures input != null && old(session.CannotConnect()) ==>
        r == Fail(ConnectionFailed) && session.server.Contents() == old(session.server.Contents())
        && session.disk.files == old(session.disk.files)
      ensures input != null && !old(session.CannotConnect()) ==>
        StreamUploaded(r, old(session.server.dirs), old(session.server.files), old(session.disk.files),
                       session.disk.dirs, old(input.content), old(input.closed), remotePath, preProcess, tempPath,
                       session.server.dirs, session.server.files, session.disk.files)
    {
      var keep := Keeps(disableArg);
      if input == null {
        r, tempPath := Fail(ArgumentNull("input")), "";
        session.Release(keep, old(session.server.connected), old(session.server.connects));
      } else {
        r, tempPath := UploadGiven(input, remotePath, preProcess, keep);
      }
    }

    /** `Dispose(disposing)`: without a session object it returns before marking
        the client disposed, so a later call tries again; with one it
        disconnects (an error is swallowed), keeps the session object, and marks
        the client disposed. Once disposed, a call does nothing. */
    method Dispose(disposing: bool)
      requires Valid()
      modifies this`disposedValue, session`sessionCreated, session.server
      ensures Valid()
      ensures session.server.Contents() == old(session.server.Contents())
      ensures session.sessionCreated == old(session.sessionCreated)
      ensures disposedValue == (old(disposedValue) || !disposing || old(session.sessionCreated))
      ensures old(disposedValue) || !disposing ==> session.server.connected == old(session.server.connected)
      ensures !old(disposedValue) && disposing ==>
        session.server.connected == (old(session.server.connected) && session.server.disconnectFails)
    {
      if !disposedValue {
        if disposing {
          if !session.sessionCreated {
            return;
          }
          var _ := session.Disconnect();
        }
        disposedValue := true;
      }
    }
  }
}
