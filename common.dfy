/** Values shared by every part of the model: optional values, the errors an
    operation can end with, streams handed in by callers, the file-information
    record returned to callers, and content transforms. */
module Common {

  type byte = x: int | 0 <= x < 256

  datatype Option<+T> = None | Some(value: T)

  /** What the client or the layers below it can throw. */
  datatype Error =
    | ArgumentNull(parameter: string)   // ArgumentNullException raised by the client
    | EmptyArgument(parameter: string)  // "empty remotePath" / "empty localPath"
    | LocalFileMissing(path: string)    // "Unable to access file '...'"
    | ConnectionFailed                  // the transport could not connect or authenticate
    | AlreadyConnected                  // the transport was asked to connect twice
    | DisconnectFailed                  // the transport failed while disconnecting
    | NotConnected                      // a remote primitive was used without a session
    | RemoteNotFound(path: string)      // no such remote file or directory
    | RemoteFailure(path: string)       // any other refusal of the remote server
    | LocalFailure(path: string)        // a refusal of the local file system
    | StreamDisposed                    // a closed stream was read or written
    | TransformFailed                   // the caller's transform threw, or returned null

  datatype Result<+T> = Success(value: T) | Failure(error: Error)

  datatype Outcome = Pass | Fail(error: Error)

  /** A stream owned by a caller (or by the client, for the files it opens itself).
      Its content is what has been written to it (or what it has to offer to a
      reader); `closed` records whether it has been disposed. */
  class Stream {
    var content: seq<byte>
    var closed: bool

    constructor (content: seq<byte>)
      ensures this.content == content && !closed
    {
      this.content := content;
      closed := false;
    }

    /** Stream.Dispose(): closing twice is harmless. */
    method Close()
      modifies this
      ensures closed && content == old(content)
    {
      closed := true;
    }
  }

  /** An entry as the remote server lists or stats it (name, full name, kind). */
  datatype RemoteEntry = RemoteEntry(name: string, fullName: string, isDirectory: bool)

  /** The client's file-information record. Only the fields the client fills in
      are carried; the others keep their default (null or 0) in every record the
      client builds, and LastModified is not modelled. */
  datatype FileInfo = FileInfo(
    name: string,
    parentFolderPath: Option<string>,
    fullPath: string,
    flags: Option<string>,
    owner: Option<string>,
    group: Option<string>,
    isDirectory: bool,
    size: int)

  /** A caller's preProcess/postProcess function: it receives the path of a
      staged file with that file's content and writes a (possibly different) file,
      whose path it returns. `None` is a transform that throws or returns null;
      either way the client gets no file to open. */
  datatype Transform = Transform(apply: (string, seq<byte>) -> Option<(string, seq<byte>)>)
}
