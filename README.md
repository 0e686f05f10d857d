# SFtpClient orchestration, modelled in Dafny

This project models the client-side orchestration of `SFtpClient`, the SFTP wrapper in `Com.H.Net.Ssh`. The SSH library underneath is not modelled. The model covers:

- the on-demand connection;
- the keep-open policy applied in every `finally`;
- the close-stream policy;
- the creation of ancestor folders before an upload;
- recursive download and directory upload;
- the staging of content transforms through temporary files;
- disposal.

The .NET 9 build (`Net9/SFtpClient.cs`) is the primary model. Its synchronous algorithm is the same as the .NET Standard 2.0 build's (`NetStandard2.0/SFtpClient.cs`), so one class, `Client.SftpClient`, models both. The legacy client (`Com.H.Net.Ssh/SFtpClient.cs`) is `Legacy.LegacySftpClient`. It runs its operations on the same session machinery. Its keep-open flag is `DisableAutoDisconnect` under another name (`Policy.LegacyPolicyAgrees` shows the two resolutions agree). It has its own stream upload, which closes the input once it is staged, and its own `Dispose`.

Modules, one file each:

- `Common` (common.dfy): errors, `Result`/`Outcome`, the caller's `Stream` (content and a disposed flag), the `FileInfo` record and content transforms.
- `Paths` (paths.dfy): the `System.IO.Path` cases the client uses (`GetFileName`, `GetDirectoryName`, `Combine`), `Replace("//", "/")`, and the mirrored prefix of a directory upload.
- `Folders`, `FolderProperties`, `FolderCreation` (folders.dfy):
  - the lazy split `.+?[/|\\]` of a remote path;
  - the backslash rewrite;
  - the cumulative prefixes;
  - the creation loop, as specification functions: `Missing` for the folders made, and `Reached` for how far the loop gets before a folder below a file stops it.
- `Policy` (policy.dfy): the resolution of the nullable keep-open and close-stream flags.
- `Listing` (listing.dfy): the "." / ".." filter that turns a listing into records.
- `Remote` (remote.dfy): an abstract transport. It refuses to create a directory or write a file below a file. It has these parts:
  - a connected flag and a count of connections made;
  - directories with their listings;
  - files;
  - whether connecting and disconnecting fail.
- `Local` (local.dfy): the local file system with its directories, files and fresh temporary names. It also refuses to create anything below a file.
- `Mirroring` (mirror.dfy): when a remote tree is reproduced at a local path.
- `Uploading` (upload.dfy): when a local tree has been uploaded below a remote path, and why uploading one entry keeps the earlier entries uploaded.
- `Client` (client.dfy) and `Legacy` (legacy.dfy): the clients, as classes whose methods change the session, the server and the disk.

Each operation is a method proved against the state it leaves.

- Remote operations:
  - connection failure is the `CannotConnect` case;
  - the keep-open flag gives `SessionAfter`: the session is dropped unless kept, and a failed disconnect is swallowed;
  - the server's contents are unchanged unless the operation writes.
- Recursive operations are proved against the ghost predicates `Mirroring.Mirrored` and `Uploading.TreeUploaded`:
  - by the method's loop invariants, child by child;
  - with framing lemmas showing that a child changes nothing outside its own slot.

Where the library's documentation and its code disagree, the model follows the code:

- `Exists` is documented to answer false for a missing path. `GetFileInfoInternal` never returns null, however, so `ExistsInternal` never returns false: a missing path surfaces as the lookup's error.
- A directory upload is documented to upload the local tree. It creates remote folders only as ancestors of the files it uploads (Net9/SFtpClient.cs:568-578), so an empty local subdirectory never appears on the server. `Uploading.TreeUploaded` speaks of files only.
- `Dispose` is documented to release an active session. The .NET 9 client does release it (`c = null`) when its disconnect succeeds. The legacy client disconnects but keeps the session object.

## Model

| member | source | states |
|---|---|---|
| Policy.KeepOpenResolution | Net9/SFtpClient.cs:193-233 | A null keep-open argument takes the instance setting. The session is dropped exactly when the resolved flag is not true, so a per-call `true` always keeps it. |
| Policy.CloseStreamFallback | Net9/SFtpClient.cs:249 | The effective close flag is the first non-null of the per-call argument, `AutoCloseStreams` and `GlobalAutoCloseStreams`. This equals `(closeStream ?? AutoCloseStreams) ?? Global`. |
| Policy.FirstSetStopsAtValue | Net9/SFtpClient.cs:615 | Once a level of the fallback is set, the levels further out do not matter. |
| Policy.LegacyPolicyAgrees | Com.H.Net.Ssh/SFtpClient.cs:108-121 | The legacy client disconnects when `DisableAutoDisconnect` resolves to false. The newer one disconnects when its keep-open flag resolves to anything but true. On every input the two decide the same. |
| Listing.VisibleInfosMembership | NetStandard2.0/SFtpClient.cs:451-466 | A record is listed exactly when it comes from a listed entry whose name is not "." or "..". |
| Listing.VisibleInfosOrigin | NetStandard2.0/SFtpClient.cs:451-466 | Every returned record comes from some non-dot entry of the listing. |
| Listing.VisibleInfosAppend | Net9/SFtpClient.cs:847-860 | Filtering a listing piece by piece gives the records in the server's order. |
| Listing.NoDotInfos | Net9/SFtpClient.cs:848-850 | No returned record is named "." or "..". |
| Listing.VisibleNamesDistinct | Net9/SFtpClient.cs:847-860 | Entries with distinct names give records with distinct names. |
| Listing.ListingExample | Net9/SFtpClient.cs:847-860 | A listing of ".", "x", ".." and "s" gives the records of "x" and "s", in that order. |
| Folders.ScanSplitter | Net9/SFtpClient.cs:113 | The lazy match stops at the first separator after its first character. Nothing between is a separator or a newline. With no match, no separator follows. |
| Folders.Segments | Net9/SFtpClient.cs:624-625 | Every match is at least two characters long, ends in '/', '\|' or '\\', and holds no separator or newline between its first and last characters. |
| Folders.Normalize | Net9/SFtpClient.cs:626 | `Replace("\\", "/")`: the length is kept, every backslash becomes '/', and every other character is kept. |
| Folders.SegmentsCoverPath | Net9/SFtpClient.cs:624-626 | For a path without newlines, the matches put together are a prefix of the path. The rest holds no separator except possibly its first character. |
| Folders.NormalizeConcat | Net9/SFtpClient.cs:624-626 | Normalising each segment, then concatenating, equals normalising the concatenation. |
| Folders.CumulativeAt | Net9/SFtpClient.cs:627-631 | After iteration i, `folder_to_create` is the start value followed by the first i+1 folders. |
| FolderProperties.AncestorIsNormalizedPrefix | Net9/SFtpClient.cs:624-635 | Ancestor folder i is the path cut just after a separator, with '\\' turned into '/'. It is at least two characters long, ends in '/' or '\|', and holds no backslash. |
| FolderProperties.AncestorsArePrefixes | Net9/SFtpClient.cs:627-635 | Each ancestor folder is a proper prefix of every later one, so folders are visited from the outermost in. |
| FolderProperties.AncestorsGrow | Net9/SFtpClient.cs:627-635 | Later ancestor folders are strictly longer. |
| FolderProperties.SegmentsAreLazy | Net9/SFtpClient.cs:113 | Between two consecutive ancestor folders the path holds no separator, except right after the earlier one. |
| FolderProperties.FileNameNeverCreated | Net9/SFtpClient.cs:624-635 | After the last ancestor folder the path holds no separator beyond its first character, so the final component is never created as a folder. |
| FolderProperties.SegmentsOfUnixExample | Net9/SFtpClient.cs:624-625 | "/a/b/c.txt" splits into "/a/" and "b/". |
| FolderProperties.SegmentsOfWindowsExample | Net9/SFtpClient.cs:624-625 | "a\\b\\c.txt" splits into "a\\" and "b\\". |
| FolderProperties.AncestorFoldersUnixExample | Net9/SFtpClient.cs:624-635 | An upload to "/a/b/c.txt" visits "/a/", then "/a/b/". |
| FolderProperties.AncestorFoldersWindowsExample | Net9/SFtpClient.cs:624-635 | Backslash separators are accepted and rewritten: "a\\b\\c.txt" visits "a/", then "a/b/". |
| FolderCreation.MissingAppend | Net9/SFtpClient.cs:628-635 | Split anywhere, the loop's second part creates what is missing from what existed plus what the first part made. |
| FolderCreation.MissingWereAbsent | Net9/SFtpClient.cs:631-634 | A folder is created only if its path was not taken before. |
| FolderCreation.MissingInOrder | Net9/SFtpClient.cs:628-635 | The created folders are a subsequence of the ancestor list: they are made in order, each at most once. |
| FolderCreation.MissingCompletes | Net9/SFtpClient.cs:628-635 | Afterwards every listed folder exists, and nothing beyond the list was created. |
| FolderCreation.MissingDistinctKeys | Net9/SFtpClient.cs:628-635 | No path is created twice. |
| FolderCreation.MissingStep | Net9/SFtpClient.cs:631-634 | One more turn of the loop creates the next folder exactly when neither the server nor an earlier turn took its path. |
| FolderCreation.AddFoldersContents | Net9/SFtpClient.cs:633 | Creating folders adds exactly their paths, as empty directories, and leaves every other directory as it was. |
| FolderCreation.AncestorsExistAfterCreation | Net9/SFtpClient.cs:624-635 | After a loop that runs to the end, every ancestor folder of the target is taken: a directory, or a file that `Exists` reports, below which the later write fails. Existing directories are untouched. Each new directory is an ancestor, created empty. |
| FolderCreation.CreationExample | Net9/SFtpClient.cs:624-635 | On an empty server, "/a/b/c.txt" creates "/a/" and then "/a/b/". When "/a" exists, only "/a/b/" is created. |
| FolderCreation.ReachedAppend | Net9/SFtpClient.cs:628-635 | Split anywhere, the loop gets through the second part only if it got through the first, and then from what existed plus what the first part made. |
| FolderCreation.ReachedStep | Net9/SFtpClient.cs:631-634 | One more turn gets through exactly when its folder was already taken or does not lie below a file. |
| FolderCreation.ReachedStops | Net9/SFtpClient.cs:633 | Once a turn throws, the loop ends there: later folders are never attempted. |
| FolderCreation.ReachedPrefix | Net9/SFtpClient.cs:628-635 | Every turn before the stopping point gets through on the prefix of the list. |
| FolderCreation.ReachedAtLeast | Net9/SFtpClient.cs:628-635 | A prefix the loop gets through entirely is not beyond where it stops on the whole list. |
| FolderCreation.ReachedPasses | Net9/SFtpClient.cs:631-634 | Every turn before the stopping point passes. |
| FolderCreation.ReachedBlocked | Net9/SFtpClient.cs:633 | When the loop stops early, the turn it stops at fails: its folder is untaken and lies below a file. |
| FolderCreation.BlockedCreationExample | Net9/SFtpClient.cs:633 | With a file "/a", an upload to "/a/b/c.txt" gets through "/a/" (taken) and stops at "/a/b/". |
| Paths.GetFileName | Net9/SFtpClient.cs:596 | The file name is the part of the path after its last '/': a suffix with no '/', preceded by '/' unless it is the whole path. |
| Paths.FileNameOfChild | Net9/SFtpClient.cs:576 | The file name of a directory prefix followed by a plain name is that name. |
| Paths.DirectoryNameOfChild | Net9/SFtpClient.cs:570 | `GetFileName(GetDirectoryName(p))` of a directory path ending in "name/" is `name`. |
| Paths.CombineChild | Net9/SFtpClient.cs:213-214 | `Path.Combine(dir, name)` puts the name after one separator, and the key grows. |
| Paths.BeneathChild | Net9/SFtpClient.cs:212-214 | What lies inside a child of a directory lies inside the directory, and is not the directory itself. |
| Paths.SiblingsApart | Net9/SFtpClient.cs:212-214 | Two children of one directory with different names do not lie inside one another. |
| Paths.SiblingSubtreesApart | Net9/SFtpClient.cs:212-214 | No path lies inside two children of one directory with different names. |
| Paths.SameOutsideUpdate | Net9/SFtpClient.cs:218-222 | Writing or deleting a file changes nothing outside any directory that holds it. |
| Paths.SameOutsideOfChild | Net9/SFtpClient.cs:212-214 | A change confined to a child of a directory is confined to the directory. |
| Paths.BelowFileIgnoresSelf | Net9/SFtpClient.cs:218-222 | Whether a path lies below a file does not depend on a file at that very path, so writing or deleting it does not change the answer. |
| Paths.ReplaceKeepsPlainText | Net9/SFtpClient.cs:571 | `Replace("//", "/")` leaves a string without "//" unchanged. |
| Paths.ReplaceAfterPlainText | Net9/SFtpClient.cs:571 | A prefix with no "//" that does not end in '/' passes through `Replace("//", "/")` unchanged. |
| Paths.MirrorSlashInsensitive | Net9/SFtpClient.cs:565-571 | The mirrored prefix is the same whether or not the paths already end with the '/' the upload appends. |
| Paths.MirrorOfChildDirectory | Net9/SFtpClient.cs:570-571 | The prefix a subdirectory entry mirrors to is the remote prefix followed by "/name/", with doubled slashes replaced. |
| Paths.ReplaceAfterSlashPrefix | Net9/SFtpClient.cs:571 | Under a tidy prefix ending in '/', `(prefix + "/" + name + "/").Replace("//", "/")` is `prefix + name + "/"`. |
| Paths.MirrorAppendsName | Net9/SFtpClient.cs:566-577 | Mirroring a directory named `name` under a tidy prefix appends exactly "name/", and the result is tidy again, so nesting is reproduced. |
| Mirroring.MirroredStable | Net9/SFtpClient.cs:212-214 | A reproduced tree stays reproduced while local files change only apart from it and directories are only added. |
| Mirroring.ChildShape | Net9/SFtpClient.cs:212-214 | A listed child has a plain name and a longer path than its directory, so the recursion terminates. |
| Mirroring.NextChildMirrored | Net9/SFtpClient.cs:212-214 | Downloading child n, which changes files only inside its own local path, keeps the children before it reproduced. |
| Mirroring.MirroredExample | Net9/SFtpClient.cs:202-222 | A directory "/d" listing ".", a file "x" and an empty directory "s" is reproduced at "out" by "out/x" and the directory "out/s". |
| Uploading.Entries | Net9/SFtpClient.cs:568-569 | The entries are the files, then the subdirectories with '/' appended, each under the directory prefix. Nothing is dropped. |
| Uploading.EntryShape | Net9/SFtpClient.cs:568-576 | Each entry is the directory prefix plus a plain name, plus '/' for a subdirectory. `Path.GetFileName` gives the name for a file and "" for a subdirectory. |
| Uploading.ChildLayout | Net9/SFtpClient.cs:570-577 | Child i of a tidy directory upload writes inside the slot `prefix + name` and is tidy itself. The exception is a subdirectory entry that is not a directory: its target is the prefix itself. |
| Uploading.TreeUploadedStable | Net9/SFtpClient.cs:574-578 | An uploaded tree stays uploaded while remote files change only apart from where it was written. |
| Uploading.EarlierChildKept | Net9/SFtpClient.cs:574-578 | An entry uploaded before entry n stays uploaded when only entry n's slot changes. |
| Uploading.NextChildUploaded | Net9/SFtpClient.cs:574-578 | Uploading entry n, which changes files only inside its slot, keeps the earlier entries uploaded: names in a listing differ. |
| Uploading.ChildFrame | Net9/SFtpClient.cs:575-577 | What uploading entry i may change lies in its slot, and so inside the mirrored prefix. |
| Uploading.AllChildrenUploaded | Net9/SFtpClient.cs:574-578 | A directory whose entries are all uploaded is uploaded. |
| Local.LocalFs.NewTempPath | Net9/SFtpClient.cs:638 | `Path.Combine(Path.GetTempPath(), Guid + ".tmp")` gives a writable path in the temporary folder, ending in ".tmp", that no file or directory has. |
| Local.TempNameFree | Net9/SFtpClient.cs:638 | A name in the temporary folder longer than every path in use is free and writable, because the temporary folder is a directory. |
| Local.TempBelowOnlyTempFolder | Net9/SFtpClient.cs:638 | A name in the temporary folder lies below a file only if the temporary folder itself is a file. |
| Client.SftpClient.AutoConnect | Net9/SFtpClient.cs:82-87 | When connected, the result is false and nothing changes. Otherwise it connects, returns true and counts one connection, or fails with nothing changed. |
| Client.SftpClient.Disconnect | Net9/SFtpClient.cs:99-104 | When not connected, nothing happens. Otherwise the session is closed, unless closing fails. |
| Client.SftpClient.Release | Net9/SFtpClient.cs:225-233 | The `finally`: the session is dropped unless kept, and a failed disconnect leaves it up without an error. Server contents and the connection count are unchanged. |
| Client.SftpClient.ExistInternal | Net9/SFtpClient.cs:133-152 | The result is whether the path exists, or the connection error. The session ends as the keep-open flag says. |
| Client.SftpClient.GetFileInfoInternal | Net9/SFtpClient.cs:877-905 | It succeeds exactly when the path exists, with the record of the path's entry. A missing path is an error, never null. |
| Client.SftpClient.ExistsInternal | Net9/SFtpClient.cs:1005-1009 | It never returns false: true when the path exists, the lookup's error otherwise. |
| Client.SftpClient.DeleteInternal | Net9/SFtpClient.cs:497-514 | It succeeds exactly when the path is a file or a directory listing only "." and "..". Success removes exactly that path from the files and the directories, and keeps every other entry. Failure changes nothing. |
| Client.SftpClient.ListFilesInternal | Net9/SFtpClient.cs:840-874 | A blank path lists "". The result is the directory's non-dot entries as records, in order, or not-found or the connection error. |
| Client.SftpClient.VisibleRecords | Net9/SFtpClient.cs:847-860 | The `foreach` adds one record per non-dot entry, in order: the filtered listing. |
| Client.SftpClient.DownloadToStream | Net9/SFtpClient.cs:243-271 | The file's bytes are appended to the caller's stream. It passes exactly when the file exists, connecting succeeds and the stream is open. The stream is disposed exactly when the close flag resolves to true, whatever the outcome. |
| Client.SftpClient.DownloadTry | Net9/SFtpClient.cs:251-255 | Connect on demand, then append the file's bytes to the stream, which stays open. |
| Client.SftpClient.DownloadIntoFile | Net9/SFtpClient.cs:218-222 | The local file is created or emptied, then filled with the remote bytes when the download passes. An unwritable path fails before any remote access. |
| Client.SftpClient.DeleteStaged | Net9/SFtpClient.cs:306-320 | The `finally` deletes the current path and the backup of the temporary path. |
| Client.SftpClient.DownloadAsString | Net9/SFtpClient.cs:284-322 | It succeeds exactly when the file exists, connecting succeeds and, with a transform, the transform returns a path that can be written. The bytes read back are those of the temporary file, or of the file the transform wrote. A transform that throws or returns null fails the call. The temporary file never survives, and the transform's file is deleted. |
| Client.SftpClient.DownloadPrecheck | Net9/SFtpClient.cs:195-198 | A blank remote or local path fails, in that order, before any remote access. So does a parent directory that cannot be created: null, empty, taken by a file or below a file. |
| Client.SftpClient.PrepareParent | Net9/SFtpClient.cs:195-198 | The checks run, and the local parent directory is created when missing. |
| Client.SftpClient.DownloadAndRelease | Net9/SFtpClient.cs:200-233 | After the checks: the download, then the keep-open `finally`. Local files change only inside `localPath`, and on success the remote file or tree is reproduced there. |
| Client.SftpClient.DownloadToPath | Net9/SFtpClient.cs:189-234 | A failed check touches nothing. Otherwise the session ends as the keep-open flag says. Local files change only inside `localPath`. On success the remote file or tree is reproduced there. |
| Client.SftpClient.DownloadTree | Net9/SFtpClient.cs:200-222 | Stat with keep-open true, then a directory or a file download. Files outside `localPath` are untouched, and on success the tree is reproduced. |
| Client.SftpClient.DownloadSingleFile | Net9/SFtpClient.cs:218-222 | A local file is replaced by a fresh one holding the remote bytes. It passes exactly when the path is writable (not a directory, not below a file), and changes nothing outside `localPath`. |
| Client.SftpClient.PrepareDirectory | Net9/SFtpClient.cs:206-210 | A same-named local file is deleted, then the local directory is created if absent. It passes exactly when the directory existed or the path does not lie below a file. |
| Client.SftpClient.DownloadDirectoryEntries | Net9/SFtpClient.cs:212-214 | Each listed child is downloaded in turn to `Combine(localPath, name)` with keep-open true. On success every child is reproduced. |
| Client.SftpClient.CreateIfMissing | Net9/SFtpClient.cs:631-634 | A folder is created exactly when its path is not taken. An untaken path below a file makes `CreateDirectory` fail with nothing changed. |
| Client.SftpClient.CreationTurn | Net9/SFtpClient.cs:630-634 | One turn of the loop either gets through, as `Reached` and `Missing` say for one more folder, or throws exactly where `Reached` says the loop stops. |
| Client.SftpClient.CreateAncestorFolders | Net9/SFtpClient.cs:624-635 | The loop creates exactly the missing folders among the ancestors it reaches, in order, as empty directories. It passes exactly when it reaches them all, and otherwise fails at the first untaken folder below a file. Files are unchanged. |
| Client.SftpClient.SendContent | Net9/SFtpClient.cs:636-647 | With a transform, the input is copied to a fresh temporary file and the transform's file is uploaded. Without one, the input is uploaded. It passes exactly when the input is open, the target is writable and, with a transform, the transform returns a writable path. A transform that throws or returns null fails the call. Both staged files are deleted. |
| Client.SftpClient.UploadConnected | Net9/SFtpClient.cs:623-647 | On a live session the ancestor folders are created, then the content is sent. When a folder cannot be created, nothing is sent. |
| Client.SftpClient.UploadTry | Net9/SFtpClient.cs:620-648 | The `try`: connect on demand, then as above, or fail with nothing changed. |
| Client.SftpClient.UploadGiven | Net9/SFtpClient.cs:620-675 | For a given stream, the `try`, then the close when the flag says so, then the keep-open `finally`. |
| Client.SftpClient.UploadFromStream | Net9/SFtpClient.cs:612-678 | A null input fails without connecting. Otherwise the reachable ancestor folders are created, and the call passes exactly when all of them were and the staged bytes could be written to the target, which then holds them. No staged file survives. The input is disposed exactly when the close flag resolves to true, and the session ends as the keep-open flag says. |
| Client.SftpClient.UploadPrecheck | Net9/SFtpClient.cs:562-595 | It passes exactly when both paths are non-empty and the local path is a directory or an existing file. |
| Client.SftpClient.UploadFromPath | Net9/SFtpClient.cs:556-602 | A failed check touches nothing, and neither does a server that cannot be reached, for a file or a directory. Otherwise the session is kept or dropped by the flag. For a local file, the result, the folders created and the target's content are those of the stream upload of the file's bytes. For a directory, local files are only deleted (the staged files), never added or changed. Under a tidy prefix, remote files change only below the upload's root, and on success without a transform the tree is on the server. |
| Client.SftpClient.UploadLocalDirectory | Net9/SFtpClient.cs:564-594 | A server that cannot be reached leaves the server and the disk unchanged. The outer `finally` applies the keep-open flag, remote directories are only added, and local files are only deleted. Under a tidy prefix, remote files change only below the mirrored prefix, and on success without a transform the tree is uploaded. |
| Client.SftpClient.UploadLocalFile | Net9/SFtpClient.cs:595-600 | A target ending in '/' gets the local file name. The result, the folders created and the target's content are those of the stream upload of the file's bytes. Remote files other than the target are unchanged, and local files are only deleted. |
| Client.SftpClient.UploadDirectory | Net9/SFtpClient.cs:574-578 | Every entry is uploaded in turn with keep-open true. A server that cannot be reached leaves the server and the disk unchanged. Remote directories are only added, and local files are only deleted, so no staged file survives. Under a tidy prefix, remote files change only below the mirrored prefix, and on success without a transform the tree is uploaded. |
| Client.SftpClient.UploadEntry | Net9/SFtpClient.cs:576-577 | Local files are only deleted, and a server that cannot be reached leaves the server, the disk and the failed connection as they were. Under a tidy prefix, remote files change only in the entry's slot, and on success without a transform uploading one entry keeps the entries before it uploaded and adds it. |
| Client.SftpClient.Dispose | Net9/SFtpClient.cs:1033-1054 | The first `Dispose(true)` disconnects and drops the session object when the disconnect succeeds. It never connects, so with no session nothing happens. Later calls change nothing, so a double dispose is harmless. |
| Legacy.LegacySftpClient.Disconnect | Com.H.Net.Ssh/SFtpClient.cs:72-77 | When not connected, nothing happens. Otherwise the session is closed, unless closing fails, which is the error. The connection count never changes. |
| Legacy.LegacySftpClient.ExistInternal | Com.H.Net.Ssh/SFtpClient.cs:106-125 | Whether the path exists. The session is dropped exactly when `DisableAutoDisconnect` resolves to false. |
| Legacy.LegacySftpClient.GetFileInfoInternal | Com.H.Net.Ssh/SFtpClient.cs:438-466 | It succeeds exactly when connecting works and the path exists, with the record built from the path's entry: its name, full path and kind. Otherwise the error is not-found or the connection error. |
| Legacy.LegacySftpClient.ExistsInternal | Com.H.Net.Ssh/SFtpClient.cs:473-477 | It never returns false: a missing path is the lookup's error. |
| Legacy.LegacySftpClient.DeleteInternal | Com.H.Net.Ssh/SFtpClient.cs:258-275 | It succeeds exactly when the path is deletable. Success removes exactly that path from the files and the directories and keeps every other entry. |
| Legacy.LegacySftpClient.ListFilesInternal | Com.H.Net.Ssh/SFtpClient.cs:401-435 | A blank path lists "". The result is the non-dot entries in order, or not-found or the connection error. |
| Legacy.LegacySftpClient.DownloadToStream | Com.H.Net.Ssh/SFtpClient.cs:181-201 | The remote bytes are appended to the caller's stream, which is never disposed. |
| Legacy.LegacySftpClient.DownloadAsString | Com.H.Net.Ssh/SFtpClient.cs:214-252 | As in the newer client: it succeeds exactly when the file exists, connecting succeeds and, with a transform, the transform returns a writable path. The staged bytes are read back and no staged file survives. |
| Legacy.LegacySftpClient.DownloadToPath | Com.H.Net.Ssh/SFtpClient.cs:132-179 | A failed check touches nothing. Local files change only inside `localPath` and local directories are only added. On success the remote file or tree is reproduced at `localPath`: a downloaded file holds the remote bytes once its stream is closed. Inner calls keep the session, and only the outer call applies `DisableAutoDisconnect`. |
| Legacy.LegacySftpClient.UploadFromPath | Com.H.Net.Ssh/SFtpClient.cs:289-335 | As in the newer client: a failed check or a failed connection changes neither the server nor the disk; local files are only deleted; a local file gets the stream upload's result, folders and content; a directory under a tidy prefix is uploaded on success without a transform, with children uploaded while the session is kept. The outer call disconnects only when its flag resolves to false. |
| Legacy.LegacySftpClient.UploadGiven | Com.H.Net.Ssh/SFtpClient.cs:344-396 | The input is closed exactly when it was staged: a transform is given, connecting succeeded and every ancestor folder could be created. A failed connection changes neither the server nor the disk. Then the `finally` applies the flag. |
| Legacy.LegacySftpClient.UploadFromStream | Com.H.Net.Ssh/SFtpClient.cs:339-396 | A null input fails without connecting, and a failed connection changes neither the server nor the disk. Otherwise the reachable folders are created and the staged bytes uploaded, as in the newer client. The input is closed only by staging, never without a transform, and no staged file survives. |
| Legacy.LegacySftpClient.Dispose | Com.H.Net.Ssh/SFtpClient.cs:484-503 | With no session object, `Dispose(true)` returns before marking the client disposed. Otherwise it disconnects, swallowing errors, keeps the session object, and marks the client disposed. Once disposed, calls do nothing. |

## Left out

- The SSH library (`Renci.SshNet`): handshake, authentication and the `Client` getter's choice between password and key file (Net9/SFtpClient.cs:44-81). They are replaced by the abstract `Remote.Transport`, whose connect and disconnect succeed or fail by its settings.
- The async and `CancellationToken` family: it repeats the synchronous algorithms, and cancellation is a concurrency concern.
- Text decoding: `ReadAllText` with an `Encoding` is not modelled, and `DownloadAsString` returns the bytes read back.
- `LastModified` and the fields of `SFtpFileInfo` the client never fills: they are not in the model's `FileInfo`, or keep their defaults.
- The random `Guid` temporary name: it is modelled as a name in the temporary folder that no path in use has.
- Stream positions: a stream is its content plus a disposed flag. `CopyTo` and `DownloadFile` read or append the whole content.
- Listings are snapshots that writes do not update. A file uploaded or a folder created does not appear in its parent's listing.
- Listed remote entries are assumed to have plain, distinct names and longer paths than their directory. Local listings are assumed the same way.
- Path canonicalisation: both file systems look paths up by `Key`, the path without trailing '/'. Other normalisation (".", "..", case) is not modelled.
- `System.IO.Path` is modelled for a Unix host (separator '/') and only in the cases the client uses.
- A remote write is all or nothing: partial uploads and downloads after an I/O error are not modelled.
- In the stream upload, the model runs the staged-file deletions before the close and the disconnect of the `finally`. The source runs them after. Neither step affects the others.
- Legacy.LegacySftpClient.UploadFromStream: the input is closed after the staged upload, not right after the copy. The upload reads the staged file, not the input, so the final state is the same.
- `Dispose(false)` and a finalizer are modelled only as doing nothing to the session. The newer client's `c.Dispose()` is folded into dropping the session object.
- Client.SftpClient.UploadFromPath: the uploaded-tree property is proved only without a transform and when the mirrored prefix is tidy (ends in '/' and has no "//"). With a transform, the file the transform writes decides the content. `Replace("//", "/")` makes one pass, so a remote path with three slashes in a row keeps a "//".
- Legacy.LegacySftpClient.UploadFromPath: weaker in the same way as the newer client's.
- Client.SftpClient.UploadLocalDirectory: the frame on remote files and the uploaded-tree property hold only under a tidy mirrored prefix; the tree property also only without a transform, since the transform's file decides the content.
- Client.SftpClient.UploadDirectory: weaker in the same way as `UploadLocalDirectory`.
- Client.SftpClient.UploadEntry: weaker in the same way as `UploadLocalDirectory`; it keeps earlier entries uploaded only under those conditions.
- Missing parent directories: both file systems refuse a path below a file, as `CreateDirectory`, `UploadFile` and `File.Create` do. They do not refuse a path whose parent is simply absent, which a real server refuses; the model writes the file there.
- The temporary folder is assumed to be a directory (`Local.LocalFs.Valid`).
- A file at an ancestor folder's key counts as taken, so the folder loop skips it and the write below it fails. A server whose `Exists` answers false for a file path with a trailing '/' makes `CreateDirectory` throw instead. Either way the upload fails, with a different error.
- A transform that throws or returns null is modelled as a transform with no result, and fails the call with the staged file still deleted. Side effects of a transform other than the file whose path it returns are not modelled.
- Client.SftpClient.DownloadToPath: the reproduced-tree property says nothing about a failed download, and no contract states when a download of a whole tree succeeds. Its frame (`SameOutside`) holds in every case.
- Legacy.LegacySftpClient.DownloadToPath: weaker in the same way as `Client.SftpClient.DownloadToPath`.
