# media-blob in Dafny

A model of the logic in media-blob, a small media server written for Node/Express,
and of its SwiftUI client. Three pieces are covered:

- **The catalog listing** (`media-blob/mediablob.js`). The `/media-list` handler reads
  the media directory and drops hidden entries. It also drops entries whose
  lower-cased extension is not `mp3`, `mp4` or `mov`. Each remaining file becomes a
  `{name, url, type}` record. The url is built from the host's first external IPv4
  address, port 3000, the `/media/` route and the URI-encoded name. The type comes
  from `getFileType`. The directory listing and the host's network interfaces are
  inputs. Node's `path.extname` and JavaScript's `toLowerCase` and
  `encodeURIComponent` are modelled as the runtime defines them (modules `NodePath`
  and `UriComponent`). `encodeURIComponent` follows section 19.2.6.5 of ECMA-262,
  using UTF-8 for characters outside ASCII. Its partner is `decodeURIComponent`
  (section 19.2.6.3), which the `/media` static route applies to the path.
- **The download manager** (`DownloadManager.swift`). It is a class over a
  `FileSystem` object, which holds the set of paths in the app's documents directory.
  `Download` is the download state machine. Its inputs are three things the manager
  cannot see: whether Foundation parses the url, what the download task delivers
  (an error, no temporary file, or a temporary file), and whether the final move
  succeeds. The completion handler never reads the HTTP `response`, so a server
  that answers 404 or 500 still delivers a temporary file with no error: its error
  body is moved into place and `completion(true)` runs. The model has this through
  `TempFile`, which stands for any reply saved to a temporary file, whatever its
  status. Calls to `completion` are recorded as a sequence of the values passed,
  so the contract can say the callback is called exactly once.
- **The content view's rules** (`ContentView.swift`). These are `iconName`, the
  type-to-viewer switch, the view's own `isDownloaded`, and `openMediaFile`.
  `openMediaFile` is a method of a `ContentView` class. The class holds the
  `previewURL` and three presentation flags, and shares its file system with the
  download manager.

The `MediaFile` record (`MediaFile.swift`) is the datatype `Media.MediaFile(name,
url, fileType)`. Its field `type` is called `fileType` because `type` is a Dafny
keyword.

Three behaviours of the code are easy to miss, and the model keeps them as written:
- The listing keeps only `mp3`, `mp4` and `mov`.
- The server never produces the types `image` or `document`.
- When no external IPv4 address exists, the handler does not fail. It builds urls
  whose host is the text `undefined`, because that is what a JavaScript template
  literal prints for a missing value (`MediaServer.NoAddressGivesUndefinedHost`).

## Model

| member | source | states |
|---|---|---|
| `NodePath.ExtName` | media-blob/mediablob.js:35 | `path.extname` of a file name: empty exactly when the name has no dot, is `..`, or has its only dot first; otherwise a proper suffix that starts with the last dot and holds no other dot |
| `NodePath.LastIndexOf` | media-blob/mediablob.js:35 | the index found holds the character and no later position does; -1 exactly when the character is absent |
| `NodePath.ToLower` | media-blob/mediablob.js:35 | `toLowerCase` keeps the length and lower-cases each character in place |
| `NodePath.ExtNameOfLower` | media-blob/mediablob.js:64 | taking the extension of the lower-cased name gives the lower-cased extension |
| `UriComponent.Encode` | media-blob/mediablob.js:41 | `encodeURIComponent` output contains only unreserved characters and `%` (so no `/`, `?`, `#`); a string of unreserved characters encodes to itself |
| `UriComponent.DecodeEncode` | media-blob/mediablob.js:41 | decoding the encoded name gives back the name, for every string |
| `UriComponent.EncodeInjective` | media-blob/mediablob.js:41 | two different names never get the same encoding |
| `MediaServer.IsListed` | media-blob/mediablob.js:33-37 | the filter keeps a file exactly when it does not start with `.` and its lower-cased extension is `.mp3`, `.mp4` or `.mov` |
| `MediaServer.VisibleFiles` | media-blob/mediablob.js:34-37 | the filtered array holds exactly the directory entries that pass the filter, and no others |
| `MediaServer.VisibleFilesIsSubsequence` | media-blob/mediablob.js:34-37 | the filtered array is an order-preserving subsequence of the directory entries |
| `MediaServer.VisibleFilesKeepsMultiplicity` | media-blob/mediablob.js:34-37 | every entry that passes the filter appears in the result exactly as often as in the directory, and no other entry appears |
| `MediaServer.FileType` | media-blob/mediablob.js:63-68 | `getFileType` is `video` exactly for lower-cased `.mp4`/`.mov`, `audio` exactly for `.mp3`, `other` for everything else |
| `MediaServer.FileTypeIgnoresCase` | media-blob/mediablob.js:64 | names equal up to letter case get the same type and the same filter verdict |
| `MediaServer.ListedIsNeverOther` | media-blob/mediablob.js:63-68 | every file the filter keeps is classified `video` or `audio`, never `other` |
| `MediaServer.UpperCaseExtensionIsListed` | media-blob/mediablob.js:33-37 | `A.MP4` is listed and is a video |
| `MediaServer.TextFileIsDropped` | media-blob/mediablob.js:33-37 | `notes.txt` is dropped and is `other` |
| `MediaServer.DotOnlyNamesHaveNoExtension` | media-blob/mediablob.js:35 | `mp4` and `.mp4` have no extension, so neither is listed |
| `MediaServer.LastExtensionCounts` | media-blob/mediablob.js:64-65 | only the last extension decides the type (`a.mp3.mov` is a video) |
| `MediaServer.FirstExternalAlias` | media-blob/mediablob.js:54-58 | the inner loop finds the first alias of one interface with family `IPv4` that is not internal, or reports that none exists |
| `MediaServer.FirstExternalFrom` | media-blob/mediablob.js:53-59 | the nested loops find the first qualifying alias in interface-then-alias order: nothing qualifies before it, and none means nothing qualifies at all |
| `MediaServer.LocalIPAddress` | media-blob/mediablob.js:51-60 | `getLocalIPAddress` returns the address of the first external IPv4 alias, and returns nothing exactly when there is none |
| `MediaServer.HostText` | media-blob/mediablob.js:41 | the host part of the url is the address found, and the text `undefined` when none was found, as a template literal prints a missing value |
| `MediaServer.MediaUrl` | media-blob/mediablob.js:41 | the url starts with `http://`, then the host text, and as a whole with the fixed prefix `http://<host>:3000/media/`; what follows is at least as long as the file name |
| `MediaServer.Record` | media-blob/mediablob.js:39-43 | the map callback's record keeps the file name as `name`, its `url` starts with the fixed prefix, and its `type` is `other` exactly when the lower-cased extension is not `.mp3`, `.mp4` or `.mov` |
| `MediaServer.MediaUrlAddressesFile` | media-blob/mediablob.js:41 | the url is `http://<host>:3000/media/` followed by one path segment with no `/`; that segment decodes back to exactly the file name |
| `MediaServer.MediaRecords` | media-blob/mediablob.js:39-43 | one record per file, in order, with `name` equal to the file name, the file's url and the file's type |
| `MediaServer.MediaList` | media-blob/mediablob.js:26-47 | a failed read answers exactly 500 with `Unable to scan media directory.` and sends no listing; otherwise 200 with one record per filtered entry, in order |
| `MediaServer.ListedRecordProperties` | media-blob/mediablob.js:33-43 | each listed record names a directory entry that is not hidden, has a supported extension, has type `video` or `audio` (audio exactly for `.mp3`), and has url prefix plus encoded name |
| `MediaServer.NoAddressGivesUndefinedHost` | media-blob/mediablob.js:41 | with no external IPv4 address the listing still succeeds, and every url is `http://undefined:3000/media/` plus the encoded name |
| `Downloads.AppendingPathComponent` | media-blob-swift/mediablob/mediablob/DownloadManager.swift:71-73 | appending a component gives the directory, a separator, then the component as the last part |
| `Downloads.AppendingPathComponentInjective` | media-blob-swift/mediablob/mediablob/DownloadManager.swift:71-73 | within one directory, different names give different paths |
| `Downloads.FileSystem.FileExists` | media-blob-swift/mediablob/mediablob/DownloadManager.swift:21 | `fileExists(atPath:)` is asked of the store's current contents: it holds for a path exactly while that path is stored, so it turns true for a target that `moveItem` placed |
| `Downloads.FileSystem.MoveItem` | media-blob-swift/mediablob/mediablob/DownloadManager.swift:41 | the move succeeds only if it is not refused and the target is absent; a success adds exactly the target, a failure changes nothing |
| `Downloads.DownloadManager.DestinationPath` | media-blob-swift/mediablob/mediablob/DownloadManager.swift:70-74 | `getDestinationURL` is the fixed documents directory, a separator, then the file name, and depends on nothing else |
| `Downloads.DownloadManager.DestinationPathInjective` | media-blob-swift/mediablob/mediablob/DownloadManager.swift:70-74 | different file names never share a destination |
| `Downloads.DownloadManager.IsDownloaded` | media-blob-swift/mediablob/mediablob/DownloadManager.swift:65-68 | `isDownloaded` holds exactly when the record's destination is in the file system |
| `Downloads.DownloadManager.Download` | media-blob-swift/mediablob/mediablob/DownloadManager.swift:11-63 | `completion` is called exactly once on every path. A malformed url fails first, even for a stored file, with no task and no change. A stored file succeeds with no task and no change. Otherwise a task starts: a transport error or missing temp file fails with no change, and the move's outcome is reported, adding the destination only on success. Reported success implies `isDownloaded`. No path other than the destination changes |
| `Downloads.DownloadTwice` | media-blob-swift/mediablob/mediablob/DownloadManager.swift:20-25 | after a download that reported success, a second download succeeds at once and starts no task, whatever the network would do |
| `Client.IconName` | media-blob-swift/mediablob/mediablob/ContentView.swift:146-159 | `video`→`video`, `audio`→`music.note`, `image`→`photo`, `document`→`doc`, and each icon comes only from its own type; everything else →`questionmark` |
| `Client.IconNameIsCaseSensitive` | media-blob-swift/mediablob/mediablob/ContentView.swift:156-157 | `Video`, `AUDIO` and `other` all get `questionmark` |
| `Client.ViewerFor` | media-blob-swift/mediablob/mediablob/ContentView.swift:120-127 | the video player exactly for `video`, the audio player exactly for `audio`, the preview for every other type |
| `Client.ListedRecordsOpenInPlayers` | media-blob-swift/mediablob/mediablob/ContentView.swift:146-159 | every record the server lists gets the `video` or `music.note` icon and opens in the video or audio player, never the preview |
| `Client.ContentView.LocalPath` | media-blob-swift/mediablob/mediablob/ContentView.swift:106-108 | the view's own destination is the documents directory, a `/`, then exactly the record's name, with nothing else in between or after |
| `Client.ContentView.IsDownloaded` | media-blob-swift/mediablob/mediablob/ContentView.swift:105-110 | the view's `isDownloaded` holds exactly when the documents directory plus the record's name is in the file system |
| `Client.ContentView.IsDownloadedAgrees` | media-blob-swift/mediablob/mediablob/ContentView.swift:105-110 | the view's path equals the manager's `getDestinationURL`, so the view and the manager agree on `isDownloaded` |
| `Client.ContentView.OpenMediaFile` | media-blob-swift/mediablob/mediablob/ContentView.swift:112-144 | `download` is called exactly when the file is absent; a present file leaves the file system unchanged. `previewURL` becomes the manager's destination path. The same rule raises the viewer for the type in both branches, and the other flags are unchanged. In the download branch the viewer opens whatever the download reported, and the file system ends as the download left it |
| `Client.OpenFromIdle` | media-blob-swift/mediablob/mediablob/ContentView.swift:120-141 | opening a file when no viewer is up raises exactly one viewer, even when a failed download left the file absent |

## Left out

- `NodePath.ExtName`: models `path.extname` for a bare file name. Directory entries never contain `/`, so the separator handling of `path.extname` is not modelled.
- `NodePath.ToLower`: lower-cases the ASCII letters only. JavaScript's full Unicode case mapping is not modelled, and no non-ASCII letter lower-cases to a letter of `mp3`, `mp4` or `mov`.
- `MediaServer.MediaList`: `getLocalIPAddress` is called once per record. The model reads the interfaces once per listing, assuming they do not change while one response is built.
- Logging (`console.log`, `console.error`, morgan), CORS, Express static serving and `app.listen` are server plumbing with no effect on the listing.
- The real `fs.readdir` and `os.networkInterfaces()` are inputs (`DirectoryRead`, a sequence of interface alias lists), so their I/O is not modelled.
- `Downloads.DownloadManager.Download`: whether Foundation's `URL(string:)` accepts the url is an input. Foundation's url parser is outside the visible code.
- `Downloads.DownloadManager.Download`: download progress is not modelled. This covers the `downloadProgress` field, the observation of `fractionCompleted` and `progressHandler`, which are floating-point fractions delivered asynchronously.
- The temporary file is not modelled: the file system covers the documents directory only.
- `Downloads.AppendingPathComponent`: Foundation's path normalisation is not modelled. This covers trailing separators, empty components and names that contain `/`.
- All `DispatchQueue` hops are run in place. Each completion handler is one synchronous step, so interleavings between concurrent downloads are not modelled.
- `batchDownload` is called by the view, but no shown file defines it. It is not modelled, and neither is the overlay's aggregate progress.
- The view calls `download` with a single closure, which does not match the manager's two-closure signature. The model calls `Download` and ignores its result.
- The catalog fetch (`NetworkManager.swift`) is left out. It is an HTTP GET and a library JSON decode that maps every failure to `nil`.
- The audio and video players, the audio session and the app entry point are AVFoundation/SwiftUI wrappers with no logic of their own.
- The SwiftUI `body`, the download overlay and the error alert are layout.
- The `UUID` identity of `MediaFile` is a fresh random value that is not one of its coded fields.
