/** The client's download manager over the app's documents directory.
    The file system is an object holding the set of paths that exist; the
    three things the manager cannot see are inputs to `Download`: whether
    Foundation parses the record's url, what the download task delivers, and
    whether the final move succeeds. */
module Downloads {
  import opened Media

  /** `URL.appendingPathComponent(component).path` for a directory path: the
      directory, a separator, then the component as the last part. */
  function AppendingPathComponent(directory: string, component: string): (r: string)
    ensures |r| == |directory| + 1 + |component|
    ensures r[..|directory|] == directory && r[|directory|] == '/'
    ensures r[|directory| + 1..] == component
  {
    directory + "/" + component
  }

  /** Appending to the same directory never maps two names to one path. */
  lemma AppendingPathComponentInjective(directory: string, a: string, b: string)
    requires AppendingPathComponent(directory, a) == AppendingPathComponent(directory, b)
    ensures a == b
  {
    assert a == AppendingPathComponent(directory, a)[|directory| + 1..];
  }

  /** What the client sees of `FileManager.default`: the user's documents
      directory and the set of paths that exist. */
  class FileSystem {
    const documentsDirectory: string
    var paths: set<string>

    constructor (documentsDirectory: string, paths: set<string>)
      ensures this.documentsDirectory == documentsDirectory && this.paths == paths
    {
      this.documentsDirectory := documentsDirectory;
      this.paths := paths;
    }

    /** `fileExists(atPath:)`: asked of the store's current contents, so it
        holds for a path exactly while that path is stored. */
    predicate FileExists(path: string): (r: bool)
      reads this
      ensures r <==> path in paths
    {
      path in paths
    }

    /** `moveItem(at:to:)` of a downloaded temporary file to `to`. The move
        throws when `to` already exists, and may throw for reasons outside the
        model (`succeeds` false); when it does not throw, `to` exists
        afterwards and nothing else changes. */
    method MoveItem(to: string, succeeds: bool) returns (moved: bool)
      modifies this
      ensures moved <==> succeeds && to !in old(paths)
      ensures paths == if moved then old(paths) + {to} else old(paths)
      ensures moved ==> FileExists(to)
    {
      moved := succeeds && to !in paths;
      if moved {
        paths := paths + {to};
      }
    }
  }

  /** What the download task hands to its completion handler. The handler
      never reads `response`, so a reply with an HTTP error status (404, 500)
      that the task saved to a temporary file is a `TempFile` like any other:
      its body is moved into place and reported as a success. */
  datatype TransferResult =
    | TransportError  // `error` is set
    | NoTempFile      // no error, but no temporary file url either
    | TempFile        // the reply body is in a temporary file, whatever its status

  class DownloadManager {
    const fileSystem: FileSystem

    constructor (fileSystem: FileSystem)
      ensures this.fileSystem == fileSystem
    {
      this.fileSystem := fileSystem;
    }

    /** `getDestinationURL(for:)`: the documents directory with the file name
        appended as its last component. It depends on nothing but the name. */
    function DestinationPath(fileName: string): (r: string)
      ensures |r| == |fileSystem.documentsDirectory| + 1 + |fileName|
      ensures r[..|fileSystem.documentsDirectory|] == fileSystem.documentsDirectory
      ensures r[|fileSystem.documentsDirectory|] == '/'
      ensures r[|fileSystem.documentsDirectory| + 1..] == fileName
    {
      AppendingPathComponent(fileSystem.documentsDirectory, fileName)
    }

    /** Distinct names have distinct destinations. */
    lemma DestinationPathInjective(a: string, b: string)
      requires DestinationPath(a) == DestinationPath(b)
      ensures a == b
    {
      AppendingPathComponentInjective(fileSystem.documentsDirectory, a, b);
    }

    /** `isDownloaded(mediaFile:)`: whether the destination of the record's name exists. */
    predicate IsDownloaded(m: MediaFile)
      reads fileSystem
      ensures IsDownloaded(m) <==> DestinationPath(m.name) in fileSystem.paths
    {
      fileSystem.FileExists(DestinationPath(m.name))
    }

    /** `download(mediaFile:progressHandler:completion:)` with its task's
        completion handler run as one step. `completions` lists the values
        passed to `completion`, in order; `taskStarted` says whether a
        download task was created. A url Foundation rejects fails before
        anything else, even when the file is already stored; a stored file
        succeeds at once without a task; otherwise a transport error or a
        missing temporary file fails, and the move decides the outcome. */
    method Download(m: MediaFile, urlParses: bool, transfer: TransferResult, moveSucceeds: bool)
      returns (completions: seq<bool>, taskStarted: bool)
      modifies fileSystem
      ensures |completions| == 1
      ensures !urlParses ==>
        completions == [false] && !taskStarted && fileSystem.paths == old(fileSystem.paths)
      ensures urlParses && old(IsDownloaded(m)) ==>
        completions == [true] && !taskStarted && fileSystem.paths == old(fileSystem.paths)
      ensures taskStarted <==> urlParses && !old(IsDownloaded(m))
      ensures taskStarted && !transfer.TempFile? ==>
        completions == [false] && fileSystem.paths == old(fileSystem.paths)
      ensures taskStarted && transfer.TempFile? ==>
        && completions == [moveSucceeds]
        && fileSystem.paths == if moveSucceeds then old(fileSystem.paths) + {DestinationPath(m.name)} else old(fileSystem.paths)
      ensures completions == [true] ==> IsDownloaded(m)
      ensures old(fileSystem.paths) <= fileSystem.paths
      ensures fileSystem.paths - {DestinationPath(m.name)} == old(fileSystem.paths) - {DestinationPath(m.name)}
    {
      completions, taskStarted := [], false;
      if !urlParses {
        completions := completions + [false];
        return;
      }
      var destination := DestinationPath(m.name);
      if fileSystem.FileExists(destination) {
        completions := completions + [true];
        return;
      }
      taskStarted := true;
      match transfer
      case TransportError =>
        completions := completions + [false];
      case NoTempFile =>
        completions := completions + [false];
      case TempFile =>
        var moved := fileSystem.MoveItem(destination, moveSucceeds);
        completions := completions + [moved];
    }
  }

  /** Downloading a record twice: once the first download has reported
      success, the second reports success at once, starts no task and leaves
      the file system as the first left it, whatever the network would have
      done. */
  method DownloadTwice(
    manager: DownloadManager, m: MediaFile, urlParses: bool,
    firstTransfer: TransferResult, firstMove: bool, secondTransfer: TransferResult, secondMove: bool)
    returns (first: seq<bool>, second: seq<bool>, secondStarted: bool)
    modifies manager.fileSystem
    ensures first == [true] ==> second == [true] && !secondStarted && manager.IsDownloaded(m)
    ensures first == [true] ==> manager.fileSystem.paths <= old(manager.fileSystem.paths) + {manager.DestinationPath(m.name)}
  {
    var firstStarted;
    first, firstStarted := manager.Download(m, urlParses, firstTransfer, firstMove);
    second, secondStarted := manager.Download(m, urlParses, secondTransfer, secondMove);
  }
}
