/** The non-layout rules of the client's content view: the icon chosen for a
    record's type, the viewer chosen when a record is opened, and the
    download-or-open decision, over the same file system the download
    manager uses. */
module Client {
  import opened Wrappers
  import opened Media
  import opened Downloads
  import MediaServer

  /** `iconName(for:)`: the system image shown beside a record. The match is
      exact, so a differently cased type falls through to "questionmark". */
  function IconName(fileType: string): (r: string)
    ensures r in {"video", "music.note", "photo", "doc", "questionmark"}
    ensures r == "video" <==> fileType == "video"
    ensures r == "music.note" <==> fileType == "audio"
    ensures r == "photo" <==> fileType == "image"
    ensures r == "doc" <==> fileType == "document"
  {
    if fileType == "video" then "video"
    else if fileType == "audio" then "music.note"
    else if fileType == "image" then "photo"
    else if fileType == "document" then "doc"
    else "questionmark"
  }

  lemma IconNameIsCaseSensitive()
    ensures IconName("Video") == "questionmark" && IconName("AUDIO") == "questionmark"
    ensures IconName("other") == "questionmark"
  {
  }

  /** The three presentations the view can raise for an opened file. */
  datatype Viewer = VideoPlayer | AudioPlayer | QuickLookPreview

  /** The `switch` of `openMediaFile`: the video player for "video", the
      audio player for "audio", the preview for every other type. */
  function ViewerFor(fileType: string): (v: Viewer)
    ensures v == VideoPlayer <==> fileType == "video"
    ensures v == AudioPlayer <==> fileType == "audio"
    ensures v == QuickLookPreview <==> fileType != "video" && fileType != "audio"
  {
    match fileType
    case "video" => VideoPlayer
    case "audio" => AudioPlayer
    case _ => QuickLookPreview
  }

  /** Every record the catalog server lists gets a known icon and opens in a
      player: its type is "video" or "audio", never one that falls through to
      "questionmark" or to the preview. */
  lemma ListedRecordsOpenInPlayers(
    files: seq<string>, ifaces: seq<seq<MediaServer.InterfaceAlias>>, m: MediaFile)
    requires m in MediaServer.MediaList(MediaServer.Entries(files), ifaces).body.records
    ensures IconName(m.fileType) in {"video", "music.note"}
    ensures ViewerFor(m.fileType) in {VideoPlayer, AudioPlayer}
  {
    MediaServer.ListedRecordProperties(files, ifaces, m);
  }

  class ContentView {
    const downloadManager: DownloadManager
    const fileSystem: FileSystem
    var previewURL: Option<string>
    var showVideoPlayer: bool
    var showAudioPlayer: bool
    var showPreview: bool

    /** The view and the shared download manager look at the same file system. */
    ghost predicate Valid() {
      fileSystem == downloadManager.fileSystem
    }

    constructor (downloadManager: DownloadManager)
      ensures Valid() && this.downloadManager == downloadManager
      ensures previewURL == None && !showVideoPlayer && !showAudioPlayer && !showPreview
    {
      this.downloadManager := downloadManager;
      this.fileSystem := downloadManager.fileSystem;
      previewURL := None;
      showVideoPlayer, showAudioPlayer, showPreview := false, false, false;
    }

    /** The viewers whose presentation flag is set. */
    function OpenViewers(): (vs: set<Viewer>)
      reads this
      ensures VideoPlayer in vs <==> showVideoPlayer
      ensures AudioPlayer in vs <==> showAudioPlayer
      ensures QuickLookPreview in vs <==> showPreview
    {
      (if showVideoPlayer then {VideoPlayer} else {})
      + (if showAudioPlayer then {AudioPlayer} else {})
      + (if showPreview then {QuickLookPreview} else {})
    }

    /** The local path of a record, computed by the view itself from the
        documents directory and the record's name. */
    function LocalPath(m: MediaFile): (r: string)
      ensures |r| == |fileSystem.documentsDirectory| + 1 + |m.name|
      ensures r[..|fileSystem.documentsDirectory|] == fileSystem.documentsDirectory
      ensures r[|fileSystem.documentsDirectory|] == '/'
      ensures r[|fileSystem.documentsDirectory| + 1..] == m.name
    {
      AppendingPathComponent(fileSystem.documentsDirectory, m.name)
    }

    /** `isDownloaded(mediaFile:)` of the view. */
    predicate IsDownloaded(m: MediaFile)
      reads fileSystem
      ensures IsDownloaded(m) <==> AppendingPathComponent(fileSystem.documentsDirectory, m.name) in fileSystem.paths
    {
      fileSystem.FileExists(LocalPath(m))
    }

    /** The view recomputes the manager's destination, so the view and the
        manager agree on which records are downloaded. */
    lemma IsDownloadedAgrees(m: MediaFile)
      requires Valid()
      ensures LocalPath(m) == downloadManager.DestinationPath(m.name)
      ensures IsDownloaded(m) <==> downloadManager.IsDownloaded(m)
    {
    }

    /** `openMediaFile(mediaFile:)` with the main-queue hops run in place. A
        stored file is opened without a download. Otherwise the manager's
        `download` runs (its inputs are passed through) and the viewer is
        opened afterwards whatever the download reported. Either way
        `previewURL` becomes the file's local path and exactly the viewer the
        type selects is raised; the other flags keep their values. */
    method OpenMediaFile(m: MediaFile, urlParses: bool, transfer: TransferResult, moveSucceeds: bool)
      returns (downloadCalled: bool)
      requires Valid()
      modifies this, fileSystem
      ensures downloadCalled <==> !old(IsDownloaded(m))
      ensures !downloadCalled ==> fileSystem.paths == old(fileSystem.paths)
      ensures downloadCalled ==> (IsDownloaded(m) <==> urlParses && transfer.TempFile? && moveSucceeds)
      ensures fileSystem.paths - {LocalPath(m)} == old(fileSystem.paths) - {LocalPath(m)}
      ensures previewURL == Some(LocalPath(m))
      ensures previewURL == Some(downloadManager.DestinationPath(m.name))
      ensures OpenViewers() == old(OpenViewers()) + {ViewerFor(m.fileType)}
    {
      var destination := LocalPath(m);
      if fileSystem.FileExists(destination) {
        downloadCalled := false;
        previewURL := Some(destination);
        match m.fileType
        case "video" => showVideoPlayer := true;
        case "audio" => showAudioPlayer := true;
        case _ => showPreview := true;
      } else {
        downloadCalled := true;
        var completions, taskStarted := downloadManager.Download(m, urlParses, transfer, moveSucceeds);
        previewURL := Some(destination);
        match m.fileType
        case "video" => showVideoPlayer := true;
        case "audio" => showAudioPlayer := true;
        case _ => showPreview := true;
      }
    }
  }

  /** Opening a file while no viewer is up raises exactly one viewer, the one
      its type selects, and does so even when the file is still absent
      because the download failed. */
  method OpenFromIdle(view: ContentView, m: MediaFile, urlParses: bool, transfer: TransferResult, moveSucceeds: bool)
    returns (downloadCalled: bool)
    requires view.Valid() && view.OpenViewers() == {}
    modifies view, view.fileSystem
    ensures view.OpenViewers() == {ViewerFor(m.fileType)}
    ensures view.previewURL == Some(view.LocalPath(m))
    ensures !urlParses && downloadCalled ==> !view.IsDownloaded(m)
  {
    downloadCalled := view.OpenMediaFile(m, urlParses, transfer, moveSucceeds);
  }
}
