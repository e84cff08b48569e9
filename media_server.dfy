/** The catalog side: the `/media-list` handler of the media server, which
    turns a directory listing into an ordered array of `{name, url, type}`
    records, with its two helpers, the file classifier and the search for the
    host's reachable IPv4 address. The directory listing and the host's network
    interfaces are inputs. */
module MediaServer {
  import opened Wrappers
  import opened Media
  import opened NodePath
  import UriComponent

  /** The port the server listens on (3000), as its decimal text appears in
      every record's url. */
  const PortText: string := "3000"

  /** The extensions the listing keeps, lower case and without the dot. */
  const SupportedExtensions: seq<string> := ["mp3", "mp4", "mov"]

  /** The same extensions as `path.extname` reports them, with the dot. */
  const DottedExtensions: set<string> := {".mp3", ".mp4", ".mov"}

  const ScanFailureMessage: string := "Unable to scan media directory."

  // ---------------------------------------------------------------------------
  // Filter

  predicate IsHidden(file: string) {
    |file| > 0 && file[0] == '.'
  }

  /** `s.substring(1)`: everything after the first character ("" stays ""). */
  function DropFirst(s: string): string {
    if s == [] then [] else s[1..]
  }

  /** The filter callback: a directory entry is listed when it is not hidden
      and its lower-cased extension, without the dot, is supported. Said the
      other way: its lower-cased extension is one of ".mp3", ".mp4", ".mov". */
  function IsListed(file: string): (r: bool)
    ensures r <==> !IsHidden(file) && ToLower(ExtName(file)) in DottedExtensions
  {
    var ext := DropFirst(ToLower(ExtName(file)));
    DottedExtension(ToLower(ExtName(file)));
    !IsHidden(file) && ext in SupportedExtensions
  }

  /** For a text that is empty or starts with a dot, dropping the first
      character leaves a supported extension exactly when the text is one of
      the dotted forms. */
  lemma DottedExtension(e: string)
    requires e != [] ==> e[0] == '.'
    ensures DropFirst(e) in SupportedExtensions <==> e in DottedExtensions
  {
    if e != [] {
      assert e == ['.'] + DropFirst(e);
      assert ['.'] + "mp3" == ".mp3" && ['.'] + "mp4" == ".mp4" && ['.'] + "mov" == ".mov";
      assert ".mp3"[1..] == "mp3" && ".mp4"[1..] == "mp4" && ".mov"[1..] == "mov";
    }
  }

  /** `files.filter(IsListed)`: the entries that pass, in their order. */
  function VisibleFiles(files: seq<string>): (r: seq<string>)
    ensures |r| <= |files|
    ensures forall k | 0 <= k < |r| :: IsListed(r[k])
    ensures forall f :: f in r <==> f in files && IsListed(f)
  {
    if files == [] then []
    else
      var rest := VisibleFiles(files[1..]);
      assert files == [files[0]] + files[1..];
      if IsListed(files[0]) then [files[0]] + rest else rest
  }

  /** `a` is `b` with some elements left out and the others kept in order. */
  ghost predicate IsSubsequence(a: seq<string>, b: seq<string>)
    decreases |b|
  {
    if a == [] then true
    else if b == [] then false
    else (a[0] == b[0] && IsSubsequence(a[1..], b[1..])) || IsSubsequence(a, b[1..])
  }

  /** The listing keeps the order of the directory: it is a subsequence of
      the entries. */
  lemma {:induction false} VisibleFilesIsSubsequence(files: seq<string>)
    ensures IsSubsequence(VisibleFiles(files), files)
  {
    if files != [] {
      var rest := VisibleFiles(files[1..]);
      VisibleFilesIsSubsequence(files[1..]);
      if IsListed(files[0]) {
        assert VisibleFiles(files) == [files[0]] + rest;
        assert ([files[0]] + rest)[1..] == rest;
      } else {
        assert VisibleFiles(files) == rest;
      }
    }
  }

  /** The listing drops only what the filter rejects: every entry that passes
      appears in it exactly as often as in the directory, and no other entry
      appears. */
  lemma {:induction false} VisibleFilesKeepsMultiplicity(files: seq<string>, f: string)
    ensures multiset(VisibleFiles(files))[f] == if IsListed(f) then multiset(files)[f] else 0
  {
    if files != [] {
      var rest := VisibleFiles(files[1..]);
      VisibleFilesKeepsMultiplicity(files[1..], f);
      assert files == [files[0]] + files[1..];
      assert multiset(files) == multiset{files[0]} + multiset(files[1..]);
      if IsListed(files[0]) {
        assert VisibleFiles(files) == [files[0]] + rest;
        assert multiset([files[0]] + rest) == multiset{files[0]} + multiset(rest);
      } else {
        assert VisibleFiles(files) == rest;
      }
    }
  }

  // ---------------------------------------------------------------------------
  // Classify

  /** `getFileType`: "video" for .mp4 and .mov, "audio" for .mp3, "other" for
      anything else, comparing the lower-cased extension. */
  function FileType(file: string): (r: string)
    ensures r == "video" <==> ToLower(ExtName(file)) in {".mp4", ".mov"}
    ensures r == "audio" <==> ToLower(ExtName(file)) == ".mp3"
    ensures r == "other" <==> ToLower(ExtName(file)) !in DottedExtensions
  {
    var ext := ToLower(ExtName(file));
    if ext in [".mp4", ".mov"] then "video"
    else if ext in [".mp3"] then "audio"
    else "other"
  }

  /** Classification ignores letter case: two names that agree once
      lower-cased get the same type ("A.MP4" and "a.mp4" are both video). */
  lemma FileTypeIgnoresCase(s: string, t: string)
    requires ToLower(s) == ToLower(t)
    ensures FileType(s) == FileType(t)
    ensures IsListed(s) == IsListed(t)
  {
    ExtNameOfLower(s);
    ExtNameOfLower(t);
  }

  /** The supported extensions all lie among the classified ones, so nothing
      the filter keeps is classified "other". */
  lemma ListedIsNeverOther(file: string)
    requires IsListed(file)
    ensures FileType(file) in {"video", "audio"}
  {
  }

  /** Worked cases of the extension rule: the comparison ignores case, a
      name without a dot or whose only dot is its first character has no
      extension, and only the last extension counts. */
  lemma UpperCaseExtensionIsListed()
    ensures FileType("A.MP4") == "video" && IsListed("A.MP4")
  {
    assert LastIndexOf("A.MP4", '.') == 1;
    assert ExtName("A.MP4") == ".MP4";
    assert ToLower(".MP4") == ".mp4";
  }

  lemma TextFileIsDropped()
    ensures FileType("notes.txt") == "other" && !IsListed("notes.txt")
  {
    assert LastIndexOf("notes.txt", '.') == 5;
    assert ExtName("notes.txt") == ".txt";
  }

  lemma DotOnlyNamesHaveNoExtension()
    ensures FileType("mp4") == "other" && !IsListed("mp4")
    ensures FileType(".mp4") == "other" && !IsListed(".mp4")
  {
    assert LastIndexOf("mp4", '.') == -1;
    assert ExtName("mp4") == "";
    assert LastIndexOf(".mp4", '.') == 0;
    assert ExtName(".mp4") == "";
  }

  lemma LastExtensionCounts()
    ensures FileType("a.mp3.mov") == "video"
  {
    var s := "a.mp3.mov";
    assert s[..8] == "a.mp3.mo" && s[..7] == "a.mp3.m" && s[..6] == "a.mp3.";
    assert LastIndexOf("a.mp3.", '.') == 5;
    assert LastIndexOf("a.mp3.m", '.') == 5;
    assert LastIndexOf("a.mp3.mo", '.') == 5;
    assert LastIndexOf(s, '.') == 5;
    assert ExtName(s) == ".mov";
    assert ToLower(".mov") == ".mov";
  }

  // ---------------------------------------------------------------------------
  // Address search

  /** One address entry of `os.networkInterfaces()`. */
  datatype InterfaceAlias = InterfaceAlias(family: string, address: string, internal: bool)

  predicate IsExternalIPv4(alias: InterfaceAlias) {
    alias.family == "IPv4" && !alias.internal
  }

  /** The inner loop: the first external IPv4 alias of one interface at or after index `j`. */
  function FirstExternalAlias(aliases: seq<InterfaceAlias>, j: nat): (r: Option<nat>)
    requires j <= |aliases|
    decreases |aliases| - j
    ensures r.Some? ==> j <= r.value < |aliases| && IsExternalIPv4(aliases[r.value])
    ensures r.Some? ==> forall k | j <= k < r.value :: !IsExternalIPv4(aliases[k])
    ensures r.None? ==> forall k | j <= k < |aliases| :: !IsExternalIPv4(aliases[k])
  {
    if j == |aliases| then None
    else if IsExternalIPv4(aliases[j]) then Some(j)
    else FirstExternalAlias(aliases, j + 1)
  }

  /** The outer loop: the position (interface, alias) of the first external
      IPv4 alias, scanning interfaces from index `i` in order and each
      interface's aliases in order. */
  function FirstExternalFrom(ifaces: seq<seq<InterfaceAlias>>, i: nat): (r: Option<(nat, nat)>)
    requires i <= |ifaces|
    decreases |ifaces| - i
    ensures r.Some? ==> i <= r.value.0 < |ifaces| && r.value.1 < |ifaces[r.value.0]|
    ensures r.Some? ==> IsExternalIPv4(ifaces[r.value.0][r.value.1])
    ensures r.Some? ==> forall p, q | i <= p < r.value.0 && 0 <= q < |ifaces[p]| :: !IsExternalIPv4(ifaces[p][q])
    ensures r.Some? ==> forall q | 0 <= q < r.value.1 :: !IsExternalIPv4(ifaces[r.value.0][q])
    ensures r.None? ==> forall p, q | i <= p < |ifaces| && 0 <= q < |ifaces[p]| :: !IsExternalIPv4(ifaces[p][q])
  {
    if i == |ifaces| then None
    else match FirstExternalAlias(ifaces[i], 0)
      case Some(j) => Some((i, j))
      case None => FirstExternalFrom(ifaces, i + 1)
  }

  /** `getLocalIPAddress`: the address of the first alias, in interface-then-alias
      order, whose family is IPv4 and which is not internal; `None` (JavaScript
      `undefined`) when there is no such alias. */
  function LocalIPAddress(ifaces: seq<seq<InterfaceAlias>>): (r: Option<string>)
    ensures r.None? <==> forall p, q | 0 <= p < |ifaces| && 0 <= q < |ifaces[p]| :: !IsExternalIPv4(ifaces[p][q])
    ensures r.Some? ==> exists p, q | 0 <= p < |ifaces| && 0 <= q < |ifaces[p]| ::
      && IsExternalIPv4(ifaces[p][q]) && ifaces[p][q].address == r.value
      && (forall p', q' | 0 <= p' < p && 0 <= q' < |ifaces[p']| :: !IsExternalIPv4(ifaces[p'][q']))
      && (forall q' | 0 <= q' < q :: !IsExternalIPv4(ifaces[p][q']))
  {
    match FirstExternalFrom(ifaces, 0)
    case Some((p, q)) => Some(ifaces[p][q].address)
    case None => None
  }

  // ---------------------------------------------------------------------------
  // Map

  /** The host as the URL template prints it: JavaScript prints a missing
      address as the word "undefined". */
  function HostText(ip: Option<string>): (r: string)
    ensures ip.Some? ==> r == ip.value
    ensures ip.None? ==> r == "undefined"
  {
    match ip
    case Some(address) => address
    case None => "undefined"
  }

  function UrlPrefix(ip: Option<string>): string {
    "http://" + HostText(ip) + ":" + PortText + "/media/"
  }

  /** The record's `url`: the prefix naming host, port and the static route,
      then the encoded file name. */
  function MediaUrl(ip: Option<string>, file: string): (r: string)
    ensures |r| >= |UrlPrefix(ip)| + |file|
    ensures r[..|UrlPrefix(ip)|] == UrlPrefix(ip)
    ensures r[..7] == "http://" && r[7..7 + |HostText(ip)|] == HostText(ip)
  {
    UrlPrefix(ip) + UriComponent.Encode(file)
  }

  /** The url addresses the file: after the fixed prefix comes a single path
      segment (it holds no `/`), and the static route's decoding of that
      segment is exactly the file name. */
  lemma MediaUrlAddressesFile(ip: Option<string>, file: string)
    ensures |UrlPrefix(ip)| <= |MediaUrl(ip, file)|
    ensures MediaUrl(ip, file)[..|UrlPrefix(ip)|] == UrlPrefix(ip)
    ensures '/' !in MediaUrl(ip, file)[|UrlPrefix(ip)|..]
    ensures UriComponent.Decode(MediaUrl(ip, file)[|UrlPrefix(ip)|..]) == Some(file)
  {
    var segment := UriComponent.Encode(file);
    UriComponent.DecodeEncode(file);
    assert !UriComponent.Unreserved('/');
    assert MediaUrl(ip, file)[|UrlPrefix(ip)|..] == segment;
  }

  /** The record built for one file by the map callback: it carries the file
      name unchanged, a url that starts with the fixed prefix, and a type that
      is "other" exactly when the extension is not a supported one. */
  function Record(ip: Option<string>, file: string): (r: MediaFile)
    ensures r.name == file
    ensures |r.url| >= |UrlPrefix(ip)| && r.url[..|UrlPrefix(ip)|] == UrlPrefix(ip)
    ensures r.fileType != "other" <==> ToLower(ExtName(file)) in DottedExtensions
  {
    MediaFile(file, MediaUrl(ip, file), FileType(file))
  }

  /** `visibleFiles.map(...)`: one record per file, in order, whose name is the
      file name, whose url addresses it and whose type classifies it. */
  function MediaRecords(files: seq<string>, ip: Option<string>): (r: seq<MediaFile>)
    ensures |r| == |files|
    ensures forall k | 0 <= k < |r| :: r[k].name == files[k]
    ensures forall k | 0 <= k < |r| :: r[k].url == MediaUrl(ip, files[k])
    ensures forall k | 0 <= k < |r| :: r[k].fileType == FileType(files[k])
  {
    seq(|files|, k requires 0 <= k < |files| => Record(ip, files[k]))
  }

  // ---------------------------------------------------------------------------
  // The handler

  /** The result of `fs.readdir` on the media directory. */
  datatype DirectoryRead = Entries(files: seq<string>) | ReadFailed

  datatype Body = Text(message: string) | Json(records: seq<MediaFile>)

  datatype Response = Response(status: nat, body: Body)

  /** The `/media-list` handler. A failed directory read answers 500 with a
      fixed message and no listing; otherwise 200 with the records of the
      listed files. */
  function MediaList(dir: DirectoryRead, ifaces: seq<seq<InterfaceAlias>>): (r: Response)
    ensures dir.ReadFailed? <==> r == Response(500, Text(ScanFailureMessage))
    ensures dir.Entries? ==> r.status == 200 && r.body.Json?
    ensures dir.Entries? ==> |r.body.records| == |VisibleFiles(dir.files)|
    ensures dir.Entries? ==> forall k | 0 <= k < |r.body.records| ::
      var m := r.body.records[k];
      && m.name == VisibleFiles(dir.files)[k]
      && m.url == MediaUrl(LocalIPAddress(ifaces), m.name)
      && m.fileType == FileType(m.name)
  {
    match dir
    case ReadFailed => Response(500, Text(ScanFailureMessage))
    case Entries(files) =>
      Response(200, Json(MediaRecords(VisibleFiles(files), LocalIPAddress(ifaces))))
  }

  /** What every listed record satisfies: its name is a directory entry that
      is not hidden, its lower-cased extension is .mp3, .mp4 or .mov, its type
      is "video" or "audio" (never "other"), and its url is the fixed prefix
      followed by the encoded name. */
  lemma ListedRecordProperties(files: seq<string>, ifaces: seq<seq<InterfaceAlias>>, m: MediaFile)
    requires m in MediaList(Entries(files), ifaces).body.records
    ensures m.name in files
    ensures !IsHidden(m.name) && |m.name| > 0
    ensures ToLower(ExtName(m.name)) in DottedExtensions
    ensures m.fileType in {"video", "audio"}
    ensures m.fileType == "audio" <==> ToLower(ExtName(m.name)) == ".mp3"
    ensures m.url == UrlPrefix(LocalIPAddress(ifaces)) + UriComponent.Encode(m.name)
  {
    var records := MediaList(Entries(files), ifaces).body.records;
    var k :| 0 <= k < |records| && records[k] == m;
    var name := VisibleFiles(files)[k];
    assert m.name == name && m.fileType == FileType(name);
    assert m.url == MediaUrl(LocalIPAddress(ifaces), name);
    assert name in VisibleFiles(files);
    assert IsListed(name);
    ListedIsNeverOther(name);
    assert ToLower(ExtName(name)) != "";
  }

  lemma UndefinedHostPrefix()
    ensures UrlPrefix(None) == "http://undefined:3000/media/"
  {
  }

  /** With no reachable IPv4 address the handler still answers 200, and every
      url names the host "undefined". */
  lemma NoAddressGivesUndefinedHost(files: seq<string>, ifaces: seq<seq<InterfaceAlias>>, m: MediaFile)
    requires forall p, q | 0 <= p < |ifaces| && 0 <= q < |ifaces[p]| :: !IsExternalIPv4(ifaces[p][q])
    requires m in MediaList(Entries(files), ifaces).body.records
    ensures MediaList(Entries(files), ifaces).status == 200
    ensures m.url == "http://undefined:3000/media/" + UriComponent.Encode(m.name)
  {
    ListedRecordProperties(files, ifaces, m);
    UndefinedHostPrefix();
  }
}
