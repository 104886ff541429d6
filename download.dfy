/** download.py: deciding whether an input is a URL, resolving the site to a downloader,
    and the control flow of the YouTube and Bilibili downloaders. The yt_dlp calls and
    `os.path.exists` are oracles held in a `Host`; each download returns the sequence of
    oracle calls it made, so that what it does NOT call can be stated. */
module Download {
  import opened Wrappers
  import opened Strings
  import Config

  // ---------------------------------------------------------------- urllib.parse

  predicate IsAsciiLetter(c: char) {
    'a' <= c <= 'z' || 'A' <= c <= 'Z'
  }

  /** urllib.parse's `scheme_chars`: ASCII letters, digits and `+-.`. */
  predicate IsSchemeChar(c: char) {
    IsAsciiLetter(c) || '0' <= c <= '9' || c == '+' || c == '-' || c == '.'
  }

  function LowerAscii(c: char): char {
    if 'A' <= c <= 'Z' then (c as int + 32) as char else c
  }

  /** The two parts of `urlparse(url)` that the code reads. */
  datatype SplitUrl = SplitUrl(scheme: string, netloc: string)

  /** Index of the first `c` in `s`, or |s| when there is none. */
  function FirstIndexOf(s: string, c: char): (k: nat)
    ensures k <= |s| && (k < |s| ==> s[k] == c)
    ensures forall i :: 0 <= i < k ==> s[i] != c
  {
    if s == [] then 0 else if s[0] == c then 0 else 1 + FirstIndexOf(s[1..], c)
  }

  /** Length of the longest prefix of `s` free of `/`, `?` and `#`: the network location
      of `//netloc...` runs up to the first of them. */
  function NetlocLength(s: string): (k: nat)
    ensures k <= |s|
    ensures k < |s| ==> s[k] in "/?#"
    ensures forall i :: 0 <= i < k ==> s[i] !in "/?#"
  {
    if s == [] || s[0] in "/?#" then 0 else 1 + NetlocLength(s[1..])
  }

  /** `urlparse(url)` restricted to scheme and netloc; None is the ValueError it raises
      for a network location with an unmatched `[` or `]`. A scheme is recognised when the
      first `:` is preceded by a non-empty run of scheme characters starting with a
      letter; a network location is present when what follows starts with `//`. */
  function UrlSplit(url: string): (r: Option<SplitUrl>)
    ensures r.Some? && r.value.netloc != [] ==> Contains(url, "//")
    ensures r.Some? && r.value.scheme != [] && r.value.netloc != [] ==> SchemeSeparatorAt(url, FirstIndexOf(url, ':'))
  {
    var i := FirstIndexOf(url, ':');
    var hasScheme := 0 < i < |url| && IsAsciiLetter(url[0])
                     && forall k :: 0 <= k < i ==> IsSchemeChar(url[k]);
    var scheme := if hasScheme then seq(i, k requires 0 <= k < i => LowerAscii(url[k])) else "";
    var rest := if hasScheme then url[i + 1..] else url;
    if HasPrefix(rest, "//") then
      var netloc := rest[2..2 + NetlocLength(rest[2..])];
      SlashesInSuffix(url, |url| - |rest|);
      assert hasScheme ==> url[i..i + 3] == "://" by {
        if hasScheme {
          SeparatorAfterScheme(url, i);
        }
      }
      if ('[' in netloc) != (']' in netloc) then None else Some(SplitUrl(scheme, netloc))
    else
      Some(SplitUrl(scheme, ""))
  }

  /** A `//` at the start of a suffix is a `//` in the whole string. */
  lemma SlashesInSuffix(url: string, j: nat)
    requires j <= |url| && HasPrefix(url[j..], "//")
    ensures Contains(url, "//")
  {
    assert url[j..j + 2] == url[j..][..2];
    assert OccursAt(url, "//", j);
    ContainsIff(url, "//");
  }

  /** A `:` followed by `//` is the separator `://`. */
  lemma SeparatorAfterScheme(url: string, i: nat)
    requires i < |url| && url[i] == ':' && HasPrefix(url[i + 1..], "//")
    ensures url[i..i + 3] == "://"
  {
    assert url[i..i + 3] == [url[i]] + url[i + 1..][..2];
  }

  /** `url` has a scheme ending at position `i`, then `://`, then a non-empty host. */
  predicate SchemeSeparatorAt(url: string, i: int) {
    && 0 < i && i + 3 < |url|
    && url[i..i + 3] == "://"
    && IsAsciiLetter(url[0])
    && (forall k :: 0 <= k < i ==> IsSchemeChar(url[k]))
    && url[i + 3] !in "/?#"
  }

  /** is_url: both the parsed scheme and the parsed network location are non-empty,
      and a parse error means "not a URL". Such a string is `scheme://host...`. */
  function IsUrl(path: string): (r: bool)
    ensures r <==> UrlSplit(path).Some? && UrlSplit(path).value.scheme != [] && UrlSplit(path).value.netloc != []
    ensures r ==> exists i :: SchemeSeparatorAt(path, i)
  {
    match UrlSplit(path)
    case None => false
    case Some(u) =>
      u.scheme != [] && u.netloc != []
  }

  /** A path without `://` anywhere (every plain local file name) is never a URL. */
  lemma LocalPathIsNotUrl(path: string)
    requires !Contains(path, "://")
    ensures !IsUrl(path)
  {
    if IsUrl(path) {
      var i :| SchemeSeparatorAt(path, i);
      assert OccursAt(path, "://", i);
      ContainsIff(path, "://");
    }
  }

  /** `re.sub(r'^www\.', '', host)`: one leading `www.` is removed, nothing else. */
  function StripWww(host: string): (r: string)
    ensures HasPrefix(host, "www.") ==> host == "www." + r
    ensures !HasPrefix(host, "www.") ==> r == host
  {
    if HasPrefix(host, "www.") then host[4..] else host
  }

  /** Only the first `www.` label goes: `www.www.x` becomes `www.x`. */
  lemma StripWwwOnce(host: string)
    ensures StripWww("www." + host) == host
  {
    assert ("www." + host)[..4] == "www.";
  }

  /** The failures a download can end in; `download_video` re-raises each of them. */
  datatype Failure =
    | InvalidUrl                      // urlparse raised ValueError inside get_domain
    | UnsupportedSite(domain: string) // no table entry matched
    | YoutubeFailed(cause: Cause)
    | BilibiliFailed(cause: Cause)
    | ListingFailed(reason: string)   // list_formats raised inside an except handler

  /** The exception caught by a downloader's handler. */
  datatype Cause =
    | NoFormats
    | FormatUnavailable(formatId: string)
    | FileMissing(path: string)
    | ToolError(reason: string)

  /** get_domain: the network location of the URL without a leading `www.`. */
  function GetDomain(url: string): (r: Result<string, Failure>)
    ensures r.Failure? <==> UrlSplit(url).None?
    ensures r.Failure? ==> r.error == InvalidUrl
    ensures r.Success? ==> r.value == StripWww(UrlSplit(url).value.netloc)
  {
    match UrlSplit(url)
    case None => Failure(InvalidUrl)
    case Some(u) => Success(StripWww(u.netloc))
  }

  // ---------------------------------------------------------------- dispatch

  datatype Platform = YouTube | Bilibili

  /** The platform names that get_downloader knows how to build a downloader for. */
  function PlatformNamed(name: string): Option<Platform> {
    if name == "youtube" then Some(YouTube)
    else if name == "bilibili" then Some(Bilibili)
    else None
  }

  /** Entry `k` of the table would be taken for `domain`: its fragment occurs in the
      domain and it names a known platform (an entry with an unknown name is passed over). */
  predicate Selects(table: seq<(string, string)>, domain: string, k: int) {
    0 <= k < |table| && Contains(domain, table[k].0) && PlatformNamed(table[k].1).Some?
  }

  /** The platform of the table's first selecting entry, if any. */
  function Dispatch(table: seq<(string, string)>, domain: string): Option<Platform>
    decreases |table|
  {
    if table == [] then None
    else if Contains(domain, table[0].0) && PlatformNamed(table[0].1).Some? then PlatformNamed(table[0].1)
    else Dispatch(table[1..], domain)
  }

  /** Dispatch answers with the first selecting entry in table order, and answers None
      exactly when no entry selects: there is no default downloader. */
  lemma {:induction false} DispatchIsFirstMatch(table: seq<(string, string)>, domain: string)
    ensures Dispatch(table, domain).None? <==> forall k :: !Selects(table, domain, k)
    ensures forall k :: Selects(table, domain, k) && (forall j :: 0 <= j < k ==> !Selects(table, domain, j))
                        ==> Dispatch(table, domain) == PlatformNamed(table[k].1)
    decreases |table|
  {
    if table != [] && !Selects(table, domain, 0) {
      DispatchIsFirstMatch(table[1..], domain);
      forall k | Selects(table, domain, k) ensures Selects(table[1..], domain, k - 1) {
        assert k != 0;
      }
      forall k | Selects(table[1..], domain, k) ensures Selects(table, domain, k + 1) {
      }
    }
  }

  /** get_downloader: scan SUPPORTED_VIDEO_DOMAINS in order and return the downloader of
      the first fragment contained in the domain; fail when none is. */
  method GetDownloader(url: string) returns (r: Result<Platform, Failure>)
    ensures GetDomain(url).Failure? ==> r == Failure(GetDomain(url).error)
    ensures GetDomain(url).Success? ==>
              var domain := GetDomain(url).value;
              match Dispatch(Config.SupportedVideoDomains, domain)
              case Some(p) => r == Success(p)
              case None => r == Failure(UnsupportedSite(domain))
  {
    var d := GetDomain(url);
    if d.Failure? {
      return Failure(d.error);
    }
    var domain := d.value;
    var table := Config.SupportedVideoDomains;
    var i := 0;
    while i < |table|
      invariant 0 <= i <= |table|
      invariant Dispatch(table, domain) == Dispatch(table[i..], domain)
    {
      var (fragment, platform) := table[i];
      if Contains(domain, fragment) {
        if platform == "youtube" {
          return Success(YouTube);
        } else if platform == "bilibili" {
          return Success(Bilibili);
        }
      }
      assert table[i..][1..] == table[i + 1..];
      i := i + 1;
    }
    return Failure(UnsupportedSite(domain));
  }

  /** A needle whose first character does not occur in `hay` is not contained in it. */
  lemma {:induction false} FirstCharAbsent(hay: string, needle: string)
    requires needle != [] && needle[0] !in hay
    ensures !Contains(hay, needle)
    decreases |hay|
  {
    if hay != [] {
      assert hay[0] in hay;
      assert forall c :: c in hay[1..] ==> c in hay;
      FirstCharAbsent(hay[1..], needle);
    }
  }

  /** Both YouTube host names go to the YouTube downloader. */
  lemma ConfiguredTableYoutube()
    ensures Dispatch(Config.SupportedVideoDomains, "youtube.com") == Some(YouTube)
    ensures Dispatch(Config.SupportedVideoDomains, "youtu.be") == Some(YouTube)
  {
    var t := Config.SupportedVideoDomains;
    assert HasPrefix("youtube.com", t[0].0);
    ContainsIff("youtu.be", t[0].0);
    assert HasPrefix("youtu.be", t[1].0);
    assert t[1..][0] == t[1];
  }

  /** Any host containing `bilibili.com` but neither YouTube fragment goes to the Bilibili
      downloader, a subdomain such as `m.bilibili.com` included. */
  lemma ConfiguredTableBilibili(domain: string)
    requires !Contains(domain, "youtube.com") && !Contains(domain, "youtu.be")
    requires Contains(domain, "bilibili.com")
    ensures Dispatch(Config.SupportedVideoDomains, domain) == Some(Bilibili)
  {
    var t := Config.SupportedVideoDomains;
    assert t[1..][0] == t[1];
    assert t[1..][1..] == [t[2]];
  }

  lemma MobileBilibiliHost()
    ensures Dispatch(Config.SupportedVideoDomains, "m.bilibili.com") == Some(Bilibili)
  {
    BilibiliHostSkipsYoutube();
    BilibiliHostHasFragment();
    ConfiguredTableBilibili("m.bilibili.com");
  }

  lemma BilibiliHostSkipsYoutube()
    ensures !Contains("m.bilibili.com", "youtube.com") && !Contains("m.bilibili.com", "youtu.be")
  {
    FirstCharAbsent("m.bilibili.com", "youtube.com");
    FirstCharAbsent("m.bilibili.com", "youtu.be");
  }

  lemma BilibiliHostHasFragment()
    ensures Contains("m.bilibili.com", "bilibili.com")
  {
    assert OccursAt("m.bilibili.com", "bilibili.com", 2);
    ContainsIff("m.bilibili.com", "bilibili.com");
  }

  /** Any host containing none of the three fragments is refused: there is no default
      downloader. */
  lemma ConfiguredTableRefusesOthers(domain: string)
    requires !Contains(domain, "youtube.com") && !Contains(domain, "youtu.be")
    requires !Contains(domain, "bilibili.com")
    ensures Dispatch(Config.SupportedVideoDomains, domain) == None
  {
    var t := Config.SupportedVideoDomains;
    assert t[1..][0] == t[1];
    assert t[1..][1..][0] == t[2];
    assert t[1..][1..][1..] == [];
  }

  lemma VimeoRefused()
    ensures Dispatch(Config.SupportedVideoDomains, "vimeo.com") == None
  {
    VimeoIsNotYoutube();
    VimeoIsNotBilibili();
    ConfiguredTableRefusesOthers("vimeo.com");
  }

  lemma VimeoIsNotYoutube()
    ensures !Contains("vimeo.com", "youtube.com") && !Contains("vimeo.com", "youtu.be")
  {
    FirstCharAbsent("vimeo.com", "youtube.com");
    FirstCharAbsent("vimeo.com", "youtu.be");
  }

  lemma VimeoIsNotBilibili()
    ensures !Contains("vimeo.com", "bilibili.com")
  {
    FirstCharAbsent("vimeo.com", "bilibili.com");
  }

  /** Matching is by substring, so every host that merely contains a YouTube fragment is
      dispatched to YouTube, whatever else it contains. */
  lemma LookalikeHostIsAccepted(domain: string)
    requires Contains(domain, "youtube.com") || Contains(domain, "youtu.be")
    ensures Dispatch(Config.SupportedVideoDomains, domain) == Some(YouTube)
  {
    var t := Config.SupportedVideoDomains;
    assert t[1..][0] == t[1];
  }

  lemma LookalikeExample()
    ensures Dispatch(Config.SupportedVideoDomains, "youtube.com.example.org") == Some(YouTube)
  {
    assert OccursAt("youtube.com.example.org", "youtube.com", 0);
    ContainsIff("youtube.com.example.org", "youtube.com");
    LookalikeHostIsAccepted("youtube.com.example.org");
  }

  // ---------------------------------------------------------------- downloaders

  /** One entry of the format catalog reported by yt_dlp: the downloaders read only its
      `format_id`, which an entry may lack. */
  datatype Format = Format(formatId: Option<string>)

  /** The outcome of `extract_info(url, download=False)`: the catalog (`formats`, empty
      when absent) or the exception it raised. */
  datatype Info = Info(formats: seq<Format>) | InfoError(reason: string)

  /** The outcome of `extract_info(url, download=True)` followed by `prepare_filename`. */
  datatype Fetched = Fetched(path: string) | FetchError(reason: string)

  /** The options dictionary the downloaders pass to yt_dlp for the download. */
  datatype Options = Options(quiet: bool, noWarnings: bool, outtmpl: string, format: string)

  /** `{**self.default_opts, 'format': format}`. */
  function DownloadOptions(format: string): (o: Options)
    ensures o.format == format && o.quiet && o.noWarnings
    ensures o.outtmpl == Join(Config.VideoDir, "%(title)s.%(ext)s")
  {
    Options(true, true, Join(Config.VideoDir, "%(title)s.%(ext)s"), format)
  }

  /** The outside world of a download. `metadata` is a downloader's own catalog fetch and
      `listing` the one inside list_formats, which may turn out differently. */
  datatype Host = Host(
    metadata: string -> Info,
    listing: string -> Info,
    fetch: (string, Options) -> Fetched,
    fileExists: string -> bool)

  /** The oracle calls a download makes, in order. */
  datatype Call =
    | Metadata(url: string)
    | ListFormats(url: string)
    | Fetch(url: string, opts: Options)
    | CheckExists(path: string)

  datatype Attempt = Attempt(result: Result<string, Failure>, calls: seq<Call>)

  /** The format ids of a catalog, None for an entry without one. */
  function FormatIds(formats: seq<Format>): (ids: seq<Option<string>>)
    ensures |ids| == |formats|
    ensures forall i :: 0 <= i < |formats| ==> ids[i] == formats[i].formatId
  {
    seq(|formats|, i requires 0 <= i < |formats| => formats[i].formatId)
  }

  /** The Bilibili guard: a non-empty catalog, and "best" or an id it lists. */
  predicate Validated(formats: seq<Format>, formatId: string) {
    formats != [] && (formatId == "best" || Some(formatId) in FormatIds(formats))
  }

  /** The handler of YoutubeDownloader.download: list the formats, then raise. A listing
      that itself fails replaces the error. */
  function YoutubeHandler(host: Host, url: string, cause: Cause, calls: seq<Call>): (a: Attempt)
    ensures a.calls == calls + [ListFormats(url)]
    ensures host.listing(url).Info? ==> a.result == Failure(YoutubeFailed(cause))
    ensures host.listing(url).InfoError? ==> a.result == Failure(ListingFailed(host.listing(url).reason))
  {
    match host.listing(url)
    case Info(_) => Attempt(Failure(YoutubeFailed(cause)), calls + [ListFormats(url)])
    case InfoError(e) => Attempt(Failure(ListingFailed(e)), calls + [ListFormats(url)])
  }

  /** YoutubeDownloader.download with quality token `quality`. There is one download
      call with that token and no retry with another format: success needs the reported
      file to exist, and every failure lists the formats once and raises. */
  function YoutubeDownload(host: Host, url: string, quality: string): (a: Attempt)
    ensures a.result.Success? <==>
              host.fetch(url, DownloadOptions(quality)).Fetched?
              && host.fileExists(host.fetch(url, DownloadOptions(quality)).path)
    ensures a.result.Success? ==> a.result.value == host.fetch(url, DownloadOptions(quality)).path
    ensures |a.calls| >= 2 && a.calls[0] == Fetch(url, DownloadOptions(quality))
    ensures forall i :: 0 < i < |a.calls| ==> !a.calls[i].Fetch?
    ensures ListFormats(url) in a.calls <==> a.result.Failure?
    // the cause carried by the failure, unless the listing in the handler raised instead
    ensures host.listing(url).Info? ==>
              match host.fetch(url, DownloadOptions(quality))
              case Fetched(p) => !host.fileExists(p) ==> a.result == Failure(YoutubeFailed(FileMissing(p)))
              case FetchError(e) => a.result == Failure(YoutubeFailed(ToolError(e)))
    ensures host.listing(url).InfoError? && a.result.Failure? ==>
              a.result == Failure(ListingFailed(host.listing(url).reason))
  {
    var opts := DownloadOptions(quality);
    var calls := [Fetch(url, opts)];
    match host.fetch(url, opts)
    case Fetched(p) =>
      if host.fileExists(p) then Attempt(Success(p), calls + [CheckExists(p)])
      else YoutubeHandler(host, url, FileMissing(p), calls + [CheckExists(p)])
    case FetchError(e) => YoutubeHandler(host, url, ToolError(e), calls)
  }

  /** BilibiliDownloader.download with the exact format id `formatId` (or "best"). */
  function BilibiliDownload(host: Host, url: string, formatId: string): (a: Attempt)
    // success: the guard passed, the one download with that id reported a file, the file exists
    ensures a.result.Success? <==>
              && host.metadata(url).Info?
              && Validated(host.metadata(url).formats, formatId)
              && host.fetch(url, DownloadOptions(formatId)).Fetched?
              && host.fileExists(host.fetch(url, DownloadOptions(formatId)).path)
    ensures a.result.Success? ==> a.result.value == host.fetch(url, DownloadOptions(formatId)).path
    // the download is reached exactly when the guard passed, and only with the configured id
    ensures (exists c :: c in a.calls && c.Fetch?) <==>
              host.metadata(url).Info? && Validated(host.metadata(url).formats, formatId)
    ensures forall c :: c in a.calls && c.Fetch? ==> c == Fetch(url, DownloadOptions(formatId))
    // an empty catalog and an unknown id are failures of their own
    ensures host.metadata(url) == Info([]) ==> a.result == Failure(BilibiliFailed(NoFormats))
    ensures (host.metadata(url).Info? && host.metadata(url).formats != [] && !Validated(host.metadata(url).formats, formatId)
             && host.listing(url).Info?)
              ==> a.result == Failure(BilibiliFailed(FormatUnavailable(formatId)))
    // formats are listed when the catalog could not be fetched, or to show an unknown id
    ensures ListFormats(url) in a.calls <==>
              host.metadata(url).InfoError?
              || (host.metadata(url).formats != [] && !Validated(host.metadata(url).formats, formatId))
  {
    match host.metadata(url)
    case InfoError(e) =>
      // `formats` was never bound, so the handler lists the formats before raising
      var calls := [Metadata(url), ListFormats(url)];
      (match host.listing(url)
       case Info(_) => Attempt(Failure(BilibiliFailed(ToolError(e))), calls)
       case InfoError(e2) => Attempt(Failure(ListingFailed(e2)), calls))
    case Info(formats) =>
      if formats == [] then
        Attempt(Failure(BilibiliFailed(NoFormats)), [Metadata(url)])
      else if formatId != "best" && Some(formatId) !in FormatIds(formats) then
        // the listing runs inside the try block: its failure becomes the caught error
        var cause := match host.listing(url)
                     case Info(_) => FormatUnavailable(formatId)
                     case InfoError(e2) => ToolError(e2);
        Attempt(Failure(BilibiliFailed(cause)), [Metadata(url), ListFormats(url)])
      else
        var opts := DownloadOptions(formatId);
        var calls := [Metadata(url), Fetch(url, opts)];
        assert calls[1] == Fetch(url, opts);
        match host.fetch(url, opts)
        case Fetched(p) =>
          var checked := calls + [CheckExists(p)];
          assert checked[1] == Fetch(url, opts);
          if host.fileExists(p) then Attempt(Success(p), checked)
          else Attempt(Failure(BilibiliFailed(FileMissing(p))), checked)
        case FetchError(e) => Attempt(Failure(BilibiliFailed(ToolError(e))), calls)
  }

  /** download_video: resolve the downloader, then run it with its configured token. */
  method DownloadVideo(host: Host, url: string) returns (a: Attempt)
    ensures GetDomain(url).Failure? ==> a == Attempt(Failure(InvalidUrl), [])
    ensures GetDomain(url).Success? ==>
              var domain := GetDomain(url).value;
              match Dispatch(Config.SupportedVideoDomains, domain)
              case None => a == Attempt(Failure(UnsupportedSite(domain)), [])
              case Some(YouTube) => a == YoutubeDownload(host, url, Config.YoutubeDownloadQuality)
              case Some(Bilibili) => a == BilibiliDownload(host, url, Config.BilibiliFormat)
  {
    var platform := GetDownloader(url);
    match platform
    case Failure(e) =>
      a := Attempt(Failure(e), []);
    case Success(YouTube) =>
      a := YoutubeDownload(host, url, Config.YoutubeDownloadQuality);
    case Success(Bilibili) =>
      a := BilibiliDownload(host, url, Config.BilibiliFormat);
  }
}
