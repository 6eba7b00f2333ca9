/**
 * The request handler of the FastAPI media backend (`main.py`): platform
 * detection from the URL, validation, the per-platform yt_dlp options, the
 * title sanitiser, the final file name and the mapping of download errors to
 * user-facing messages. yt_dlp, the file system and base64 encoding are
 * outside the model: what they produce is given to `DownloadMedia` as
 * parameters, and the call made to yt_dlp is returned as a record.
 */
module MediaApi {
  import opened Wrappers
  import opened Text
  import opened PosixPath
  import opened YtDlp

  const TempDir := "temp_downloads"
  const CookiesYouTube := "cookies_youtube.txt"
  const CookiesInstagram := "cookies_instagram.txt"

  /** The JSON body of `POST /download`; a missing `format` is Python's `None`. */
  datatype DownloadRequest = DownloadRequest(url: string, format: Option<MediaFormat>)

  datatype Status = Success | Error

  datatype DownloadResponse = DownloadResponse(status: Status, filename: string, data: string, message: string)

  function ErrorResponse(message: string): DownloadResponse {
    DownloadResponse(Error, "", "", message)
  }

  /** What the handler can observe of the process it runs in: the working directory and
      whether each cookie file exists there. */
  datatype Environment = Environment(cwd: string, youtubeCookiesExist: bool, instagramCookiesExist: bool)

  // ---------------------------------------------------------------------------
  // Platform detection
  // ---------------------------------------------------------------------------

  datatype Platform = Instagram | YouTube | Unsupported

  /** The tag `detect_platform` returns. */
  function PlatformTag(p: Platform): string {
    match p
    case Instagram => "instagram"
    case YouTube => "youtube"
    case Unsupported => "unsupported"
  }

  const InstagramMarkers: seq<string> := ["instagram.com", "/reel/", "/reels/"]
  const YouTubeMarkers: seq<string> := ["youtube.com", "youtu.be"]

  /** `detect_platform`: Instagram markers first, then YouTube ones, on the lowered URL. */
  function DetectPlatform(url: string): Platform {
    var u := Lower(url);
    if Contains(u, "instagram.com") || Contains(u, "/reel/") || Contains(u, "/reels/") then Instagram
    else if Contains(u, "youtube.com") || Contains(u, "youtu.be") then YouTube
    else Unsupported
  }

  /** Some marker of `markers` occurs in `u`. */
  ghost predicate HasMarker(u: string, markers: seq<string>) {
    exists m, i :: m in markers && OccursAt(u, m, i)
  }

  /** The platform is Instagram exactly when an Instagram marker occurs in the lowered URL
      (whatever else occurs), YouTube exactly when no Instagram marker but a YouTube marker
      does, and Unsupported otherwise. */
  lemma DetectPlatformSpec(url: string)
    ensures DetectPlatform(url) == Instagram <==> HasMarker(Lower(url), InstagramMarkers)
    ensures DetectPlatform(url) == YouTube <==>
      !HasMarker(Lower(url), InstagramMarkers) && HasMarker(Lower(url), YouTubeMarkers)
    ensures DetectPlatform(url) == Unsupported <==>
      !HasMarker(Lower(url), InstagramMarkers) && !HasMarker(Lower(url), YouTubeMarkers)
  {
    var u := Lower(url);
    ContainsIff(u, "instagram.com");
    ContainsIff(u, "/reel/");
    ContainsIff(u, "/reels/");
    ContainsIff(u, "youtube.com");
    ContainsIff(u, "youtu.be");
    if HasMarker(u, InstagramMarkers) {
      var m, i :| m in InstagramMarkers && OccursAt(u, m, i);
      assert m == "instagram.com" || m == "/reel/" || m == "/reels/";
    }
    if HasMarker(u, YouTubeMarkers) {
      var m, i :| m in YouTubeMarkers && OccursAt(u, m, i);
      assert m == "youtube.com" || m == "youtu.be";
    }
  }

  /** Detection ignores case: a URL and its lowered form get the same platform. */
  lemma DetectPlatformIgnoresCase(url: string)
    ensures DetectPlatform(Lower(url)) == DetectPlatform(url)
  {
    LowerIdempotent(url);
  }

  /** A marker written in any case, such as `INSTAGRAM.COM` or `/Reel/`, makes the URL an
      Instagram one, even when a YouTube marker occurs too. */
  lemma InstagramMarkerInAnyCase(url: string, m: string)
    requires Contains(url, m) && Lower(m) in InstagramMarkers
    ensures DetectPlatform(url) == Instagram
  {
    ContainsLower(url, m);
    ContainsIff(Lower(url), Lower(m));
    DetectPlatformSpec(url);
  }

  /** Without an Instagram marker, a YouTube marker in any case makes the URL a YouTube one. */
  lemma YouTubeMarkerInAnyCase(url: string, m: string)
    requires Contains(url, m) && Lower(m) in YouTubeMarkers
    requires !HasMarker(Lower(url), InstagramMarkers)
    ensures DetectPlatform(url) == YouTube
  {
    ContainsLower(url, m);
    ContainsIff(Lower(url), Lower(m));
    DetectPlatformSpec(url);
  }

  /** The empty URL is unsupported. */
  lemma EmptyUrlUnsupported()
    ensures DetectPlatform("") == Unsupported
  {
    DetectPlatformSpec("");
  }

  // ---------------------------------------------------------------------------
  // yt_dlp options
  // ---------------------------------------------------------------------------

  /** `cookie_file if os.path.exists(cookie_file) else None`, for the cookie file `name`
      in the working directory. */
  function CookieValue(cwd: string, name: string, present: bool): OptionValue {
    if present then Text(Join(cwd, name)) else NoneValue
  }

  /** The format selectors and the User-Agent the option builders use. */
  const YouTubeAudioFormat := "bestaudio/best"
  const YouTubeVideoFormat := "bestvideo[ext=mp4]+bestaudio[ext=m4a]/bestvideo+bestaudio/best"
  const InstagramFormat := "best[ext=mp4]/best"
  const BrowserUserAgent := "Mozilla/5.0 (Windows NT 10.0; Win64; x64) AppleWebKit/537.36 (KHTML, like Gecko) Chrome/120.0.0.0 Safari/537.36"

  /** `get_youtube_options`: audio-only with MP3 extraction for mp3, best video and audio
      merged into MP4 otherwise. */
  function YouTubeOptions(template: string, format: MediaFormat, cookie: OptionValue): Options {
    if format == Mp3 then
      map[
        Format := Text(YouTubeAudioFormat),
        OutTmpl := Text(template),
        CookieFile := cookie,
        Quiet := Flag(true),
        NoWarnings := Flag(true),
        NoCheckCertificate := Flag(true),
        PostProcessors := ProcessorList([ExtractMp3Audio])]
    else
      map[
        Format := Text(YouTubeVideoFormat),
        MergeOutputFormat := Text("mp4"),
        OutTmpl := Text(template),
        CookieFile := cookie,
        Quiet := Flag(true),
        NoWarnings := Flag(true),
        NoCheckCertificate := Flag(true)]
  }

  /** `get_instagram_options`: the best MP4, with a desktop browser's User-Agent. */
  function InstagramOptions(template: string, cookie: OptionValue): Options {
    map[
      Format := Text(InstagramFormat),
      OutTmpl := Text(template),
      CookieFile := cookie,
      Quiet := Flag(true),
      NoWarnings := Flag(true),
      NoCheckCertificate := Flag(true),
      HttpHeaders := HeaderMap(map["User-Agent" := BrowserUserAgent])]
  }

  /** `os.path.join(TEMP_DIR, f"{unique_id}.%(ext)s")`: for an id that is not an absolute
      path, the template names `<id>.%(ext)s` inside the download directory. */
  function OutputTemplate(uniqueId: string): (r: string)
    ensures uniqueId == [] || uniqueId[0] != Sep ==> r == TempDir + [Sep] + uniqueId + ".%(ext)s"
  {
    Join(TempDir, uniqueId + ".%(ext)s")
  }

  /** The options the handler builds for a supported platform, before the cookie check. */
  function PlatformOptions(platform: Platform, format: MediaFormat, env: Environment, template: string): Options
    requires platform != Unsupported
  {
    if platform == Instagram then
      InstagramOptions(template, CookieValue(env.cwd, CookiesInstagram, env.instagramCookiesExist))
    else
      YouTubeOptions(template, format, CookieValue(env.cwd, CookiesYouTube, env.youtubeCookiesExist))
  }

  /** The cookie file the handler names for a platform. */
  function CookieFileFor(platform: Platform): string {
    if platform == Instagram then CookiesInstagram else CookiesYouTube
  }

  function CookiesExist(platform: Platform, env: Environment): bool {
    if platform == Instagram then env.instagramCookiesExist else env.youtubeCookiesExist
  }

  /** Every option set the handler builds has a `cookiefile` entry, which is `None`
      exactly when the platform's cookie file is missing and otherwise names that file in
      the working directory; all of them write to the given template. */
  lemma PlatformOptionsCookie(platform: Platform, format: MediaFormat, env: Environment, template: string)
    requires platform != Unsupported
    ensures var opts := PlatformOptions(platform, format, env, template);
      && CookieFile in opts && OutTmpl in opts && opts[OutTmpl] == Text(template)
      && (opts[CookieFile] == NoneValue <==> !CookiesExist(platform, env))
      && (opts[CookieFile] != NoneValue ==> opts[CookieFile] == Text(Join(env.cwd, CookieFileFor(platform))))
  {
  }

  /** YouTube mp3 options select audio only and carry exactly the MP3 extraction
      post-processor and no merge format; YouTube mp4 options select the best MP4 video
      with M4A audio, merge into mp4 and carry no post-processor. */
  lemma YouTubeOptionsShape(format: MediaFormat, env: Environment, template: string)
    ensures var opts := PlatformOptions(YouTube, format, env, template);
      && Get(opts, Format) == Text(if format == Mp3 then YouTubeAudioFormat else YouTubeVideoFormat)
      && (format == Mp3 ==>
            Get(opts, PostProcessors) == ProcessorList([ExtractMp3Audio])
            && MergeOutputFormat !in opts)
      && (format == Mp4 ==>
            Get(opts, MergeOutputFormat) == Text("mp4")
            && PostProcessors !in opts)
  {
  }

  /** Instagram options select the best MP4, send a desktop browser's User-Agent, and
      neither merge nor post-process. */
  lemma InstagramOptionsShape(format: MediaFormat, env: Environment, template: string)
    ensures var opts := PlatformOptions(Instagram, format, env, template);
      && Get(opts, Format) == Text(InstagramFormat)
      && Get(opts, HttpHeaders) == HeaderMap(map["User-Agent" := BrowserUserAgent])
      && PostProcessors !in opts && MergeOutputFormat !in opts
  {
  }

  /** The extension the handler expects (`expected_ext`): mp4 for Instagram, and for
      YouTube mp3 exactly when mp3 was requested. The handler computes it but never uses it. */
  function ExpectedExtension(platform: Platform, format: MediaFormat): string
    requires platform != Unsupported
  {
    if platform == Instagram then "mp4"
    else if format == Mp3 then "mp3" else "mp4"
  }

  /** `expected_ext` agrees with the options: it is mp3 exactly when the options extract
      MP3 audio, and mp4 exactly when they merge into mp4 or select Instagram's mp4. */
  lemma ExpectedExtensionMatchesOptions(platform: Platform, format: MediaFormat, env: Environment, template: string)
    requires platform != Unsupported
    ensures var opts := PlatformOptions(platform, format, env, template);
      && (ExpectedExtension(platform, format) == "mp3" <==>
            Get(opts, PostProcessors) == ProcessorList([ExtractMp3Audio]))
      && (ExpectedExtension(platform, format) == "mp4" <==>
            (Get(opts, MergeOutputFormat) == Text("mp4")
             || Get(opts, Format) == Text(InstagramFormat)))
  {
    var opts := PlatformOptions(platform, format, env, template);
    if platform == Instagram {
      assert Get(opts, PostProcessors) == NoneValue;
    } else if format == Mp3 {
      assert Get(opts, MergeOutputFormat) == NoneValue;
      assert Get(opts, Format) == Text(YouTubeAudioFormat);
      assert YouTubeAudioFormat[4] != InstagramFormat[4];
    } else {
      assert Get(opts, PostProcessors) == NoneValue;
    }
  }

  // ---------------------------------------------------------------------------
  // Title sanitiser and final file name
  // ---------------------------------------------------------------------------

  const DefaultTitle := "download"
  const MaxTitleLength := 100

  /** `str.isalnum` on ASCII. */
  predicate IsAlnum(c: char) {
    'a' <= c <= 'z' || 'A' <= c <= 'Z' || '0' <= c <= '9'
  }

  /** A character the sanitiser keeps. */
  predicate IsTitleChar(c: char) {
    IsAlnum(c) || c == ' ' || c == '-' || c == '_'
  }

  ghost predicate AllTitleChars(s: string) {
    forall i :: 0 <= i < |s| ==> IsTitleChar(s[i])
  }

  /** `"".join(c for c in title if c.isalnum() or c in (' ', '-', '_'))`. */
  function KeepTitleChars(title: string): (r: string)
    ensures AllTitleChars(r)
    ensures |r| <= |title|
  {
    if title == [] then []
    else (if IsTitleChar(title[0]) then [title[0]] else []) + KeepTitleChars(title[1..])
  }

  /** A single character is kept exactly when it is a title character. */
  lemma KeepTitleCharsOne(c: char)
    ensures KeepTitleChars([c]) == if IsTitleChar(c) then [c] else []
  {
  }

  /** Filtering works character by character: the filtered concatenation is the
      concatenation of the filtered parts. With `KeepTitleCharsOne` this fixes the
      result for every title: each title character is kept, in order, and nothing else. */
  lemma {:induction false} KeepTitleCharsAppend(a: string, b: string)
    ensures KeepTitleChars(a + b) == KeepTitleChars(a) + KeepTitleChars(b)
  {
    if a == [] {
      assert a + b == b;
    } else {
      var head := if IsTitleChar(a[0]) then [a[0]] else [];
      assert (a + b)[0] == a[0];
      assert (a + b)[1..] == a[1..] + b;
      assert KeepTitleChars(a + b) == head + KeepTitleChars(a[1..] + b);
      KeepTitleCharsAppend(a[1..], b);
      assert KeepTitleChars(a) == head + KeepTitleChars(a[1..]);
    }
  }

  /** Filtering keeps a string of title characters as it is. */
  lemma {:induction false} KeepTitleCharsUnchanged(s: string)
    requires AllTitleChars(s)
    ensures KeepTitleChars(s) == s
  {
    if s != [] {
      KeepTitleCharsUnchanged(s[1..]);
    }
  }

  /** The sanitised title (`safe_title`): title characters only, stripped, then cut to
      100 characters. It holds only title characters, does not start with a space and is
      at most 100 long. */
  function SafeTitle(title: string): (r: string)
    ensures AllTitleChars(r)
    ensures r != [] ==> !IsSpace(r[0])
    ensures |r| <= MaxTitleLength
  {
    var kept := KeepTitleChars(title);
    var s := Strip(kept);
    assert forall i :: 0 <= i < |s| ==> s[i] == kept[LeadingSpaces(kept) + i];
    if |s| <= MaxTitleLength then s else s[..MaxTitleLength]
  }

  /** A title the sanitiser leaves alone: title characters only, no space at either end,
      at most 100 long. */
  ghost predicate CleanTitle(s: string) {
    AllTitleChars(s) && Trimmed(s) && |s| <= MaxTitleLength
  }

  /** The sanitiser leaves a title unchanged exactly when it is clean. */
  lemma SafeTitleFixedIff(title: string)
    ensures SafeTitle(title) == title <==> CleanTitle(title)
  {
    if CleanTitle(title) {
      KeepTitleCharsUnchanged(title);
      StripFixedIff(title);
    }
    if SafeTitle(title) == title {
      KeepTitleCharsUnchanged(title);
      StripFixedIff(Strip(title));
    }
  }

  /** When stripping leaves at most 100 characters the sanitiser is idempotent. */
  lemma SafeTitleIdempotentWhenShort(title: string)
    requires |Strip(KeepTitleChars(title))| <= MaxTitleLength
    ensures SafeTitle(SafeTitle(title)) == SafeTitle(title)
  {
    var s := SafeTitle(title);
    StripFixedIff(Strip(KeepTitleChars(title)));
    SafeTitleFixedIff(s);
  }

  /** The cut to 100 characters happens after stripping, so it can leave a trailing space:
      a clean title longer than 100 with a space at position 99 is cut to a result that
      ends in a space, which the sanitiser would strip on a second pass. */
  lemma SafeTitleMayEndInSpace(title: string)
    requires AllTitleChars(title) && Trimmed(title)
    requires |title| > MaxTitleLength && title[MaxTitleLength - 1] == ' '
    ensures SafeTitle(title) == title[..MaxTitleLength]
    ensures !Trimmed(SafeTitle(title))
    ensures SafeTitle(SafeTitle(title)) != SafeTitle(title)
  {
    KeepTitleCharsUnchanged(title);
    StripFixedIff(title);
    assert Strip(KeepTitleChars(title)) == title;
    var cut := title[..MaxTitleLength];
    assert SafeTitle(title) == cut;
    assert IsSpace(cut[|cut| - 1]);
    SafeTitleFixedIff(cut);
  }

  /** `f"{safe_title}.{actual_ext}"`. */
  function FinalFilename(safeTitle: string, actualExt: string): string {
    safeTitle + "." + actualExt
  }

  /** For a title of sanitised characters and an extension as `ExtensionOf` gives it, the
      final name is a bare name (no directory part). */
  lemma FinalFilenameIsBare(safeTitle: string, actualExt: string)
    requires AllTitleChars(safeTitle)
    requires PlainPart(actualExt)
    ensures Sep !in FinalFilename(safeTitle, actualExt)
  {
    var name := FinalFilename(safeTitle, actualExt);
    forall i | 0 <= i < |name|
      ensures name[i] != Sep
    {
      if i < |safeTitle| {
        assert name[i] == safeTitle[i];
      } else if i > |safeTitle| {
        assert name[i] == actualExt[i - |safeTitle| - 1];
      }
    }
  }

  /** When the sanitised title is not empty, `splitext` finds in the final name the
      extension it was built with. */
  lemma FinalFilenameExtension(safeTitle: string, actualExt: string)
    requires AllTitleChars(safeTitle) && safeTitle != []
    requires PlainPart(actualExt)
    ensures ExtensionOf(FinalFilename(safeTitle, actualExt)) == actualExt
  {
    var name := FinalFilename(safeTitle, actualExt);
    var d := |safeTitle|;
    assert name[d - 1] == safeTitle[d - 1];
    assert forall j :: d < j < |name| ==> name[j] == actualExt[j - d - 1];
    ExtensionAfterLastDot(name, d);
    assert name[d + 1..] == actualExt;
  }

  /** When the sanitised title is empty (a title with no letter, digit, space, `-` or `_`)
      the final name is just `.ext`, in which `splitext` sees no extension at all. */
  lemma EmptyTitleHidesExtension(actualExt: string)
    requires PlainPart(actualExt)
    ensures ExtensionOf(FinalFilename([], actualExt)) == []
  {
    var name := FinalFilename([], actualExt);
    assert forall j :: 0 < j < |name| ==> name[j] == actualExt[j - 1];
    NoExtensionAfterLeadingDot(name);
  }

  /** For the file yt_dlp writes from the output template, `temp_downloads/<id>.<ext>`,
      the extension found is `<ext>`. */
  lemma DownloadedExtension(uniqueId: string, ext: string)
    requires uniqueId != [] && PlainPart(uniqueId)
    requires PlainPart(ext)
    ensures ExtensionOf(TempDir + "/" + uniqueId + "." + ext) == ext
  {
    var p := TempDir + "/" + uniqueId + "." + ext;
    var d := |TempDir| + 1 + |uniqueId|;
    assert p[d - 1] == uniqueId[|uniqueId| - 1];
    assert forall j :: d < j < |p| ==> p[j] == ext[j - d - 1];
    ExtensionAfterLastDot(p, d);
    assert p[d + 1..] == ext;
  }

  // ---------------------------------------------------------------------------
  // Messages
  // ---------------------------------------------------------------------------

  const UrlRequiredMessage := "URL is required"
  const UnsupportedUrlMessage := "Unsupported URL. Only YouTube and Instagram URLs are supported."
  const FileNotFoundMessage := "Download completed but file not found"
  // written as two literals so that the verifier can see its first character
  const PrivateVideoMessage := "This video is private" + " and cannot be downloaded"
  const UnavailableMessage := "This video is unavailable"
  const DownloadFailedPrefix := "Download failed: "
  const ErrorOccurredPrefix := "An error occurred: "
  const SuccessPrefix := "Successfully downloaded from "

  function AuthRequiredMessage(platform: Platform): string {
    "Authentication required. Please ensure " + CookieFileFor(platform) + " is properly configured."
  }

  /** `f"Successfully downloaded from {platform.capitalize()}"`. */
  function SuccessMessage(platform: Platform): string {
    SuccessPrefix + Capitalize(PlatformTag(platform))
  }

  /** The YouTube success message spells the platform as `capitalize` does, with a
      lower-case "t": "Youtube". */
  lemma SuccessMessageYouTube()
    ensures SuccessMessage(YouTube) == SuccessPrefix + "Youtube"
  {
    var tail := "outube";
    assert Lower(tail) == tail by {
      assert forall i :: 0 <= i < |tail| ==> LowerChar(tail[i]) == tail[i];
    }
    assert Capitalize("youtube") == "Youtube";
  }

  /** The Instagram success message: "Instagram". */
  lemma SuccessMessageInstagram()
    ensures SuccessMessage(Instagram) == SuccessPrefix + "Instagram"
  {
    var tail := "nstagram";
    assert Lower(tail) == tail by {
      assert forall i :: 0 <= i < |tail| ==> LowerChar(tail[i]) == tail[i];
    }
    assert Capitalize("instagram") == "Instagram";
  }

  /** The message for a yt_dlp `DownloadError` with text `errorMsg`: the first of the
      private, unavailable and sign-in tests that matches, else the text itself behind
      "Download failed: ". */
  function DownloadErrorMessage(errorMsg: string, platform: Platform): string {
    if Contains(errorMsg, "Private video") then PrivateVideoMessage
    else if Contains(errorMsg, "Video unavailable") then UnavailableMessage
    else if Contains(errorMsg, "Sign in") || Contains(Lower(errorMsg), "login") then AuthRequiredMessage(platform)
    else DownloadFailedPrefix + errorMsg
  }

  /** The error text carried by a "Download failed: ..." message, if it is one. */
  function ReportedError(message: string): Option<string> {
    if DownloadFailedPrefix <= message then Some(message[|DownloadFailedPrefix|..]) else None
  }

  /** None of the classified conditions occurs in the error text. */
  predicate Unclassified(errorMsg: string) {
    !Contains(errorMsg, "Private video") && !Contains(errorMsg, "Video unavailable")
    && !Contains(errorMsg, "Sign in") && !Contains(Lower(errorMsg), "login")
  }

  /** The error text can be read back from the message exactly when no classified
      condition occurs in it: the fixed messages never look like a "Download failed: "
      one. */
  lemma DownloadErrorMessageReported(errorMsg: string, platform: Platform)
    ensures ReportedError(DownloadErrorMessage(errorMsg, platform)) ==
      (if Unclassified(errorMsg) then Some(errorMsg) else None)
  {
    var m := DownloadErrorMessage(errorMsg, platform);
    if !Unclassified(errorMsg) {
      var auth := AuthRequiredMessage(platform);
      assert auth[0] == 'A';
      assert m == PrivateVideoMessage || m == UnavailableMessage || m == auth;
      assert !(DownloadFailedPrefix <= m) by {
        assert m[0] != DownloadFailedPrefix[0];
      }
    } else {
      assert m[|DownloadFailedPrefix|..] == errorMsg;
    }
  }

  /** The tests are tried in order and the first that matches decides: "Private video"
      gives the private message even when the other phrases also occur, "Video
      unavailable" comes next, and the sign-in or login test last. */
  lemma DownloadErrorMessageOrder(errorMsg: string, platform: Platform)
    ensures var m := DownloadErrorMessage(errorMsg, platform);
      && (m == PrivateVideoMessage <==> Contains(errorMsg, "Private video"))
      && (m == UnavailableMessage <==>
            !Contains(errorMsg, "Private video") && Contains(errorMsg, "Video unavailable"))
      && (m == AuthRequiredMessage(platform) <==>
            && !Contains(errorMsg, "Private video") && !Contains(errorMsg, "Video unavailable")
            && (Contains(errorMsg, "Sign in") || Contains(Lower(errorMsg), "login")))
  {
    var m := DownloadErrorMessage(errorMsg, platform);
    var auth := AuthRequiredMessage(platform);
    assert auth[0] == 'A';
    assert PrivateVideoMessage[0] == 'T';
    assert |UnavailableMessage| < |PrivateVideoMessage|;
    assert |UnavailableMessage| < |auth|;
    if Unclassified(errorMsg) {
      assert m[0] == DownloadFailedPrefix[0];
    }
  }

  /** The authentication message names the cookie file of the platform the URL is from. */
  lemma AuthRequiredMessageNamesCookies(platform: Platform)
    ensures Contains(AuthRequiredMessage(platform), CookieFileFor(platform))
  {
    var m := AuthRequiredMessage(platform);
    var k := |"Authentication required. Please ensure "|;
    assert m[k..k + |CookieFileFor(platform)|] == CookieFileFor(platform);
    ContainsAt(m, CookieFileFor(platform), k);
  }

  // ---------------------------------------------------------------------------
  // The handler
  // ---------------------------------------------------------------------------

  /** The `title` entry of the info yt_dlp returns: absent, present but `None`, or a string. */
  datatype TitleEntry = Missing | NullTitle | Title(text: string)

  /** What `extract_info` gives the handler: the info's `title` entry, a `DownloadError`
      with its text, or any other exception with its text. */
  datatype Extraction =
    | Extracted(title: TitleEntry)
    | DownloadError(message: string)
    | OtherError(message: string)

  /** The text of the `TypeError` raised when the sanitiser iterates over a `None` title. */
  const NoneTitleError := "'NoneType' object is not iterable"

  /** `info.get('title', 'download')` for a title that is there: the default when the entry
      is absent. */
  function TitleOrDefault(title: TitleEntry): string
    requires !title.NullTitle?
  {
    if title.Title? then title.text else DefaultTitle
  }

  /** The option selection at the head of the handler's `try` block: the platform's
      options, the expected extension, and the `cookiefile` entry deleted when it is
      `None`. The entry is always present, so the `del` never raises. */
  method SelectOptions(platform: Platform, format: MediaFormat, env: Environment, template: string)
    returns (opts: Options, expectedExt: string)
    requires platform != Unsupported
    ensures NoneEntryDeleted(PlatformOptions(platform, format, env, template), opts, CookieFile)
    ensures CookieFile in opts <==> CookiesExist(platform, env)
    ensures expectedExt == ExpectedExtension(platform, format)
  {
    if platform == Instagram {
      opts := InstagramOptions(template, CookieValue(env.cwd, CookiesInstagram, env.instagramCookiesExist));
      expectedExt := "mp4";
    } else {
      opts := YouTubeOptions(template, format, CookieValue(env.cwd, CookiesYouTube, env.youtubeCookiesExist));
      expectedExt := if format == Mp3 then "mp3" else "mp4";
    }
    PlatformOptionsCookie(platform, format, env, template);
    ghost var built := opts;
    if Get(opts, CookieFile) == NoneValue {
      opts := opts - {CookieFile};
    }
    DeleteNoneEntry(built, CookieFile);
  }

  /** `download_media` (`POST /download`). `extraction` is what yt_dlp does with the call
      returned in `call` (a `None` title fails the sanitiser with a `TypeError`); `found`
      is the file `find_downloaded_file` locates, if any, that still exists; `fileData` is
      reading that file and base64-encoding it. */
  method DownloadMedia(request: DownloadRequest, env: Environment, uniqueId: string,
                       extraction: Extraction, found: Option<string>, fileData: Outcome<string>)
    returns (response: DownloadResponse, call: Option<Call>)
    ensures response.status == Error ==> response.filename == "" && response.data == ""
    ensures Strip(request.url) == [] ==> response == ErrorResponse(UrlRequiredMessage)
    ensures Strip(request.url) != [] && DetectPlatform(Strip(request.url)) == Unsupported ==>
      response == ErrorResponse(UnsupportedUrlMessage)
    ensures call.Some? <==> Strip(request.url) != [] && DetectPlatform(Strip(request.url)) != Unsupported
    ensures call.Some? ==>
      var platform := DetectPlatform(Strip(request.url));
      && call.value.url == Strip(request.url)
      && NoneEntryDeleted(PlatformOptions(platform, request.format.GetOr(Mp4), env, OutputTemplate(uniqueId)),
                          call.value.options, CookieFile)
      && (CookieFile in call.value.options <==> CookiesExist(platform, env))
    ensures call.Some? && extraction.DownloadError? ==>
      response == ErrorResponse(DownloadErrorMessage(extraction.message, DetectPlatform(Strip(request.url))))
    ensures call.Some? && extraction.OtherError? ==>
      response == ErrorResponse(ErrorOccurredPrefix + extraction.message)
    ensures call.Some? && extraction.Extracted? && extraction.title.NullTitle? ==>
      response == ErrorResponse(ErrorOccurredPrefix + NoneTitleError)
    ensures call.Some? && extraction.Extracted? && !extraction.title.NullTitle? && found.None? ==>
      response == ErrorResponse(FileNotFoundMessage)
    ensures call.Some? && extraction.Extracted? && !extraction.title.NullTitle? && found.Some? && fileData.Raised? ==>
      response == ErrorResponse(ErrorOccurredPrefix + fileData.message)
    ensures response.status == Success <==>
      call.Some? && extraction.Extracted? && !extraction.title.NullTitle? && found.Some? && fileData.Returned?
    ensures response.status == Success ==>
      response == DownloadResponse(
        Success,
        FinalFilename(SafeTitle(TitleOrDefault(extraction.title)), ExtensionOf(found.value)),
        fileData.value,
        SuccessMessage(DetectPlatform(Strip(request.url))))
    ensures response.status == Success ==> Sep !in response.filename
  {
    var url := Strip(request.url);
    var format := request.format.GetOr(Mp4);
    call := None;

    if url == [] {
      response := ErrorResponse(UrlRequiredMessage);
      return;
    }

    var platform := DetectPlatform(url);
    if platform == Unsupported {
      response := ErrorResponse(UnsupportedUrlMessage);
      return;
    }

    var opts, expectedExt := SelectOptions(platform, format, env, OutputTemplate(uniqueId));
    call := Some(Call(url, opts));

    match extraction {
      case DownloadError(msg) =>
        response := ErrorResponse(DownloadErrorMessage(msg, platform));
      case OtherError(msg) =>
        response := ErrorResponse(ErrorOccurredPrefix + msg);
      case Extracted(title) =>
        if title.NullTitle? {
          response := ErrorResponse(ErrorOccurredPrefix + NoneTitleError);
          return;
        }
        var safeTitle := SafeTitle(TitleOrDefault(title));
        if found.None? {
          response := ErrorResponse(FileNotFoundMessage);
          return;
        }
        var downloaded := found.value;
        var actualExt := ExtensionOf(downloaded);
        match fileData {
          case Raised(msg) =>
            response := ErrorResponse(ErrorOccurredPrefix + msg);
          case Returned(data) =>
            var finalFilename := FinalFilename(safeTitle, actualExt);
            FinalFilenameIsBare(safeTitle, actualExt);
            response := DownloadResponse(Success, finalFilename, data, SuccessMessage(platform));
        }
    }
  }
}
