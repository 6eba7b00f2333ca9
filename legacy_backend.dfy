/**
 * The older download backend (`backend/main.py`): one handler that builds the
 * yt_dlp options from the requested kind, rewrites the prepared file name of an
 * MP3 download to end in `.mp3`, and answers with a success or error
 * `DownloadResponse`.
 * yt_dlp, the file system, `uuid` and base64 are outside the model: what they
 * produce is given to `DownloadMedia` as parameters.
 */
module LegacyBackend {
  import opened Wrappers
  import opened PosixPath
  import opened YtDlp
  import MediaApi

  /** The JSON body of `POST /download/`; `kind` is `'mp4'` or `'mp3'`. */
  datatype DownloadRequest = DownloadRequest(url: string, kind: MediaFormat)

  datatype Status = Success | Error

  /** The response model; `message` is optional. */
  datatype DownloadResponse = DownloadResponse(filename: string, data: string, status: Status, message: Option<string>)

  const SuccessMessage := "Downloaded successfully."
  const FailurePrefix := "Download failed: "

  /** The response built in the `except` branch for an exception whose text is `error`. */
  function ErrorResponse(error: string): (r: DownloadResponse)
    ensures r.status == Error && r.filename == [] && r.data == []
    ensures r.message.Some? && FailurePrefix <= r.message.value
    ensures r.message.value[|FailurePrefix|..] == error
  {
    DownloadResponse("", "", Error, Some(FailurePrefix + error))
  }

  // ---------------------------------------------------------------------------
  // Options
  // ---------------------------------------------------------------------------

  /** The `format` option: audio only for mp3, best video and audio for mp4. */
  function FormatSelector(kind: MediaFormat): string {
    if kind == Mp3 then "bestaudio/best" else "bestvideo+bestaudio/best"
  }

  /** The post-processors the handler ends up with: MP3 extraction for mp3, none for mp4. */
  function PostProcessorsFor(kind: MediaFormat): seq<PostProcessor> {
    if kind == Mp3 then [ExtractMp3Audio] else []
  }

  /** The complete `ydl_opts` for a kind and an output template. */
  function OptionsFor(kind: MediaFormat, template: string): Options {
    map[
      Format := Text(FormatSelector(kind)),
      OutTmpl := Text(template),
      PostProcessors := ProcessorList(PostProcessorsFor(kind))]
  }

  /** Builds `ydl_opts` as the handler does: the dictionary with an empty
      `postprocessors` list, then the MP3 extraction appended to that list for mp3. */
  method BuildOptions(kind: MediaFormat, template: string) returns (opts: Options)
    ensures opts == OptionsFor(kind, template)
  {
    var postprocessors: seq<PostProcessor> := [];
    opts := map[
      Format := Text(FormatSelector(kind)),
      OutTmpl := Text(template),
      PostProcessors := ProcessorList(postprocessors)];
    if kind == Mp3 {
      postprocessors := postprocessors + [ExtractMp3Audio];
      opts := opts[PostProcessors := ProcessorList(postprocessors)];
    }
    assert postprocessors == PostProcessorsFor(kind);
  }

  /** The format selector is the audio-only one exactly for mp3. */
  lemma FormatSelectorAudioIff(kind: MediaFormat)
    ensures FormatSelector(kind) == "bestaudio/best" <==> kind == Mp3
    ensures FormatSelector(kind) == "bestvideo+bestaudio/best" <==> kind == Mp4
  {
    assert "bestaudio/best"[0] != "bestvideo+bestaudio/best"[4];
  }

  /** The options name exactly the format, the template and the post-processors; the
      post-processor list is empty for mp4 and holds only the MP3 extraction (codec mp3,
      quality 192) for mp3. */
  lemma OptionsShape(kind: MediaFormat, template: string)
    ensures var opts := OptionsFor(kind, template);
      && opts.Keys == {Format, OutTmpl, PostProcessors}
      && opts[OutTmpl] == Text(template)
      && (kind == Mp4 ==> opts[PostProcessors] == ProcessorList([]))
      && (kind == Mp3 ==> opts[PostProcessors].entries == [PostProcessor("FFmpegExtractAudio", "mp3", "192")])
  {
  }

  /** Both backends extract MP3 audio with the same post-processor: the older backend's
      list for mp3 is the one `get_youtube_options` gives for mp3. */
  lemma SameAudioExtraction(template: string, cookie: OptionValue)
    ensures OptionsFor(Mp3, template)[PostProcessors] ==
      MediaApi.YouTubeOptions(template, Mp3, cookie)[PostProcessors]
  {
  }

  // ---------------------------------------------------------------------------
  // File name
  // ---------------------------------------------------------------------------

  const Mp3Suffix := ".mp3"

  /** `name.rsplit('.', 1)[0] + '.mp3'`: the name up to its last dot, or the whole name
      when it has none, followed by `.mp3`. What is cut off is empty or one dot followed
      by no other dot. */
  function Mp3Filename(name: string): (r: string)
    ensures |r| >= |Mp3Suffix| && r[|r| - |Mp3Suffix|..] == Mp3Suffix
    ensures var stem := r[..|r| - |Mp3Suffix|];
      && stem <= name
      && (|stem| == |name| || (name[|stem|] == ExtSep && ExtSep !in name[|stem| + 1..]))
  {
    var d := LastIndexOf(name, ExtSep);
    var stem := if d >= 0 then name[..d] else name;
    assert (stem + Mp3Suffix)[..|stem|] == stem;
    assert d >= 0 ==> name[d + 1..] == name[|stem| + 1..];
    stem + Mp3Suffix
  }

  /** The name the handler opens: the rewritten name for mp3, the prepared name for mp4. */
  function DownloadedName(kind: MediaFormat, prepared: string): string {
    if kind == Mp3 then Mp3Filename(prepared) else prepared
  }

  /** Replacing the extension: a name whose last dot starts `.ext` becomes the same stem
      with `.mp3`. */
  lemma Mp3FilenameReplacesExtension(stem: string, ext: string)
    requires ExtSep !in ext
    ensures Mp3Filename(stem + [ExtSep] + ext) == stem + Mp3Suffix
  {
    var name := stem + [ExtSep] + ext;
    assert name[|stem|] == ExtSep;
    assert forall j :: |stem| < j < |name| ==> name[j] == ext[j - |stem| - 1] && ext[j - |stem| - 1] in ext;
    assert LastIndexOf(name, ExtSep) == |stem|;
    assert name[..|stem|] == stem;
  }

  /** A name without a dot gets `.mp3` appended to the whole of it. */
  lemma Mp3FilenameAppends(name: string)
    requires ExtSep !in name
    ensures Mp3Filename(name) == name + Mp3Suffix
  {
    assert LastIndexOf(name, ExtSep) == -1;
  }

  /** Rewriting a rewritten name changes nothing. */
  lemma Mp3FilenameIdempotent(name: string)
    ensures Mp3Filename(Mp3Filename(name)) == Mp3Filename(name)
  {
    var r := Mp3Filename(name);
    var stem := r[..|r| - |Mp3Suffix|];
    assert r == stem + [ExtSep] + "mp3";
    Mp3FilenameReplacesExtension(stem, "mp3");
  }

  /** For the file yt_dlp names from the template, `temp_downloads/<id>.<ext>`, the mp3
      rewrite keeps the directory and the id and the response carries `<id>.mp3`. */
  lemma Mp3FilenameOfTemplateName(uniqueId: string, ext: string)
    requires ExtSep !in ext && Sep !in uniqueId
    ensures Mp3Filename(MediaApi.TempDir + "/" + uniqueId + "." + ext) == MediaApi.TempDir + "/" + uniqueId + Mp3Suffix
    ensures Basename(Mp3Filename(MediaApi.TempDir + "/" + uniqueId + "." + ext)) == uniqueId + Mp3Suffix
  {
    var stem := MediaApi.TempDir + "/" + uniqueId;
    assert MediaApi.TempDir + "/" + uniqueId + "." + ext == stem + [ExtSep] + ext;
    Mp3FilenameReplacesExtension(stem, ext);
    var p := stem + Mp3Suffix;
    var k := |MediaApi.TempDir|;
    assert p[k] == Sep;
    assert forall j :: k < j < |p| ==> p[j] != Sep by {
      assert forall j :: k < j < |p| ==> p[j] == (uniqueId + Mp3Suffix)[j - k - 1];
    }
    assert LastIndexOf(p, Sep) == k;
    assert p[k + 1..] == uniqueId + Mp3Suffix;
  }

  // ---------------------------------------------------------------------------
  // The handler
  // ---------------------------------------------------------------------------

  /** `download_media` (`POST /download/`). `prepared` is what `extract_info` followed by
      `prepare_filename` gives (the prepared name, or the text of the exception either
      raised); `fileData` is what reading, base64-encoding and removing the file give
      (the encoded data, or the text of the exception). The options and URL handed to
      yt_dlp are returned as `call`, and the name of the file opened, if any, as `openedFile`. */
  method DownloadMedia(request: DownloadRequest, uniqueId: string, prepared: Outcome<string>, fileData: Outcome<string>)
    returns (response: DownloadResponse, call: Call, openedFile: Option<string>)
    ensures call == Call(request.url, OptionsFor(request.kind, MediaApi.OutputTemplate(uniqueId)))
    ensures openedFile.Some? <==> prepared.Returned?
    ensures prepared.Returned? ==> openedFile.value == DownloadedName(request.kind, prepared.value)
    ensures response.status == Success <==> prepared.Returned? && fileData.Returned?
    ensures prepared.Raised? ==> response == ErrorResponse(prepared.message)
    ensures prepared.Returned? && fileData.Raised? ==> response == ErrorResponse(fileData.message)
    ensures response.status == Success ==>
      && response.filename == Basename(openedFile.value)
      && Sep !in response.filename
      && response.data == fileData.value
      && response.message == Some(SuccessMessage)
  {
    var template := MediaApi.OutputTemplate(uniqueId);
    var opts := BuildOptions(request.kind, template);
    call := Call(request.url, opts);
    openedFile := None;

    match prepared {
      case Raised(error) =>
        response := ErrorResponse(error);
      case Returned(name) =>
        var filename: string;
        if request.kind == Mp3 {
          filename := Mp3Filename(name);
        } else {
          filename := name;
        }
        openedFile := Some(filename);
        match fileData {
          case Raised(error) =>
            response := ErrorResponse(error);
          case Returned(data) =>
            response := DownloadResponse(Basename(filename), data, Success, Some(SuccessMessage));
        }
    }
  }
}
