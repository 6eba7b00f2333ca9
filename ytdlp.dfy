/**
 * The interface to yt_dlp as the handlers see it: the option dictionary handed to
 * `YoutubeDL`, and the record of one call to it. yt_dlp itself is not modelled;
 * what it returns is a parameter of each handler.
 */
module YtDlp {

  /** The requested container, `'mp4'` or `'mp3'`. */
  datatype MediaFormat = Mp4 | Mp3

  /** The option names the handlers use (`format`, `outtmpl`, `cookiefile`, `quiet`,
      `no_warnings`, `nocheckcertificate`, `postprocessors`, `merge_output_format`,
      `http_headers`). */
  datatype OptionKey =
    | Format | OutTmpl | CookieFile | Quiet | NoWarnings | NoCheckCertificate
    | PostProcessors | MergeOutputFormat | HttpHeaders

  /** An entry of the `postprocessors` option list. */
  datatype PostProcessor = PostProcessor(key: string, preferredCodec: string, preferredQuality: string)

  /** A value in the option dictionary. `NoneValue` is Python's `None`. */
  datatype OptionValue =
    | Text(text: string)
    | Flag(flag: bool)
    | NoneValue
    | ProcessorList(entries: seq<PostProcessor>)
    | HeaderMap(headers: map<string, string>)

  /** The `ydl_opts` dictionary. */
  type Options = map<OptionKey, OptionValue>

  /** The single post-processor both backends use for audio: extract MP3 at quality 192. */
  const ExtractMp3Audio := PostProcessor("FFmpegExtractAudio", "mp3", "192")

  /** What a handler hands to yt_dlp: the URL given to `extract_info` and the options
      given to `YoutubeDL`. */
  datatype Call = Call(url: string, options: Options)

  /** `opts.get(key)` in Python: the value, or `None` for a missing key. */
  function Get(opts: Options, key: OptionKey): OptionValue {
    if key in opts then opts[key] else NoneValue
  }

  /** `after` is `before` with the entry `key` deleted exactly when its value is `None`,
      every other entry left as it was. */
  ghost predicate NoneEntryDeleted(before: Options, after: Options, key: OptionKey) {
    && after.Keys == (if Get(before, key) == NoneValue then before.Keys - {key} else before.Keys)
    && forall k :: k in after ==> after[k] == before[k]
  }

  /** Deleting an entry whose value is `None`, as `if opts.get(key) is None: del opts[key]`
      does, leaves every other entry alone. */
  lemma DeleteNoneEntry(before: Options, key: OptionKey)
    requires key in before
    ensures NoneEntryDeleted(before, if Get(before, key) == NoneValue then before - {key} else before, key)
  {
  }
}
