# Media download backends: a Dafny model

PasteLink-And-Get downloads a video or its audio from a pasted link and returns
the file base64-encoded in JSON. Two Python backends do the work:

- `main.py` is the current FastAPI backend. It strips the URL and rejects an
  empty one. It detects the platform from the URL: Instagram markers first,
  then YouTube, otherwise unsupported. It builds the per-platform yt_dlp
  options and deletes a `None` cookie-file entry. After the download it
  sanitises the title and names the result `<title>.<ext>`. It maps yt_dlp
  errors to user-facing messages.
- `backend/main.py` is the older backend. It builds the options from the
  requested kind (`mp4`/`mp3`). For an MP3 download it rewrites the prepared
  file name to end in `.mp3`, the name of the file the audio post-processor
  writes.
  It answers `Downloaded successfully.` or `Download failed: <error>`.

The model has six modules:

- `Wrappers`: `Option`, and `Outcome`, the result of a foreign call that
  returns or raises.
- `Text`: the Python string builtins used, on ASCII: `in`, `lower`,
  `capitalize` and `strip`.
- `PosixPath`: `os.path.join` of two parts, `basename`, `splitext`, and
  `lstrip` of one character. `LastIndexOf` is the last index of a
  character: the split point of `rsplit('.', 1)` and the search `posixpath`
  makes inside `basename` and `splitext`.
- `YtDlp`: the option dictionary (a map from option keys to values) and
  the record of a call to yt_dlp.
- `MediaApi`: `main.py`.
- `LegacyBackend`: `backend/main.py`.

yt_dlp, the file system, `uuid` and base64 are not executed by the model.
What they produce is a parameter of each handler method. A handler returns
the URL and options it gives yt_dlp as a `Call` record, beside the
response.

## Model

| member | source | states |
|---|---|---|
| Text.Contains | main.py:63-65 | Python's `t in s`; no contract of its own: `ContainsIff` states it holds exactly when `t` occurs at some index |
| Text.ContainsIff | main.py:63-65 | Python's `t in s` holds exactly when `t` occurs at some index of `s` |
| Text.ContainsLower | main.py:61-65 | a substring of the URL, lowered, is a substring of the lowered URL |
| Text.Lower | main.py:61 | `lower()` keeps the length and lowers each character in place |
| Text.LowerIdempotent | main.py:61 | lowering twice is lowering once |
| Text.Capitalize | main.py:278 | `capitalize()` upper-cases the first character and lowers the rest |
| Text.Strip | main.py:193 | `strip()` returns an infix with no whitespace at either end, and only whitespace was removed on each side |
| Text.StripEmptyIff | main.py:193-197 | the stripped URL is empty exactly when the URL is all whitespace |
| Text.StripFixedIff | main.py:245 | `strip()` leaves a string unchanged exactly when it has no whitespace at either end |
| PosixPath.LastIndexOf | backend/main.py:63 | the split point of `rsplit('.', 1)`: -1, or an index holding the character with no occurrence after it |
| PosixPath.Join | main.py:221 | `os.path.join(a, b)` is `b` when `b` is absolute; otherwise it is `a + b` when `a` is empty or ends in a separator, and `a`, one separator and `b` when it does not |
| PosixPath.Basename | backend/main.py:72 | `basename` is a suffix of the path with no separator, preceded by a separator when shorter than the path |
| PosixPath.SplitExt | main.py:260 | `splitext` gives a root and an extension that concatenate to the path; the extension is empty or one dot followed by no dot or separator |
| PosixPath.SplitExtIff | main.py:260 | the extension `splitext` returns is non-empty exactly when the path has an extension in that sense |
| PosixPath.ExtensionStart | main.py:260 | the extension starts at a dot with nothing but non-dot, non-separator characters after it |
| PosixPath.ExtensionStartIff | main.py:260 | `splitext` finds an extension exactly when some dot of the last path component has a non-dot character before it in that component, and the extension then starts at the last dot |
| PosixPath.LStripChar | main.py:260 | `lstrip('.')` removes a prefix of dots and leaves a suffix not starting with a dot |
| PosixPath.ExtensionOf | main.py:260 | the actual extension has no dot or separator and, when not empty, ends the path after a dot |
| PosixPath.ExtensionOfIff | main.py:260 | the actual extension is everything after the last dot when the path has an extension, and empty when it has none |
| PosixPath.ExtensionAfterLastDot | main.py:260 | after the last dot of a last component not starting there, the extension is everything after that dot |
| PosixPath.NoExtensionAfterLeadingDot | main.py:260 | a name whose only dot is its first character has no extension |
| YtDlp.DeleteNoneEntry | main.py:235-236 | deleting `cookiefile` when it is `None` removes that key alone and changes no other entry |
| MediaApi.PlatformTag | main.py:64-68 | the tag `detect_platform` returns, which main.py:278 capitalises; no contract of its own: `SuccessMessageYouTube` and `SuccessMessageInstagram` state what it gives there |
| MediaApi.DetectPlatform | main.py:51-68 | `detect_platform`; no contract of its own: `DetectPlatformSpec` and the three lemmas after it state its result |
| MediaApi.DetectPlatformSpec | main.py:61-68 | Instagram exactly when an Instagram marker occurs in the lowered URL; YouTube exactly when none does and a YouTube marker does; unsupported exactly when neither does |
| MediaApi.DetectPlatformIgnoresCase | main.py:61 | a URL and its lowered form are detected alike |
| MediaApi.InstagramMarkerInAnyCase | main.py:63-64 | an Instagram marker in any case gives Instagram, whatever YouTube markers also occur |
| MediaApi.YouTubeMarkerInAnyCase | main.py:65-66 | without an Instagram marker, a YouTube marker in any case gives YouTube |
| MediaApi.EmptyUrlUnsupported | main.py:65-68 | the empty URL is unsupported |
| MediaApi.YouTubeOptions | main.py:71-110 | `get_youtube_options`; no contract of its own: `PlatformOptionsCookie`, `YouTubeOptionsShape` and `ExpectedExtensionMatchesOptions` state its format selector, template, cookie, post-processor and merge entries; the three quiet/no-warnings/no-certificate-check flags have no lemma |
| MediaApi.InstagramOptions | main.py:113-136 | `get_instagram_options`; no contract of its own: `PlatformOptionsCookie` and `InstagramOptionsShape` state its format selector, template, cookie, header, post-processor and merge entries; the three quiet/no-warnings/no-certificate-check flags have no lemma |
| MediaApi.CookieValue | main.py:82-88 | the `cookiefile` value: the file in the working directory when it exists, else `None`; no contract of its own: `PlatformOptionsCookie` states it for both platforms (also main.py:124-129) |
| MediaApi.PlatformOptions | main.py:227-231 | the option builder chosen by platform; no contract of its own: `PlatformOptionsCookie`, `YouTubeOptionsShape`, `InstagramOptionsShape` and `ExpectedExtensionMatchesOptions` state it, and `SelectOptions` and `DownloadMedia` are stated against it |
| MediaApi.OutputTemplate | main.py:221 | for an id that is not an absolute path, the output template is `temp_downloads/<id>.%(ext)s` |
| MediaApi.PlatformOptionsCookie | main.py:82-129 | every option set has an output template and a `cookiefile` entry; the entry is `None` exactly when the platform's cookie file is missing, else it names that file in the working directory |
| MediaApi.YouTubeOptionsShape | main.py:84-110 | YouTube mp3 options select `bestaudio/best` and mp4 options the best MP4 video with M4A audio; mp3 options carry only the MP3 extraction post-processor (mp3, 192) and no merge format; mp4 options merge into mp4 and carry no post-processor |
| MediaApi.InstagramOptionsShape | main.py:113-136 | Instagram options select `best[ext=mp4]/best`, send the desktop browser User-Agent header, and carry neither a merge format nor post-processors |
| MediaApi.ExpectedExtension | main.py:227-232 | `expected_ext`; no contract of its own: `ExpectedExtensionMatchesOptions` ties it to the options |
| MediaApi.ExpectedExtensionMatchesOptions | main.py:227-232 | `expected_ext` is mp3 exactly when the options extract MP3 audio, and mp4 exactly when they merge into mp4 or select Instagram's mp4 |
| MediaApi.IsTitleChar | main.py:245 | the filter test: an ASCII letter or digit, a space, `-` or `_`; no contract of its own: `KeepTitleCharsOne` states that the filter keeps exactly these |
| MediaApi.KeepTitleChars | main.py:245 | the filter keeps only letters, digits, space, `-` and `_`, and never lengthens the title |
| MediaApi.KeepTitleCharsOne | main.py:245 | one character is kept exactly when it is a letter, a digit, a space, `-` or `_` |
| MediaApi.KeepTitleCharsAppend | main.py:245 | filtering a concatenation concatenates the filtered parts, so every kept character survives in order |
| MediaApi.KeepTitleCharsUnchanged | main.py:245 | the filter leaves a title of kept characters unchanged |
| MediaApi.SafeTitle | main.py:245-246 | the sanitised title holds only kept characters, does not start with whitespace and is at most 100 long |
| MediaApi.SafeTitleFixedIff | main.py:245-246 | the sanitiser leaves a title unchanged exactly when it is clean: kept characters only, trimmed, at most 100 long |
| MediaApi.SafeTitleIdempotentWhenShort | main.py:245-246 | when stripping leaves at most 100 characters, sanitising twice is sanitising once |
| MediaApi.SafeTitleMayEndInSpace | main.py:245-246 | cutting after stripping can leave a trailing space, so sanitising is not idempotent on long titles |
| MediaApi.FinalFilename | main.py:269 | `f"{safe_title}.{actual_ext}"`; no contract of its own: `FinalFilenameIsBare`, `FinalFilenameExtension` and `EmptyTitleHidesExtension` state its properties |
| MediaApi.FinalFilenameIsBare | main.py:269 | the final file name has no directory part |
| MediaApi.FinalFilenameExtension | main.py:260-269 | with a non-empty title, `splitext` finds in the final name the extension it was built with |
| MediaApi.EmptyTitleHidesExtension | main.py:260-269 | with an empty title the final name is `.ext`, in which `splitext` finds no extension |
| MediaApi.DownloadedExtension | main.py:221 | the file written from the template, `temp_downloads/<id>.<ext>`, has extension `<ext>` |
| MediaApi.SuccessMessage | main.py:278 | `f"Successfully downloaded from {platform.capitalize()}"`; no contract of its own: `SuccessMessageYouTube` and `SuccessMessageInstagram` state both messages |
| MediaApi.SuccessMessageYouTube | main.py:278 | the YouTube message is "Successfully downloaded from Youtube", with the lower-case "t" that `capitalize` gives |
| MediaApi.SuccessMessageInstagram | main.py:278 | the Instagram message is "Successfully downloaded from Instagram" |
| MediaApi.DownloadErrorMessage | main.py:283-290 | the message for a `DownloadError`; no contract of its own: `DownloadErrorMessageOrder`, `DownloadErrorMessageReported` and `AuthRequiredMessageNamesCookies` state it |
| MediaApi.DownloadErrorMessageOrder | main.py:283-290 | first match wins: the private message exactly when "Private video" occurs; the unavailable message exactly when it does not and "Video unavailable" does; the authentication message exactly when neither does and "Sign in" or a case-insensitive "login" does |
| MediaApi.DownloadErrorMessageReported | main.py:283-290 | the error text reads back from the message exactly when no private, unavailable or sign-in condition matched; the fixed messages never look like a "Download failed: " one |
| MediaApi.AuthRequiredMessage | main.py:288 | the authentication message; no contract of its own: `AuthRequiredMessageNamesCookies` states that it names the platform's cookie file, and `DownloadErrorMessageOrder` when it is given |
| MediaApi.AuthRequiredMessageNamesCookies | main.py:287-288 | the authentication message names the cookie file of the URL's platform |
| MediaApi.TitleOrDefault | main.py:243 | `info.get('title', 'download')`; no contract of its own: the success clause of `MediaApi.DownloadMedia` states that the sanitised title comes from it |
| MediaApi.ErrorResponse | main.py:198-214 | the error response shape (also main.py:252-257 and 294-309); no contract of its own: the first clause of `MediaApi.DownloadMedia` states that every error response has an empty file name and data |
| YtDlp.Get | main.py:235 | `ydl_opts.get(key)`, `None` for a missing key; no contract of its own: `DeleteNoneEntry` and the shape lemmas are stated with it |
| MediaApi.SelectOptions | main.py:227-236 | the options are the platform's with `cookiefile` deleted exactly when `None`; the key remains exactly when the cookie file exists; `expected_ext` is the platform's |
| MediaApi.DownloadMedia | main.py:193-309 | error responses have empty file name and data; an empty URL and an unsupported URL are rejected before any call; the call gets the stripped URL and the platform's options; each failure gets its message; success happens exactly when extraction, file lookup and reading all succeed, and carries the sanitised title with the actual extension, as a bare name, and the platform message |
| LegacyBackend.ErrorResponse | backend/main.py:77-83 | an error response has status error, empty file name and data, and a "Download failed: " message from which the exception text reads back |
| LegacyBackend.FormatSelector | backend/main.py:48 | the `format` option; no contract of its own: `FormatSelectorAudioIff` states it |
| LegacyBackend.PostProcessorsFor | backend/main.py:50-57 | the final post-processor list; no contract of its own: `OptionsShape` and `SameAudioExtraction` state it |
| LegacyBackend.OptionsFor | backend/main.py:47-57 | the complete `ydl_opts`; no contract of its own: `OptionsShape` states its keys and entries, and `BuildOptions` is proved to build it |
| LegacyBackend.BuildOptions | backend/main.py:47-57 | the options built with the in-place append are the format selector, the template and the post-processors for the kind |
| LegacyBackend.FormatSelectorAudioIff | backend/main.py:48 | the format selector is `bestaudio/best` exactly for mp3 and `bestvideo+bestaudio/best` exactly for mp4 |
| LegacyBackend.OptionsShape | backend/main.py:47-57 | the options hold exactly format, template and post-processors; the list is empty for mp4 and holds the one MP3 extraction (mp3, 192) for mp3 |
| LegacyBackend.SameAudioExtraction | backend/main.py:52-57 | the older backend's mp3 post-processors equal those of the current backend's YouTube mp3 options |
| LegacyBackend.Mp3Filename | backend/main.py:63 | the rewritten name ends in `.mp3` after a prefix of the prepared name; what was cut off is nothing or one last dot and what follows it |
| LegacyBackend.DownloadedName | backend/main.py:62-65 | the name the handler opens; no contract of its own: `LegacyBackend.DownloadMedia` states that it is the opened file, and the `Mp3Filename` lemmas state its value |
| LegacyBackend.Mp3FilenameReplacesExtension | backend/main.py:63 | a name `stem.ext` becomes `stem.mp3` |
| LegacyBackend.Mp3FilenameAppends | backend/main.py:63 | a name without a dot gets `.mp3` appended |
| LegacyBackend.Mp3FilenameIdempotent | backend/main.py:63 | rewriting a rewritten name changes nothing |
| LegacyBackend.Mp3FilenameOfTemplateName | backend/main.py:45-72 | for `temp_downloads/<id>.<ext>` the rewrite gives `temp_downloads/<id>.mp3` and the response name `<id>.mp3` |
| LegacyBackend.DownloadMedia | backend/main.py:47-83 | the call gets the URL unchanged and the kind's options; the opened file is the prepared name, rewritten for mp3; success happens exactly when preparing and reading succeed, and gives the base name, which has no separator, the data and "Downloaded successfully."; each exception gives its error response |

## Left out

- yt_dlp (`YoutubeDL`, `extract_info`, `prepare_filename`) is a foreign library. What it does is a parameter of the handlers: an `Extraction` in `main.py`, and the prepared name or the exception text in `backend/main.py`.
- File system work is a parameter too, or left out. That covers `os.makedirs`, `glob` in `find_downloaded_file`, `open`/`read`, `os.remove`, `cleanup_file` and `os.path.exists`. Cookie-file existence is a field of `Environment`. Cleanup has no effect on the responses and is not modelled.
- `os.path` is modelled as `posixpath`, so the model assumes a POSIX host. On Windows `os.path` is `ntpath`, whose `join`, `basename` and `splitext` also treat `\` as a separator.
- `uuid.uuid4()` is nondeterministic; the unique id is a parameter.
- Base64 encoding is a library call on file bytes. The encoded text is the value of the `fileData` outcome.
- The FastAPI app, the CORS middleware, pydantic validation, the `/` and `/health` endpoints and `uvicorn.run` are framework plumbing. A request with a `format` other than mp4/mp3 never reaches the handler, so `MediaFormat` has just the two values.
- Text.Lower, Text.Strip, MediaApi.IsAlnum: `lower`, `isspace` and `isalnum` are ASCII approximations of Python's Unicode ones. Non-ASCII letters and digits are dropped from titles, and only ASCII whitespace is stripped.
- LegacyBackend.BuildOptions: the `postprocessors` list is appended to in place through the dictionary. The model builds a new sequence and stores it back into the map, so list aliasing is not captured.
- MediaApi.DownloadMedia: `expected_ext` is computed and never used by the source. It is returned by `SelectOptions` and related to the options by a lemma.
- MediaApi.DownloadMedia: a title of a type other than string or `None` is not modelled.
- MediaApi.DownloadMedia: `del ydl_opts["cookiefile"]` cannot raise `KeyError`, because both option builders always set that key (`PlatformOptionsCookie`). No error path is modelled for it.
- `find_downloaded_file` returning a file that no longer exists is folded into `found` being `None`: both give "Download completed but file not found".
