# transcript-worker: a Dafny model of its caption filter and response logic

The transcript worker is a one-endpoint HTTP service. `GET /api/transcript?url=…`
runs `yt-dlp` to fetch a video's English auto-captions as a WebVTT file, turns the
file into one line of plain text, and answers with JSON: either the transcript and
its length, or an `errorCode` with an HTTP status. This project models the
deterministic parts of `index.js`:

- `stripVttToPlainText` (module `Vtt`, file `vtt.dfy`). It splits the file on
  `\r?\n`, trims each line, and drops blank lines, the exact `WEBVTT` header, cue
  numbers and lines that start with a `HH:MM:SS.mmm --> HH:MM:SS.mmm` timing. It
  joins what is left with single spaces. The method `StripVttToPlainText` keeps the
  source's loop with its four `continue` guards. It is proved equal to the function
  `StripText`, and the lemmas state what that function keeps, in what order, and
  when it is empty.
- `isLikelyYoutubeUrl` (module `YoutubeHost`, file `youtube.dfy`). It is stated
  over the hostname that the URL parser yields, with `None` for a URL the parser
  rejects.
- The handler's chain of checks (module `TranscriptHandler`, file `handler.dfy`).
  `Respond` maps the query value and an `Environment` to a `Response`. The
  `Environment` holds what the parser, `fs.mkdtemp`, the `yt-dlp` process,
  `fs.readdir` and `fs.readFile` yield. `Respond` makes the checks in the source's
  order: missing URL, then not YouTube, then setup failure, then the process
  failure, classified from its stderr text, then the caption file.
- Module `Text` (file `text.dfy`) holds the JavaScript string operations the code
  uses: `trim`, `includes`, `endsWith`, `toLowerCase` and `join`. Module `Wrappers`
  holds `Option`.

`index.js` runs `yt-dlp` once with one fixed argument list; there are no retries.

To verify the project, run this from its directory (Dafny 4.11):

```
dafny verify wrappers.dfy text.dfy vtt.dfy youtube.dfy handler.dfy
```

## Model

| member | source | states |
|---|---|---|
| `Text.TrimStart` | index.js:91 | the result is the suffix of the input after a run of white space, and does not start with white space |
| `Text.TrimEnd` | index.js:91 | the result is the prefix of the input before a run of white space, and does not end with white space |
| `Text.Trim` | index.js:91 | the trimmed line is no longer than the line and is empty or has non-white-space characters at both ends; `TrimIsInfix` adds that it is the input with only white space cut from each end |
| `Text.TrimIsInfix` | index.js:91 | the trim is a contiguous slice of the string that ends where `TrimEnd` stops, and everything before and after that slice is white space |
| `Text.TrimEmptyIff` | index.js:120 | a string trims to the empty string exactly when it is all white space |
| `Text.TrimIgnoresPadding` | index.js:127 | white space before and after a string does not change its trim |
| `Text.ContainsIff` | index.js:108 | `includes` is true exactly when the needle occurs at some index of the string |
| `Text.Contains` | index.js:108 | defined as a scan of each start index for the needle; characterised by `ContainsIff` |
| `Text.EndsWith` | index.js:110 | defined as: the needle fits and the last characters equal it; `EndsWithContains` proves that a suffix is also contained |
| `Text.ToLower` | index.js:106 | defined as lower-casing each character in place; `YoutubeHost.ToLowerIdempotent` and `YoutubeHost.ToLowerAppend` state that it is idempotent and distributes over concatenation |
| `Text.Join` | index.js:100 | defined as the pieces with the separator between each two; `SplitLinesRoundTrip` uses it as the inverse of `SplitLines` |
| `Vtt.SplitLines` | index.js:84 | `split(/\r?\n/)` gives at least one piece, and no piece holds a line feed |
| `Vtt.SplitLinesRoundTrip` | index.js:84 | joining the pieces with LF gives back the input with each CR LF turned into LF |
| `Vtt.SplitAfterNormalize` | index.js:84 | splitting after CR LF has become LF gives as many lines, equal up to trailing white space |
| `Vtt.CrLfInsensitive` | index.js:84 | replacing every CR LF with LF in the file does not change the stripped text |
| `Vtt.SurvivorsUseTrimsOnly` | index.js:91 | two lists of lines of the same length whose trims agree line by line leave the same survivors |
| `Vtt.AllDigits` | index.js:94 | defined as: non-empty and every character is `0`-`9`; used by `IsCueText` to drop cue numbers |
| `Vtt.TimestampAt` | index.js:88 | defined as the twelve characters `\d{2}:\d{2}:\d{2}\.\d{3}` at a given index; both ends of `StartsWithTiming` and `TimingShape` use it |
| `Vtt.Survivors` | index.js:85-97 | defined as the trims of the lines filtered by `IsCueText`, the array `out` after the loop; characterised by `SurvivorsAreKeptLinesInOrder`, `SurvivorsAreTrimmed` and `SurvivorsEmptyIff`, and the loop invariant of `StripVttToPlainText` |
| `Vtt.StartsWithTiming` | index.js:87-95 | defined as the greedy match: a timestamp, the longest white-space run, `-->`, the longest white-space run, a timestamp; characterised by `StartsWithTimingIff` |
| `Vtt.IsCueText` | index.js:92-95 | defined as: not empty, not `WEBVTT`, not all digits and not a timing line; `StripTextEmptyIff` and `SurvivorsAreKeptLinesInOrder` say it decides which lines are kept |
| `Vtt.StripText` | index.js:83-101 | defined as the survivors of the split file joined with single spaces; characterised by `StripTextIsTrimmed`, `StripTextEmptyIff` and `CrLfInsensitive`, and computed by `StripVttToPlainText` |
| `Vtt.SkipWhitespace` | index.js:87-88 | a `\s+` run ends at the first non-white-space index, and everything before it is white space |
| `Vtt.StartsWithTimingIff` | index.js:87-88 | the greedy timing test accepts exactly a timestamp, white space, `-->`, white space and a timestamp at the start of the line |
| `Vtt.TimingIgnoresCueSettings` | index.js:95 | a timing line still matches with any text (cue settings) after its second timestamp, because the pattern is anchored at the start only |
| `Vtt.TimingLinesDropped` | index.js:87-95 | every line of two timestamps around an arrow, with any white space runs and any trailing settings, is dropped |
| `Vtt.OnlyExactHeaderDropped` | index.js:93-94 | a non-empty trimmed line that does not start with a digit is dropped exactly when it is `WEBVTT`, so `Kind: captions` or `WEBVTT - title` are kept |
| `Vtt.KindHeaderKept` | index.js:93 | the header line `Kind: captions` survives and `WEBVTT` does not |
| `Vtt.StripVttToPlainText` | index.js:83-101 | the loop with its four `continue` guards followed by `join(' ')` returns exactly `StripText` of the file |
| `Vtt.SurvivorsAreKeptLinesInOrder` | index.js:90-98 | output piece k is the trim of input line `KeptIndices[k]`; the indices increase; a line is used exactly when its trim is cue text; every piece is cue text |
| `Vtt.SurvivorsAreTrimmed` | index.js:91-97 | every surviving piece is non-empty and has no white space at either end |
| `Vtt.SurvivorsEmptyIff` | index.js:90-98 | no line survives exactly when no line's trim is cue text |
| `Vtt.StripTextIsTrimmed` | index.js:100 | the joined text equals its own trim |
| `Vtt.StripTextEmptyIff` | index.js:91-100 | the text is empty exactly when every line is blank, `WEBVTT`, a cue number or a timing line |
| `YoutubeHost.IsLikelyYoutubeUrl` | index.js:103-115 | defined as the three host tests on the lower-cased hostname, false when the parser throws; characterised by `YoutubeHostIff` |
| `YoutubeHost.YoutubeHostIff` | index.js:103-115 | the host test is true exactly when the lower-cased hostname contains `youtube.com` or equals `youtu.be`; the `.youtube.com` suffix test adds nothing; an unparseable URL is rejected |
| `YoutubeHost.HostCaseIgnored` | index.js:106 | a hostname and its lower-case form get the same answer |
| `YoutubeHost.ContainedYoutubeAccepted` | index.js:108 | any hostname with `youtube.com` inside it, in any letter case and whatever surrounds it, is accepted |
| `YoutubeHost.ShortLinkHost` | index.js:109 | `youtu.be`, in any letter case, is accepted |
| `TranscriptHandler.ErrorCode.Name` | index.js:117-277 | defined as the `errorCode` string the handler sends for each code, at lines 122, 131, 181, 195, 203, 219, 231, 256 and 275 |
| `TranscriptHandler.ErrorCode.Status` | index.js:117-277 | defined as the status the handler sends with each code, at lines 121, 130, 180, 194, 202, 218, 230, 255 and 274 |
| `TranscriptHandler.Response.StatusCode` | index.js:245 | defined as 200 for a transcript and the code's status otherwise; `TranscriptShape` proves 200 comes exactly with a transcript |
| `TranscriptHandler.Response.ErrorCodeField` | index.js:246 | defined as `null` (`None`) for a transcript and the code's name otherwise; `CaptionFileOutcome` and `TranscriptShape` state it is `null` on success |
| `TranscriptHandler.Respond` | index.js:117-260 | defined as the handler's checks in order; characterised by `MissingUrlFirst`, `InvalidUrlSecond`, `ExecDecides`, `CaptionFileOutcome` and `TranscriptShape` |
| `TranscriptHandler.FailureText` | index.js:176 | defined as stderr when it is not empty and the error message otherwise, lower-cased; `StderrOverridesMessage` states the fallback |
| `TranscriptHandler.MentionsNoSubtitles` | index.js:187-192 | defined as the four `includes` tests; `NoCaptionsPhraseRedundant` shows the fourth is implied by the third |
| `TranscriptHandler.TranscriptResponse` | index.js:228-249 | defined as `EMPTY_TRANSCRIPT` when the text trims to nothing and a transcript with its length otherwise; characterised by `TranscriptOutcome` |
| `TranscriptHandler.ClassifyExecFailure` | index.js:175-209 | a failed `yt-dlp` run always gives one of `YOUTUBE_RATE_LIMIT`, `NO_CAPTIONS` or `YTDLP_FAILED` |
| `TranscriptHandler.FindVttFile` | index.js:214 | `find` gives nothing exactly when no name ends in `.vtt`, and otherwise the first name that does |
| `TranscriptHandler.ReadCaptions` | index.js:211-260 | a clean `yt-dlp` run gives a transcript or one of `NO_VTT_FILE`, `EMPTY_TRANSCRIPT` or `FS_ERROR` |
| `TranscriptHandler.MissingUrlFirst` | index.js:120-125 | 400 `MISSING_URL` comes exactly when the parameter is absent, not a string or only white space, whatever the rest of the environment is |
| `TranscriptHandler.InvalidUrlSecond` | index.js:127-134 | for a non-blank URL, 400 `INVALID_URL` comes exactly when the host test rejects the hostname of the trimmed URL |
| `TranscriptHandler.UrlPaddingIgnored` | index.js:127 | white space around the URL does not change the response |
| `TranscriptHandler.ExecDecides` | index.js:175-211 | once the URL is accepted and the directory is made, the `exec` result alone chooses the failure or the success branch |
| `TranscriptHandler.ExecFailureOrder` | index.js:176-208 | the rate limit comes exactly when the message contains `http error 429`; `NO_CAPTIONS` exactly when it does not but mentions missing subtitles; `YTDLP_FAILED` exactly when neither |
| `TranscriptHandler.StderrOverridesMessage` | index.js:176 | when stderr is not empty, the error message plays no part |
| `TranscriptHandler.RateLimitWins` | index.js:176-185 | `HTTP Error 429` anywhere in stderr, in any letter case, gives 429 `YOUTUBE_RATE_LIMIT`, even next to a no-subtitles phrase |
| `TranscriptHandler.NoCaptionsPhraseRedundant` | index.js:187-192 | the phrase `no captions` adds nothing, because `no caption` already matches it |
| `TranscriptHandler.NoVttFileBeforeTranscript` | index.js:213-222 | `NO_VTT_FILE` comes exactly when no listed name ends in `.vtt`, whatever the files hold |
| `TranscriptHandler.TranscriptOutcome` | index.js:226-249 | a caption file that was read gives `EMPTY_TRANSCRIPT` exactly when no line is cue text, and otherwise the stripped text with its length |
| `TranscriptHandler.CaptionFileOutcome` | index.js:224-249 | on the full path to a read caption file: 502 `EMPTY_TRANSCRIPT` exactly when no line is cue text, and otherwise 200 with the text, its length and a null `errorCode` |
| `TranscriptHandler.TranscriptShape` | index.js:245-249 | status 200 comes exactly with a transcript, and the transcript is non-empty, already trimmed and carries its own length |

## Left out

- Express setup, CORS, JSON serialisation and `app.listen` (index.js:72-81, 281-282): HTTP I/O. The model gives status, `errorCode`, transcript and length. It does not give the `message` strings or `details.exitCode` of a `YTDLP_FAILED` body.
- Running `yt-dlp` and building its command line (index.js:141-146): an external process. Its outcome is the `exec` field of the `Environment`. The URL is placed between double quotes in a shell command without escaping; what the shell does with such a string is not part of this model.
- `fs.mkdtemp`, `readdir`, `readFile`, `rm` and the `finish` cleanup (index.js:139, 148-157, 213, 225, 262-273): file-system I/O. Their outcomes are inputs (`tempDirCreated`, `captionDir`). `tempDirCreated` is false when anything before the `exec` callback fails: `fs.mkdtemp`, building the command, or an `exec` call that throws at once. In each case the outer `catch` (index.js:262-277) answers 500 `WORKER_SETUP_FAILED`. Cleanup has no effect on the response, so it is not modelled.
- `new URL(...)` (index.js:105): a foreign parser. The `Environment` gives the hostname of each URL string, or `None` where the parser throws.
- `console` logging and the `slice(0, 400)` and `slice(0, 200)` previews (index.js:144, 159-173, 237-243): output only.
- The commented-out older version (index.js:1-68): dead code.
- Text.Trim: JavaScript's `trim()` and `\s` also remove Unicode white space such as U+00A0 and U+FEFF. The model removes only the six ASCII white-space characters. `\d` is ASCII-only in JavaScript, so digits need no such simplification.
- Text.ToLower: JavaScript lower-cases all of Unicode. The model lower-cases only `A`-`Z`.
- TranscriptHandler.TranscriptResponse, TranscriptHandler.TranscriptOutcome, TranscriptHandler.CaptionFileOutcome and TranscriptHandler.TranscriptShape: the length is the number of Dafny characters (Unicode scalar values). JavaScript's `text.length` counts UTF-16 code units, so the two differ for characters outside the Basic Multilingual Plane.
