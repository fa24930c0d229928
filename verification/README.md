# Spotify track downloader: verified model of its logic

The application is a browser front end. A user pastes a Spotify track link.
The application extracts the track identifier and asks a lookup service for a
direct download link. It then streams the audio through a relay and saves it as
`<title> - <artist>.mp3`. This project models the parts of that flow that are
plain logic, and proves what they promise:

- `TrackId` (`track_id.dfy`) models `extractSpotifyTrackId` and `validateSpotifyUrl`.
  The regular expression `track[:/]([a-zA-Z0-9]+)` becomes a scanning function
  over `seq<char>`: `FindMatch` finds the leftmost start and `RunEnd` takes the
  greedy run. A declarative predicate, `ExtractSpec`, states the meaning
  independently. It is `None` when no index matches. Otherwise it is the maximal
  alphanumeric run after the leftmost index `i` with `track` at `i`, `:` or `/`
  at `i+5`, and an identifier character at `i+6`. The scan is proved equal to
  that predicate in both directions. The `try`/`catch` is modelled by an input
  that may be a non-string value, which yields `None`.
- `Chunks` (`chunks.dfy`) holds bytes, chunks, their total length and their
  in-order flattening, with the lemmas that place every chunk at its offset.
- `Download` (`download.dfy`) models `downloadFile`. The fetch through the relay
  is an abstract `FetchOutcome`: the request rejected, or a response with a
  status, an optional `content-length` header and a body. The body is either
  unreadable or a sequence of chunks, possibly ended by a read error.
  - `ReadBody` is the read loop with its running `receivedLength`.
  - `Concatenate` is the copy into one array, using a `position` cursor and loop
    invariants.
  - `DownloadFile` strings together the status check, the reader check, the
    empty-buffer check and the single "save" effect, which happens only on the
    `true` path.
- `App` (`app.dfy`) models the submit handler in `App.tsx`:
  - the validate-before-lookup guard;
  - the canonical track link;
  - the acceptance test on the lookup answer;
  - the file-name sanitisation;
  - the error-to-message mapping;
  - the "Download Again" button. That button passes the *unsanitised* name
    `${title} - ${artist}.mp3`. The model keeps this asymmetry
    (`DownloadAgain`, `DownloadAgainNameDiffers`).
- `Scenarios` (`scenarios.dfy`) holds worked examples on concrete inputs.

The network, the clock, the notifications and the browser's save machinery are
parameters or report fields; nothing in the model performs I/O.

The submit handler builds `${title} - ${artist}.mp3` before replacing the
reserved characters, so the title `AC/DC: Thunder?` by `Rock` is saved as
`AC_DC_ Thunder_ - Rock.mp3` (`Scenarios.SanitizedFileNameExample`).
`downloadFile` catches every failure, shows its own notification and returns
`false`. The submit handler therefore raises no error notification of its own
once a download has started: `HandleDownload` reports `errorNotice == None`
whenever a download was requested.

## Model

| member | source | states |
|---|---|---|
| TrackId.FindMatch | src/utils/spotifyHelper.ts:6 | returns the leftmost index at or after `from` where `track`, a `:` or `/`, and an identifier character start; `None` only when no such index exists |
| TrackId.RunEnd | src/utils/spotifyHelper.ts:6 | the greedy `+` stops at the end of the maximal run of `[a-zA-Z0-9]` characters: every character before the end is alphanumeric and the end is the string's end or a non-alphanumeric character |
| TrackId.ScanTrackId | src/utils/spotifyHelper.ts:6-7 | the match result satisfies the declarative leftmost-greedy definition; any identifier returned is non-empty and purely ASCII alphanumeric |
| TrackId.ExtractTrackId | src/utils/spotifyHelper.ts:1-11 | a value that makes `match` throw yields `None` (never an exception); a string yields exactly the declarative match |
| TrackId.ExtractSpecUnique | src/utils/spotifyHelper.ts:6-7 | the leftmost-match, greedy-capture rules determine at most one result |
| TrackId.ExtractMatchesSpec | src/utils/spotifyHelper.ts:6-7 | a result satisfies the declarative match if and only if it is the extractor's result |
| TrackId.ValidateUrl | src/utils/spotifyHelper.ts:13-16 | the validator holds exactly when extraction returns an identifier; the `length > 0` test never rejects one, because the `+` captures at least one character |
| TrackId.ValidIffFound | src/utils/spotifyHelper.ts:6-16 | a text is valid iff the pattern `track[:/][a-zA-Z0-9]` occurs somewhere in it |
| TrackId.ExtractAfterPrefix | src/utils/spotifyHelper.ts:6 | the identifier after the first `track` plus separator is found whatever follows it, provided the next character is not alphanumeric |
| TrackId.ExtractWebUrl | src/utils/spotifyHelper.ts:3-6 | `https://open.spotify.com/track/<id><rest>` yields `<id>` for every non-empty alphanumeric id and every query or fragment `<rest>` |
| TrackId.ExtractUri | src/utils/spotifyHelper.ts:3-6 | `spotify:track:<id><rest>` yields `<id>` |
| TrackId.ExtractDocumentedForms | src/utils/spotifyHelper.ts:3-7 | the two example references in the source's comments both yield `2gi4stMxjTzP10fUaU0U4t` |
| TrackId.ExtractRejectsNonTrackForms | src/utils/spotifyHelper.ts:6-10 | a playlist link and an upper-case `TRACK/` yield `None` (matching is case-sensitive); neither a playlist link nor a non-string value validates |
| TrackId.ExtractSkipsEmptyOccurrence | src/utils/spotifyHelper.ts:6 | an earlier `track/` followed by a non-alphanumeric character is skipped and the next occurrence is used |
| Chunks.TotalLength | src/utils/downloadHelper.ts:42 | `receivedLength` after all chunks: the sum of their lengths. Its properties are stated by `Chunks.TotalLengthMonotone` and `Chunks.FlattenLength` |
| Chunks.Flatten | src/utils/downloadHelper.ts:52-57 | the chunks joined in arrival order, which the copy loop builds. Its properties are stated by `Chunks.FlattenPrefix`, `Chunks.FlattenPlacesChunk` and `Download.Concatenate` |
| Chunks.FlattenLength | src/utils/downloadHelper.ts:52-57 | the in-order concatenation of the chunks is exactly as long as the sum of their lengths |
| Chunks.TotalLengthMonotone | src/utils/downloadHelper.ts:42 | the running received length never decreases as chunks arrive |
| Chunks.FlattenPrefix | src/utils/downloadHelper.ts:54-57 | the bytes copied after the first `i` chunks are a prefix of the final buffer |
| Chunks.FlattenPlacesChunk | src/utils/downloadHelper.ts:54-57 | chunk `k` occupies the buffer from offset "sum of the lengths of the chunks before it" for exactly its own length |
| Download.ReadBody | src/utils/downloadHelper.ts:32-49 | the read loop stores every chunk in arrival order with none dropped or reordered; `receivedLength` ends as the sum of their lengths; there is one progress report per chunk, giving the bytes received so far, when the content-length header is a non-empty string, and none otherwise |
| Download.ProgressNonDecreasing | src/utils/downloadHelper.ts:42-48 | the reported progress never decreases and its last value is the full byte count |
| Download.RoundedPercent | src/utils/downloadHelper.ts:46-47 | `Math.round(received / total * 100)`, as round-half-up of the exact quotient. Its properties are stated by `Download.RoundedPercentProperties` |
| Download.RoundedPercentProperties | src/utils/downloadHelper.ts:46-47 | the rounded percentage, taken exactly, never decreases as bytes arrive, stays within 100 while within the declared total, and is 100 at the total |
| Download.CopyInto | src/utils/downloadHelper.ts:55 | `set(chunk, position)` writes the chunk at `position` and leaves every byte before and after that range untouched |
| Download.ChunkFits | src/utils/downloadHelper.ts:53-57 | each chunk fits in the buffer after the bytes already copied, and copying it advances `position` by its length |
| Download.Concatenate | src/utils/downloadHelper.ts:51-57 | the buffer has length exactly `receivedLength` and equals the in-order flattening of the chunks |
| Download.DecimalString | src/utils/downloadHelper.ts:18 | the status is rendered as a non-empty string of decimal digits without a leading zero |
| Download.DecimalRoundTrip | src/utils/downloadHelper.ts:18 | the rendered status reads back as the same number |
| Download.HttpErrorMessage | src/utils/downloadHelper.ts:17-18 | the message is `HTTP error! status: ` followed by decimal digits only, which read back as the response status |
| Download.HttpErrorMessageInjective | src/utils/downloadHelper.ts:18 | two statuses give the same message iff they are equal |
| Download.IsOkStatus | src/utils/downloadHelper.ts:17 | `response.ok`: the status lies in 200 to 299. Its consequences are stated by `Download.DownloadFile` |
| Download.HasDeclaredLength | src/utils/downloadHelper.ts:45 | the `if (contentLength)` test: the header is present and non-empty. Its consequences are stated by `Download.ReadBody` |
| Download.FailureNotice | src/utils/downloadHelper.ts:84-89 | `Download failed: ` followed by an `Error`'s own message, or `Failed to download the file` for any other thrown value. Its use on each failure path is stated by `Download.DownloadFile` |
| Download.Delivers | src/utils/downloadHelper.ts:17-64 | the outcome on which every check of `downloadFile` passes: ok status, a reader, no read error, at least one byte. `Download.DownloadFile` returns true iff it holds |
| Download.DownloadFile | src/utils/downloadHelper.ts:3-91 | returns true iff a file is saved, iff the fetch outcome delivers a non-empty body with an ok status and no read error. A rejected fetch, a non-2xx status and a missing reader fail with their messages, without progress or save. A read error fails. An empty assembled buffer fails even after status 200. Otherwise the file saved is the flattened chunks, under the given name, typed `audio/mpeg` |
| App.SanitizeFileName | src/App.tsx:64 | the result has the input's length; each of the nine reserved characters (less-than, greater-than, colon, double quote, slash, backslash, vertical bar, question mark, asterisk) becomes `_` and every other character is kept |
| App.SanitizeRemovesReserved | src/App.tsx:64 | no reserved character remains after sanitisation |
| App.SanitizeIdempotent | src/App.tsx:64 | sanitising twice equals sanitising once |
| App.SanitizeFixesCleanNames | src/App.tsx:64 | a name is unchanged by sanitisation iff it contains no reserved character |
| App.SanitizeConcat | src/App.tsx:64 | sanitisation distributes over concatenation |
| App.RawFileName | src/App.tsx:128 | the unsanitised `${title} - ${artist}.mp3`. How it differs from the sanitised name is stated by `App.DownloadAgainNameDiffers` |
| App.SanitizedFileName | src/App.tsx:64 | the file name of the first download has the raw name's length and contains none of the nine reserved characters |
| App.SanitizedFileNameShape | src/App.tsx:64 | the file name is the sanitised title, ` - `, the sanitised artist and `.mp3`: the separator and the extension survive the replacement |
| App.CanonicalTrackUrl | src/App.tsx:45-46 | for every identifier the extractor can return, the link `https://open.spotify.com/track/<id>` sent to the lookup service extracts back to `<id>` |
| App.CanonicalUrlRoundTrip | src/App.tsx:36-46 | for any link the validator accepts, whatever its form, the canonical link built from its identifier is valid and extracts to the same identifier |
| App.ResponseAccepted | src/App.tsx:59-61 | `response.data?.success && response.data?.data?.downloadLink` is truthy: the body is present, `success` is true, and `data` carries a non-empty link. Its consequences are stated by `App.HandleDownload` |
| App.ErrorMessage | src/App.tsx:78-93 | `ECONNABORTED` gives the timeout text whatever the status; otherwise 429, 403 and 404 give their texts; everything else, including errors that are not axios errors, gives the generic text (each direction stated) |
| App.HandleDownload | src/App.tsx:33-99 | an invalid URL returns before any lookup or download. A valid one sends the canonical link. A download starts iff the answer has `success` and a non-empty `downloadLink`. It uses that link and the sanitised name. It succeeds iff the fetch outcome delivers, and a file is saved iff it succeeds: the flattened chunks, typed `audio/mpeg`, under the sanitised name. A lookup error or an unacceptable answer gives the mapped or generic text. Song data is stored iff the download succeeded |
| App.DownloadAgain | src/App.tsx:128 | the repeat download requests the stored `downloadUrl`. It succeeds iff the fetch outcome delivers, and a file is saved iff it succeeds: the flattened chunks, typed `audio/mpeg`, under the raw, unsanitised `${title} - ${artist}.mp3` |
| App.DownloadAgainNameDiffers | src/App.tsx:64-128 | whenever the title holds a reserved character, the repeat download's name keeps it and so differs from the first download's name |
| Scenarios.SanitizeExampleTitle | src/App.tsx:64 | `AC/DC: Thunder?` sanitises to `AC_DC_ Thunder_` |
| Scenarios.SanitizedFileNameExample | src/App.tsx:64 | title `AC/DC: Thunder?` with artist `Rock` gives `AC_DC_ Thunder_ - Rock.mp3` |
| Scenarios.UriExample | src/utils/spotifyHelper.ts:5-6 | `spotify:track:4uLU6hMCjMI75M1A2tKUQC` yields `4uLU6hMCjMI75M1A2tKUQC` |
| Scenarios.ErrorMessageExamples | src/App.tsx:79-90 | 403 gives the access-denied text; a timeout with status 404 gives the timeout text; 500 and non-axios errors give the generic text |

## Left out

- The network calls are parameters: the axios lookup, its credential headers and its 30-second timeout, and the `fetch` through the relay. The relay URL and its `encodeURIComponent` are not modelled. A timeout appears only as the `ECONNABORTED` code of a failed lookup.
- Blob creation, `createObjectURL`/`revokeObjectURL` and the anchor append/click/remove are one `SavedFile` effect on the success path. Exceptions thrown by those browser APIs are not modelled.
- Notifications (`toast.loading`/`success`/`dismiss`), `console.error` and the `loading` flag are not modelled. What remains is the final notification text of `downloadFile` and the handler's own error notification.
- React state: `HandleReport.songData` is `None` when the handler leaves the stored song data as it was.
- `Download.RoundedPercentProperties`: the progress value is stated in exact rational arithmetic, as round-half-up of `received * 100 / total`, for a declared total greater than zero. The model leaves out `parseInt` of the header, floating-point error, and the division by zero when the header is `"0"`.
- JavaScript strings are UTF-16 code units; the model uses Dafny characters. The pattern only tests ASCII characters, so the result is the same for ASCII input.
- JavaScript truthiness is modelled only where the code relies on it for strings: the `content-length` header and `downloadLink`. A non-boolean `success` field and missing `title`/`artist` fields (which would render as `undefined`) are not modelled.
- `src/components/DownloadForm.tsx` and `src/components/Header.tsx` are presentation only and are not part of this model.
