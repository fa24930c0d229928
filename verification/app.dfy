/**
 The pure parts of the submit handler in `src/App.tsx`: the validate-before-lookup
 guard, the canonical track link sent to the lookup service, the acceptance test
 on its answer, the file-name sanitisation, the download call, and the mapping
 from a caught error to the notification text. The lookup request and the fetch
 are given as outcomes; React state and notifications become fields of a report.
 */
module App {
  import opened Optional
  import opened TrackId
  import Download
  import Chunks

  /** The characters `<>:"/\|?*`, which the file name may not contain. */
  predicate IsReservedChar(c: char) {
    c == '<' || c == '>' || c == ':' || c == '"' || c == '/' || c == '\\' || c == '|' || c == '?' || c == '*'
  }

  /** What `.replace(/[<>:"/\\|?*]/g, '_')` does to one character. */
  function ReplaceReserved(c: char): char {
    if IsReservedChar(c) then '_' else c
  }

  /** The global replacement of every reserved character by `_`. */
  function SanitizeFileName(name: string): (r: string)
    ensures |r| == |name|
    ensures forall i :: 0 <= i < |name| ==> r[i] == ReplaceReserved(name[i])
  {
    if |name| == 0 then []
    else [ReplaceReserved(name[0])] + SanitizeFileName(name[1..])
  }

  /** The file name before sanitisation: `${title} - ${artist}.mp3`. */
  function RawFileName(title: string, artist: string): string {
    title + " - " + artist + ".mp3"
  }

  /** The file name the submit handler passes to the download. */
  function SanitizedFileName(title: string, artist: string): (name: string)
    ensures |name| == |RawFileName(title, artist)|
    ensures forall i :: 0 <= i < |name| ==> !IsReservedChar(name[i])
  {
    SanitizeFileName(RawFileName(title, artist))
  }

  /** No reserved character survives sanitisation. */
  lemma SanitizeRemovesReserved(name: string)
    ensures forall i :: 0 <= i < |SanitizeFileName(name)| ==> !IsReservedChar(SanitizeFileName(name)[i])
  {
  }

  /** Sanitising twice is sanitising once. */
  lemma SanitizeIdempotent(name: string)
    ensures SanitizeFileName(SanitizeFileName(name)) == SanitizeFileName(name)
  {
  }

  /** A name is left unchanged exactly when it has no reserved character. */
  lemma SanitizeFixesCleanNames(name: string)
    ensures SanitizeFileName(name) == name <==> forall i :: 0 <= i < |name| ==> !IsReservedChar(name[i])
  {
    if SanitizeFileName(name) == name {
      forall i | 0 <= i < |name| ensures !IsReservedChar(name[i]) {
        assert SanitizeFileName(name)[i] == ReplaceReserved(name[i]);
      }
    }
  }

  /** Sanitisation works character by character, so it distributes over concatenation. */
  lemma SanitizeConcat(a: string, b: string)
    ensures SanitizeFileName(a + b) == SanitizeFileName(a) + SanitizeFileName(b)
  {
  }

  /** The sanitised file name keeps the shape of the raw one: the title and the
      artist are sanitised in place, and the ` - ` separator and the `.mp3`
      extension survive. */
  lemma SanitizedFileNameShape(title: string, artist: string)
    ensures SanitizedFileName(title, artist)
            == SanitizeFileName(title) + " - " + SanitizeFileName(artist) + ".mp3"
  {
    SanitizeConcat(title + " - " + artist, ".mp3");
    SanitizeConcat(title + " - ", artist);
    SanitizeConcat(title, " - ");
    assert SanitizeFileName(" - ") == " - ";
    assert SanitizeFileName(".mp3") == ".mp3";
  }

  /** The reference sent to the lookup service: `https://open.spotify.com/track/${trackId}`.
      For every identifier the extractor can return, the link extracts back to it. */
  function CanonicalTrackUrl(id: string): (url: string)
    ensures IsTrackIdShape(id) ==> ExtractTrackId(Text(url)) == Some(id)
  {
    ExtractWebUrl(id, "");
    assert WebPrefix + id + "" == WebPrefix + id;
    WebPrefix + id
  }

  /** Canonicalisation keeps the track: whatever form the user's link has, the
      canonical link built from its identifier is valid and names the same
      track. */
  lemma CanonicalUrlRoundTrip(url: string)
    requires ValidateUrl(Text(url))
    ensures ValidateUrl(Text(CanonicalTrackUrl(ExtractTrackId(Text(url)).value)))
    ensures ExtractTrackId(Text(CanonicalTrackUrl(ExtractTrackId(Text(url)).value))) == ExtractTrackId(Text(url))
  {
    var id := ExtractTrackId(Text(url)).value;
    ExtractMatchesSpec(url, Some(id));
  }

  /** The `data` object of the lookup service's answer. */
  datatype SongInfo = SongInfo(title: string, artist: string, cover: string, downloadLink: Option<string>)

  /** The answer's JSON body; `data` may be missing. */
  datatype LookupBody = LookupBody(success: bool, data: Option<SongInfo>)

  /** A value caught by the handler: an axios error with its `code` and, when a
      response came back, its HTTP status; or any other error. */
  datatype CaughtError = AxiosError(code: Option<string>, responseStatus: Option<int>) | OtherError

  /** What the lookup request produced: a thrown error, or a response whose
      `data` may be missing. */
  datatype LookupOutcome = LookupFailed(error: CaughtError) | LookupAnswered(body: Option<LookupBody>)

  /** `response.data?.success && response.data?.data?.downloadLink` is truthy. */
  predicate ResponseAccepted(body: Option<LookupBody>) {
    && body.Some?
    && body.value.success
    && body.value.data.Some?
    && body.value.data.value.downloadLink.Some?
    && |body.value.data.value.downloadLink.value| > 0
  }

  const InvalidUrlMessage: string := "Please enter a valid Spotify track URL"
  const GenericMessage: string := "An unexpected error occurred"
  const TimeoutMessage: string := "Request timed out. Please try again."
  const RateLimitMessage: string := "Too many requests. Please try again later."
  const AccessDeniedMessage: string := "Access denied. Please check your API key."
  const NotFoundMessage: string := "Song not found. Please check the URL."
  const TimeoutCode: string := "ECONNABORTED"

  /** The axios error carries a status that the handler singles out. */
  predicate IsStatus(e: CaughtError, status: int) {
    e.AxiosError? && e.code != Some(TimeoutCode) && e.responseStatus == Some(status)
  }

  /** The catch block's choice of notification text. The timeout code wins over
      any status; 429, 403 and 404 have their own texts; everything else,
      including errors that are not axios errors, gets the generic text. */
  function ErrorMessage(e: CaughtError): (m: string)
    ensures m == TimeoutMessage <==> e.AxiosError? && e.code == Some(TimeoutCode)
    ensures m == RateLimitMessage <==> IsStatus(e, 429)
    ensures m == AccessDeniedMessage <==> IsStatus(e, 403)
    ensures m == NotFoundMessage <==> IsStatus(e, 404)
    ensures m == GenericMessage <==>
              !(e.AxiosError? && e.code == Some(TimeoutCode))
              && !IsStatus(e, 429) && !IsStatus(e, 403) && !IsStatus(e, 404)
  {
    match e
    case OtherError => GenericMessage
    case AxiosError(code, status) =>
      if code == Some(TimeoutCode) then TimeoutMessage
      else if status == Some(429) then RateLimitMessage
      else if status == Some(403) then AccessDeniedMessage
      else if status == Some(404) then NotFoundMessage
      else GenericMessage
  }

  /** The state set after a successful download; it feeds the "Download Again" panel. */
  datatype SongData = SongData(downloadUrl: string, title: string, artist: string, cover: string)

  /** The arguments of the `downloadFile` call. */
  datatype DownloadRequest = DownloadRequest(link: string, filename: string)

  /** What one submission leaves behind: the `songId` sent to the lookup service,
      the download requested and its report, the error notification raised by
      the handler itself, and the song data stored for the "Download Again"
      panel (`None`: left as it was). */
  datatype HandleReport = HandleReport(
    lookupQuery: Option<string>,
    download: Option<DownloadRequest>,
    downloadReport: Option<Download.DownloadReport>,
    errorNotice: Option<string>,
    songData: Option<SongData>)

  /** `handleDownload`, given the user's text, what the lookup request produced
      and what the relay fetch for the download link produced. */
  method HandleDownload(url: string, lookup: LookupOutcome, fetched: Download.FetchOutcome)
    returns (r: HandleReport)
    ensures !ValidateUrl(Text(url)) ==> r == HandleReport(None, None, None, Some(InvalidUrlMessage), None)
    ensures ValidateUrl(Text(url)) ==>
              && ExtractTrackId(Text(url)).Some?
              && r.lookupQuery == Some(CanonicalTrackUrl(ExtractTrackId(Text(url)).value))
    ensures r.download.Some? <==>
              ValidateUrl(Text(url)) && lookup.LookupAnswered? && ResponseAccepted(lookup.body)
    ensures r.download.Some? ==>
              && r.download.value.link == lookup.body.value.data.value.downloadLink.value
              && |r.download.value.link| > 0
              && r.download.value.filename == SanitizedFileName(lookup.body.value.data.value.title,
                                                                lookup.body.value.data.value.artist)
              && r.errorNotice.None?
    ensures r.downloadReport.Some? <==> r.download.Some?
    ensures r.downloadReport.Some? ==> (r.downloadReport.value.success <==> Download.Delivers(fetched))
    ensures r.downloadReport.Some? ==> (r.downloadReport.value.success <==> r.downloadReport.value.saved.Some?)
    ensures r.downloadReport.Some? && Download.Delivers(fetched) ==>
              r.downloadReport.value.saved == Some(Download.SavedFile(r.download.value.filename, Download.AudioMimeType,
                                                                      Chunks.Flatten(fetched.body.chunks)))
    ensures ValidateUrl(Text(url)) && lookup.LookupFailed? ==>
              r.errorNotice == Some(ErrorMessage(lookup.error))
    ensures ValidateUrl(Text(url)) && lookup.LookupAnswered? && !ResponseAccepted(lookup.body) ==>
              r.errorNotice == Some(GenericMessage)
    ensures r.songData.Some? <==> r.downloadReport.Some? && r.downloadReport.value.success
    ensures r.songData.Some? ==>
              r.songData.value == SongData(r.download.value.link, lookup.body.value.data.value.title,
                                           lookup.body.value.data.value.artist,
                                           lookup.body.value.data.value.cover)
  {
    if !ValidateUrl(Text(url)) {
      return HandleReport(None, None, None, Some(InvalidUrlMessage), None);
    }
    var trackId := ExtractTrackId(Text(url)).value;
    var fullUrl := CanonicalTrackUrl(trackId);
    match lookup
    case LookupFailed(error) =>
      return HandleReport(Some(fullUrl), None, None, Some(ErrorMessage(error)), None);
    case LookupAnswered(body) =>
      if !ResponseAccepted(body) {
        // throw new Error('Invalid response from server'): not an axios error
        return HandleReport(Some(fullUrl), None, None, Some(ErrorMessage(OtherError)), None);
      }
      var info := body.value.data.value;
      var downloadLink := info.downloadLink.value;
      var fileName := SanitizedFileName(info.title, info.artist);
      var success := Download.DownloadFile(fetched, fileName);
      var songData: Option<SongData> := None;
      if success.success {
        songData := Some(SongData(downloadLink, info.title, info.artist, info.cover));
      }
      return HandleReport(Some(fullUrl), Some(DownloadRequest(downloadLink, fileName)), Some(success), None, songData);
  }

  /** The "Download Again" button: it downloads the stored link again under the
      raw `${title} - ${artist}.mp3` name, without the sanitisation the submit
      handler applies. */
  method DownloadAgain(song: SongData, fetched: Download.FetchOutcome)
    returns (request: DownloadRequest, r: Download.DownloadReport)
    ensures request == DownloadRequest(song.downloadUrl, RawFileName(song.title, song.artist))
    ensures r.success <==> r.saved.Some?
    ensures r.success <==> Download.Delivers(fetched)
    ensures r.success ==>
              r.saved == Some(Download.SavedFile(request.filename, Download.AudioMimeType, Chunks.Flatten(fetched.body.chunks)))
  {
    request := DownloadRequest(song.downloadUrl, RawFileName(song.title, song.artist));
    r := Download.DownloadFile(fetched, request.filename);
  }

  /** The two download paths disagree whenever the title holds a reserved
      character: the repeat download keeps it where the first one wrote `_`. */
  lemma DownloadAgainNameDiffers(title: string, artist: string, i: nat)
    requires i < |title| && IsReservedChar(title[i])
    ensures RawFileName(title, artist) != SanitizedFileName(title, artist)
    ensures IsReservedChar(RawFileName(title, artist)[i])
  {
    assert RawFileName(title, artist)[i] == title[i];
  }
}
