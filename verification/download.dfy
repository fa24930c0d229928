/**
 The streamed download of `src/utils/downloadHelper.ts`, with the network, the
 toast notifications and the browser's file-save machinery abstracted away.

 The fetch through the relay is given as a `FetchOutcome`: either the request
 rejected, or a response arrived with a status, an optional `content-length`
 header and a body that is either unreadable or a finite sequence of chunks
 (possibly cut short by a read error). The model then follows the source:
 status check, reader check, read loop with running `receivedLength` and
 progress, concatenation into one buffer, empty check, save.
 */
module Download {
  import opened Optional
  import opened Chunks

  /** A value thrown inside the `try`: an `Error` with its message, or any other value. */
  datatype Thrown = ErrorWithMessage(message: string) | NonErrorValue

  /** The body of a response: `response.body?.getReader()` gave nothing, or the
      reader delivered `chunks` and then either signalled `done` (`readError`
      is `None`) or rejected with a thrown value. */
  datatype Body = NoReader | Stream(chunks: seq<Chunk>, readError: Option<Thrown>)

  /** What `fetch` produced. */
  datatype FetchOutcome =
    | Rejected(thrown: Thrown)
    | Responded(status: nat, contentLength: Option<string>, body: Body)

  /** The single observable effect of the success path: a file with this name,
      content type and bytes is handed to the browser to save. */
  datatype SavedFile = SavedFile(name: string, mimeType: string, bytes: seq<byte>)

  /** Everything a call leaves behind: the returned flag, the progress values
      shown while reading (each the `receivedLength` at that moment), the saved
      file if any, and the final notification text. */
  datatype DownloadReport = DownloadReport(
    success: bool,
    progress: seq<nat>,
    saved: Option<SavedFile>,
    notice: string)

  const AudioMimeType: string := "audio/mpeg"
  const CompletedNotice: string := "Download completed!"
  const UnreadableMessage: string := "Unable to read the response"
  const EmptyFileMessage: string := "Downloaded file is empty"
  const FallbackMessage: string := "Failed to download the file"

  /** `response.ok`: the status is in the range 200-299. */
  predicate IsOkStatus(status: nat) {
    200 <= status <= 299
  }

  /** The fetch outcome on which every check of `downloadFile` passes: an ok
      status, a readable body that ends without a read error, and at least one
      byte in it. */
  predicate Delivers(fetched: FetchOutcome) {
    && fetched.Responded?
    && IsOkStatus(fetched.status)
    && fetched.body.Stream?
    && fetched.body.readError.None?
    && TotalLength(fetched.body.chunks) > 0
  }

  /** The `if (contentLength)` test: the header is present and, being a string,
      truthy only when non-empty. */
  predicate HasDeclaredLength(contentLength: Option<string>) {
    contentLength.Some? && |contentLength.value| > 0
  }

  const HttpErrorPrefix: string := "HTTP error! status: "

  /** Decimal digits of `n`, as a template literal renders a non-negative integer. */
  function DecimalString(n: nat): (s: string)
    ensures |s| > 0
    ensures forall k :: 0 <= k < |s| ==> '0' <= s[k] <= '9'
    ensures |s| > 1 ==> s[0] != '0'
  {
    if n < 10 then [DigitChar(n)]
    else DecimalString(n / 10) + [DigitChar(n % 10)]
  }

  function DigitChar(d: nat): (c: char)
    requires d < 10
    ensures '0' <= c <= '9'
  {
    (d + '0' as int) as char
  }

  /** Reads a string of decimal digits back as a number. */
  function DecimalValue(s: string): nat
    requires forall k :: 0 <= k < |s| ==> '0' <= s[k] <= '9'
  {
    if |s| == 0 then 0
    else 10 * DecimalValue(s[..|s| - 1]) + (s[|s| - 1] as int - '0' as int)
  }

  /** The rendered status reads back as the status itself: the message carries
      the exact code. */
  lemma {:induction false} DecimalRoundTrip(n: nat)
    ensures DecimalValue(DecimalString(n)) == n
  {
    var s := DecimalString(n);
    if n >= 10 {
      DecimalRoundTrip(n / 10);
      assert s[..|s| - 1] == DecimalString(n / 10);
    }
  }

  /** The message of the error thrown for a non-ok status. */
  function HttpErrorMessage(status: nat): (m: string)
    ensures |HttpErrorPrefix| < |m| && m[..|HttpErrorPrefix|] == HttpErrorPrefix
    ensures forall k :: |HttpErrorPrefix| <= k < |m| ==> '0' <= m[k] <= '9'
    ensures DecimalValue(m[|HttpErrorPrefix|..]) == status
  {
    DecimalRoundTrip(status);
    assert (HttpErrorPrefix + DecimalString(status))[|HttpErrorPrefix|..] == DecimalString(status);
    HttpErrorPrefix + DecimalString(status)
  }

  /** Distinct statuses give distinct messages. */
  lemma HttpErrorMessageInjective(a: nat, b: nat)
    ensures HttpErrorMessage(a) == HttpErrorMessage(b) <==> a == b
  {
  }

  /** The catch block's choice of text: an `Error`'s message, else a fallback. */
  function ErrorMessage(thrown: Thrown): string
  {
    match thrown
    case ErrorWithMessage(message) => message
    case NonErrorValue => FallbackMessage
  }

  /** The notification shown on every failure path. */
  function FailureNotice(thrown: Thrown): string {
    "Download failed: " + ErrorMessage(thrown)
  }

  /** `progress` is what the read loop reports for `chunks`: one value per chunk
      when a length was declared, none otherwise; each value is the number of
      bytes received up to and including that chunk. */
  ghost predicate IsProgressTrace(contentLength: Option<string>, chunks: seq<Chunk>, progress: seq<nat>) {
    && |progress| == (if HasDeclaredLength(contentLength) then |chunks| else 0)
    && forall k :: 0 <= k < |progress| ==> progress[k] == TotalLength(chunks[..k + 1])
  }

  /** The read loop (lines 32-49): pull chunks until `done`, store each in order,
      add its length to `receivedLength`, and report progress when a length was
      declared. */
  method ReadBody(stream: seq<Chunk>, contentLength: Option<string>)
    returns (chunks: seq<Chunk>, receivedLength: nat, progress: seq<nat>)
    ensures chunks == stream
    ensures receivedLength == TotalLength(stream)
    ensures IsProgressTrace(contentLength, stream, progress)
  {
    chunks := [];
    receivedLength := 0;
    progress := [];
    var next := 0;
    while next < |stream|
      invariant next <= |stream|
      invariant chunks == stream[..next]
      invariant receivedLength == TotalLength(chunks)
      invariant IsProgressTrace(contentLength, chunks, progress)
    {
      var value := stream[next];
      TotalLengthAppend(chunks, value);
      assert stream[..next + 1] == chunks + [value];
      chunks := chunks + [value];
      receivedLength := receivedLength + |value|;
      if HasDeclaredLength(contentLength) {
        forall k | 0 <= k < |progress|
          ensures progress[k] == TotalLength(chunks[..k + 1])
        {
          assert chunks[..k + 1] == stream[..next][..k + 1];
        }
        assert chunks[..|progress| + 1] == chunks;
        progress := progress + [receivedLength];
      }
      next := next + 1;
    }
    assert stream[..next] == stream;
  }

  /** Progress values never go down, and the last one is the full byte count. */
  lemma ProgressNonDecreasing(contentLength: Option<string>, chunks: seq<Chunk>, progress: seq<nat>)
    requires IsProgressTrace(contentLength, chunks, progress)
    ensures forall a, b :: 0 <= a <= b < |progress| ==> progress[a] <= progress[b]
    ensures |progress| > 0 ==> progress[|progress| - 1] == TotalLength(chunks)
  {
    forall a, b | 0 <= a <= b < |progress|
      ensures progress[a] <= progress[b]
    {
      TotalLengthMonotone(chunks, a + 1, b + 1);
    }
    if |progress| > 0 {
      assert chunks[..|progress|] == chunks;
    }
  }

  /** `dst.set(src, position)`: copies `src` into `dst` from `position` on and
      leaves every other element as it was. */
  method CopyInto(dst: array<byte>, src: seq<byte>, position: nat)
    requires position + |src| <= dst.Length
    modifies dst
    ensures dst[..position] == old(dst[..position])
    ensures dst[position..position + |src|] == src
    ensures dst[position + |src|..] == old(dst[position + |src|..])
  {
    for j := 0 to |src|
      invariant dst[..position] == old(dst[..position])
      invariant dst[position..position + j] == src[..j]
      invariant dst[position + |src|..] == old(dst[position + |src|..])
    {
      dst[position + j] := src[j];
      assert dst[position..position + j + 1] == dst[position..position + j] + [src[j]];
    }
  }

  /** The concatenation (lines 52-57): a zero-filled buffer of exactly
      `receivedLength` bytes, each chunk copied in at the `position` cursor,
      which then advances by the chunk's length. */
  method Concatenate(chunks: seq<Chunk>, receivedLength: nat) returns (buffer: seq<byte>)
    requires receivedLength == TotalLength(chunks)
    ensures |buffer| == receivedLength
    ensures buffer == Flatten(chunks)
  {
    var allChunks := new byte[receivedLength];
    var position := 0;
    for i := 0 to |chunks|
      invariant position == TotalLength(chunks[..i])
      invariant position <= allChunks.Length
      invariant allChunks[..position] == Flatten(chunks[..i])
    {
      var chunk := chunks[i];
      ChunkFits(chunks, i);
      CopyInto(allChunks, chunk, position);
      assert allChunks[..position + |chunk|] == allChunks[..position] + allChunks[position..position + |chunk|];
      position := position + |chunk|;
    }
    FlattenLength(chunks);
    assert chunks[..|chunks|] == chunks;
    buffer := allChunks[..];
  }

  /** The step of the copy loop: chunk `i` fits after the bytes already copied,
      and copying it extends the copied prefix by exactly that chunk. */
  lemma ChunkFits(chunks: seq<Chunk>, i: nat)
    requires i < |chunks|
    ensures TotalLength(chunks[..i]) + |chunks[i]| <= TotalLength(chunks)
    ensures TotalLength(chunks[..i + 1]) == TotalLength(chunks[..i]) + |chunks[i]|
    ensures Flatten(chunks[..i + 1]) == Flatten(chunks[..i]) + chunks[i]
  {
    FlattenPlacesChunk(chunks, i);
    assert chunks[..i + 1] == chunks[..i] + [chunks[i]];
    TotalLengthAppend(chunks[..i], chunks[i]);
    FlattenAppend(chunks[..i], chunks[i]);
  }

  /** `downloadFile(url, filename)` against the outcome of its fetch. */
  method DownloadFile(fetched: FetchOutcome, filename: string) returns (r: DownloadReport)
    ensures r.success <==> r.saved.Some?
    ensures r.success <==> Delivers(fetched)
    ensures fetched.Rejected? ==>
              !r.success && r.progress == [] && r.notice == FailureNotice(fetched.thrown)
    ensures fetched.Responded? && !IsOkStatus(fetched.status) ==>
              && !r.success && r.progress == []
              && r.notice == FailureNotice(ErrorWithMessage(HttpErrorMessage(fetched.status)))
    ensures fetched.Responded? && IsOkStatus(fetched.status) && fetched.body.NoReader? ==>
              && !r.success && r.progress == []
              && r.notice == FailureNotice(ErrorWithMessage(UnreadableMessage))
    ensures fetched.Responded? && IsOkStatus(fetched.status) && fetched.body.Stream? ==>
              IsProgressTrace(fetched.contentLength, fetched.body.chunks, r.progress)
    ensures fetched.Responded? && IsOkStatus(fetched.status) && fetched.body.Stream?
            && fetched.body.readError.Some? ==>
              !r.success && r.notice == FailureNotice(fetched.body.readError.value)
    ensures fetched.Responded? && IsOkStatus(fetched.status) && fetched.body.Stream?
            && fetched.body.readError.None? && TotalLength(fetched.body.chunks) == 0 ==>
              !r.success && r.notice == FailureNotice(ErrorWithMessage(EmptyFileMessage))
    ensures fetched.Responded? && IsOkStatus(fetched.status) && fetched.body.Stream?
            && fetched.body.readError.None? && TotalLength(fetched.body.chunks) > 0 ==>
              && r.success && r.notice == CompletedNotice
              && r.saved == Some(SavedFile(filename, AudioMimeType, Flatten(fetched.body.chunks)))
  {
    match fetched
    case Rejected(thrown) =>
      return DownloadReport(false, [], None, FailureNotice(thrown));
    case Responded(status, contentLength, body) =>
      if !IsOkStatus(status) {
        var error := ErrorWithMessage(HttpErrorMessage(status));
        return DownloadReport(false, [], None, FailureNotice(error));
      }
      match body
      case NoReader =>
        var error := ErrorWithMessage(UnreadableMessage);
        return DownloadReport(false, [], None, FailureNotice(error));
      case Stream(stream, readError) =>
        var chunks, receivedLength, progress := ReadBody(stream, contentLength);
        if readError.Some? {
          return DownloadReport(false, progress, None, FailureNotice(readError.value));
        }
        var allChunks := Concatenate(chunks, receivedLength);
        if |allChunks| == 0 {
          var error := ErrorWithMessage(EmptyFileMessage);
          return DownloadReport(false, progress, None, FailureNotice(error));
        }
        var file := SavedFile(filename, AudioMimeType, allChunks);
        return DownloadReport(true, progress, Some(file), CompletedNotice);
  }

  /** `Math.round(received / total * 100)` in exact arithmetic: round half up of
      the rational percentage, for a declared total greater than zero. */
  function RoundedPercent(received: nat, total: nat): nat
    requires total > 0
  {
    (200 * received + total) / (2 * total)
  }

  /** The shown percentage follows the byte count: it never goes down as more
      bytes arrive, stays within 100 while the count is within the declared
      total, and is exactly 100 when the count reaches it. */
  lemma RoundedPercentProperties(a: nat, b: nat, total: nat)
    requires total > 0
    requires a <= b
    ensures RoundedPercent(a, total) <= RoundedPercent(b, total)
    ensures b <= total ==> RoundedPercent(b, total) <= 100
    ensures RoundedPercent(total, total) == 100
  {
    var d := 2 * total;
    DivMonotone(200 * a + total, 200 * b + total, d);
    DivUnique(200 * total + total, d, 100, total);
    if b <= total {
      DivMonotone(200 * b + total, 200 * total + total, d);
    }
  }

  /** One more multiple of `d` fits between `d * x` and `d * y` when `x < y`. */
  lemma {:induction false} MulStep(d: nat, x: nat, y: nat)
    ensures x < y ==> d * x + d <= d * y
    decreases y
  {
    if x < y {
      assert d * y == d * (y - 1) + d;
      if x < y - 1 {
        MulStep(d, x, y - 1);
      }
    }
  }

  /** Euclidean division has one quotient: `d * a + b` with `b < d` divides to `a`. */
  lemma DivUnique(n: nat, d: nat, a: nat, b: nat)
    requires b < d
    requires n == d * a + b
    ensures n / d == a
  {
    MulStep(d, n / d, a);
    MulStep(d, a, n / d);
  }

  lemma DivMonotone(x: nat, y: nat, d: nat)
    requires d > 0 && x <= y
    ensures x / d <= y / d
  {
    MulStep(d, y / d, x / d);
  }
}
