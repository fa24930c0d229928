/**
 Track-identifier extraction from a Spotify URL or URI (`src/utils/spotifyHelper.ts`).

 The source applies the regular expression `track[:/]([a-zA-Z0-9]+)` with
 JavaScript's `String.prototype.match` (no global flag, no `i` flag): the result
 is the capture group of the leftmost match. Because the capture is the last
 element of the pattern and is greedy, it is the maximal run of ASCII letters
 and digits that follows the separator.
 */
module TrackId {
  import opened Optional

  /** The character class `[a-zA-Z0-9]`: ASCII letters and digits only. */
  predicate IsAlnum(c: char) {
    ('a' <= c <= 'z') || ('A' <= c <= 'Z') || ('0' <= c <= '9')
  }

  /** The character class `[:/]`. */
  predicate IsSeparator(c: char) {
    c == ':' || c == '/'
  }

  /** The literal `track` of the pattern occurs at index `i`; the comparison is
      case-sensitive. */
  predicate KeywordAt(s: string, i: nat) {
    && i + 5 <= |s|
    && s[i] == 't' && s[i + 1] == 'r' && s[i + 2] == 'a' && s[i + 3] == 'c' && s[i + 4] == 'k'
  }

  /** The pattern `track[:/][a-zA-Z0-9]` can start at index `i` of `s`
      (the `+` needs at least one identifier character). */
  predicate MatchesAt(s: string, i: nat) {
    && i + 7 <= |s|
    && KeywordAt(s, i)
    && IsSeparator(s[i + 5])
    && IsAlnum(s[i + 6])
  }

  /** A non-empty string of identifier characters. */
  ghost predicate IsTrackIdShape(id: string) {
    |id| > 0 && forall k :: 0 <= k < |id| ==> IsAlnum(id[k])
  }

  /** `s[start..end]` is a run of identifier characters that cannot be extended
      to the right: it ends at the end of `s` or before a non-identifier character. */
  ghost predicate IsMaximalRun(s: string, start: nat, end: nat) {
    && start <= end <= |s|
    && (forall k :: start <= k < end ==> IsAlnum(s[k]))
    && (end == |s| || !IsAlnum(s[end]))
  }

  /** `id` is the identifier found by the leftmost occurrence of the pattern,
      which starts at `i`, taken greedily. */
  ghost predicate FoundAt(s: string, i: nat, id: string) {
    && MatchesAt(s, i)
    && (forall k: nat :: k < i ==> !MatchesAt(s, k))
    && IsMaximalRun(s, i + 6, i + 6 + |id|)
    && s[i + 6..i + 6 + |id|] == id
  }

  /** Declarative meaning of the regular-expression match: `None` when the
      pattern occurs nowhere; otherwise the identifier found at the leftmost
      occurrence. */
  ghost predicate ExtractSpec(s: string, r: Option<string>) {
    match r
    case None => forall i: nat :: !MatchesAt(s, i)
    case Some(id) => exists i: nat :: FoundAt(s, i, id)
  }

  /** Leftmost index at or after `from` where the pattern starts. */
  function FindMatch(s: string, from: nat): (r: Option<nat>)
    decreases |s| - from
    ensures r.Some? ==> from <= r.value && MatchesAt(s, r.value)
    ensures r.Some? ==> forall k: nat :: from <= k < r.value ==> !MatchesAt(s, k)
    ensures r.None? ==> forall k: nat :: from <= k ==> !MatchesAt(s, k)
  {
    if |s| < from + 7 then None
    else if MatchesAt(s, from) then Some(from)
    else FindMatch(s, from + 1)
  }

  /** End of the greedy run of identifier characters starting at `start`. */
  function RunEnd(s: string, start: nat): (end: nat)
    requires start <= |s|
    decreases |s| - start
    ensures IsMaximalRun(s, start, end)
  {
    if start == |s| || !IsAlnum(s[start]) then start
    else RunEnd(s, start + 1)
  }

  /** `url.match(/track[:/]([a-zA-Z0-9]+)/)` followed by taking group 1, or `null`. */
  function ScanTrackId(s: string): (r: Option<string>)
    ensures ExtractSpec(s, r)
    ensures r.Some? ==> IsTrackIdShape(r.value)
  {
    match FindMatch(s, 0)
    case None => None
    case Some(i) =>
      var id := s[i + 6..RunEnd(s, i + 6)];
      assert FoundAt(s, i, id);
      Some(id)
  }

  /** The argument of `extractSpotifyTrackId`. Its declared type is a string, but
      the body guards against anything that makes `match` throw (a non-string
      value reaching it at run time). */
  datatype UrlInput = Text(text: string) | NonText

  /** `extractSpotifyTrackId`: the regex scan, with every exception turned into `null`. */
  function ExtractTrackId(input: UrlInput): (r: Option<string>)
    ensures input.NonText? ==> r.None?
    ensures input.Text? ==> ExtractSpec(input.text, r)
  {
    match input
    case Text(s) => ScanTrackId(s)
    case NonText => None
  }

  /** `validateSpotifyUrl`: an identifier was extracted and it is non-empty. */
  predicate ValidateUrl(input: UrlInput): (valid: bool)
    ensures valid <==> ExtractTrackId(input).Some?
  {
    var id := ExtractTrackId(input);
    id.Some? && |id.value| > 0
  }

  /** The regular-expression semantics determine at most one result: any two
      results that both satisfy the declarative match are equal. */
  lemma ExtractSpecUnique(s: string, r1: Option<string>, r2: Option<string>)
    requires ExtractSpec(s, r1) && ExtractSpec(s, r2)
    ensures r1 == r2
  {
    match r1
    case None =>
    case Some(id1) =>
      var i1: nat :| FoundAt(s, i1, id1);
      match r2
      case None =>
      case Some(id2) =>
        var i2: nat :| FoundAt(s, i2, id2);
        FoundAtUnique(s, i1, id1, i2, id2);
  }

  /** Two leftmost greedy matches are the same match. */
  lemma FoundAtUnique(s: string, i1: nat, id1: string, i2: nat, id2: string)
    requires FoundAt(s, i1, id1) && FoundAt(s, i2, id2)
    ensures i1 == i2 && id1 == id2
  {
    MaximalRunUnique(s, i1 + 6, i1 + 6 + |id1|, i1 + 6 + |id2|);
  }

  /** A maximal run from a given start has only one possible end. */
  lemma MaximalRunUnique(s: string, start: nat, e1: nat, e2: nat)
    requires IsMaximalRun(s, start, e1) && IsMaximalRun(s, start, e2)
    ensures e1 == e2
  {
  }

  /** The extractor is exactly the declarative match: a result satisfies the
      specification if and only if it is the extractor's result. */
  lemma ExtractMatchesSpec(s: string, r: Option<string>)
    ensures ExtractSpec(s, r) <==> ExtractTrackId(Text(s)) == r
  {
    if ExtractSpec(s, r) {
      ExtractSpecUnique(s, r, ExtractTrackId(Text(s)));
    }
  }

  /** A text is valid exactly when the pattern occurs somewhere in it. */
  lemma ValidIffFound(input: UrlInput)
    ensures input.Text? ==> (ValidateUrl(input) <==> exists i: nat :: MatchesAt(input.text, i))
  {
  }

  /** The web-player form: whatever the path before `track/` and whatever follows
      the identifier (a query string, a fragment), as long as the identifier is
      not followed by another identifier character. */
  const WebPrefix: string := "https://open.spotify.com/track/"

  /** The URI form. */
  const UriPrefix: string := "spotify:track:"

  /** Whether the keyword occurs at `k` depends only on the five characters from
      `k` on, so a prefix long enough to hold them decides it. */
  lemma KeywordAtPrefix(s: string, p: string, k: nat)
    requires |p| <= |s| && s[..|p|] == p
    requires k + 5 <= |p|
    ensures KeywordAt(s, k) == KeywordAt(p, k)
  {
    assert forall j :: k <= j < k + 5 ==> s[j] == s[..|p|][j];
  }

  /** In the web-player prefix the keyword occurs only at index 25. */
  lemma WebPrefixKeyword()
    ensures forall k: nat :: k < 25 ==> !KeywordAt(WebPrefix, k)
    ensures KeywordAt(WebPrefix, 25)
  {
  }

  /** In the URI prefix the keyword occurs only at index 8. */
  lemma UriPrefixKeyword()
    ensures forall k: nat :: k < 8 ==> !KeywordAt(UriPrefix, k)
    ensures KeywordAt(UriPrefix, 8)
  {
  }

  /** A reference built as `prefix + id + rest`, where the keyword and separator
      end `prefix` at index `at` and nothing in `prefix` matches earlier, yields `id`. */
  lemma ExtractAfterPrefix(prefix: string, at: nat, id: string, rest: string)
    requires at + 6 == |prefix|
    requires KeywordAt(prefix, at) && IsSeparator(prefix[at + 5])
    requires forall k: nat :: k < at ==> !KeywordAt(prefix, k)
    requires IsTrackIdShape(id)
    requires rest == [] || !IsAlnum(rest[0])
    ensures ExtractTrackId(Text(prefix + id + rest)) == Some(id)
  {
    var s := prefix + id + rest;
    assert s[..|prefix|] == prefix;
    forall k: nat | k <= at
      ensures KeywordAt(s, k) == KeywordAt(prefix, k)
    {
      KeywordAtPrefix(s, prefix, k);
    }
    assert s[at + 5] == prefix[at + 5];
    assert s[|prefix|..|prefix| + |id|] == id;
    assert s[at + 6] == id[0];
    assert FoundAt(s, at, id);
    ExtractMatchesSpec(s, Some(id));
  }

  lemma ExtractWebUrl(id: string, rest: string)
    ensures IsTrackIdShape(id) && (rest == [] || !IsAlnum(rest[0])) ==>
              ExtractTrackId(Text(WebPrefix + id + rest)) == Some(id)
  {
    if IsTrackIdShape(id) && (rest == [] || !IsAlnum(rest[0])) {
      WebPrefixKeyword();
      ExtractAfterPrefix(WebPrefix, 25, id, rest);
    }
  }

  lemma ExtractUri(id: string, rest: string)
    requires IsTrackIdShape(id)
    requires rest == [] || !IsAlnum(rest[0])
    ensures ExtractTrackId(Text(UriPrefix + id + rest)) == Some(id)
  {
    UriPrefixKeyword();
    ExtractAfterPrefix(UriPrefix, 8, id, rest);
  }

  // The concrete links below are built from named parts rather than written as
  // one literal: the solver cannot index into or unfold the scan over a long
  // string literal, while the general prefix lemmas above apply to the parts.

  /** The host part shared by the web-player links below. */
  const SiteRoot: string := "https://open.spotify.com/"

  /** The identifier used in the examples of the source's comments. */
  const ExampleId: string := "2gi4stMxjTzP10fUaU0U4t"

  /** The two examples in the source's comments: the web-player link with a
      query string, and the URI. */
  lemma ExtractDocumentedForms()
    ensures ExtractTrackId(Text(WebPrefix + ExampleId + "?si=abc")) == Some(ExampleId)
    ensures ExtractTrackId(Text(UriPrefix + ExampleId)) == Some(ExampleId)
  {
    assert IsTrackIdShape(ExampleId);
    ExtractWebUrl(ExampleId, "?si=abc");
    ExtractUri(ExampleId, "");
    assert UriPrefix + ExampleId + "" == UriPrefix + ExampleId;
  }

  /** No occurrence of the pattern yields `None`: a playlist link, and the keyword
      in the wrong case (the pattern has no case-insensitive flag). */
  lemma ExtractRejectsNonTrackForms()
    ensures ExtractTrackId(Text(SiteRoot + "playlist/xyz")) == None
    ensures ExtractTrackId(Text(SiteRoot + "TRACK/abc")) == None
    ensures !ValidateUrl(Text(SiteRoot + "playlist/xyz"))
    ensures !ValidateUrl(NonText)
  {
    var p := SiteRoot + "playlist/xyz";
    assert forall k: nat :: !MatchesAt(p, k);
    ExtractMatchesSpec(p, None);
    var u := SiteRoot + "TRACK/abc";
    assert forall k: nat :: !MatchesAt(u, k);
    ExtractMatchesSpec(u, None);
  }

  /** An earlier `track/` that is not followed by an identifier character does not
      match; the scan moves on to the next occurrence. */
  lemma ExtractSkipsEmptyOccurrence()
    ensures ExtractTrackId(Text("track/?next=track:ab9-x")) == Some("ab9")
  {
    var s := "track/?next=track:ab9-x";
    assert forall k: nat :: k < 12 ==> !MatchesAt(s, k);
    assert s[18..21] == "ab9";
    assert FoundAt(s, 12, "ab9");
    ExtractMatchesSpec(s, Some("ab9"));
  }
}
