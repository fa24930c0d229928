/**
 Worked examples of the application's behaviour on concrete inputs, stated
 against the general definitions of the other modules.
 */
module Scenarios {
  import opened Optional
  import opened TrackId
  import opened App

  // The two sanitisation examples take the concrete name as a parameter fixed
  // by `requires`. With the literal written inside the `ensures`, the solver
  // keeps unfolding the recursive `SanitizeFileName` on it and runs out of
  // resources; through the parameter, the pointwise contract of
  // `SanitizeFileName` decides each character instead.

  /** The title of the example: a `/`, a `:` and a `?` become `_`, while the
      letters and the space stay. */
  lemma SanitizeExampleTitle(title: string)
    requires title == "AC/DC: Thunder?"
    ensures SanitizeFileName(title) == "AC_DC_ Thunder_"
  {
    var r := SanitizeFileName(title);
    var expected := "AC_DC_ Thunder_";
    forall i | 0 <= i < |expected|
      ensures r[i] == expected[i]
    {
      assert r[i] == ReplaceReserved(title[i]);
    }
  }

  /** The full file name for that title and the artist `Rock`: the artist part
      and the `.mp3` extension pass through unchanged. */
  lemma SanitizedFileNameExample(title: string, artist: string)
    requires title == "AC/DC: Thunder?" && artist == "Rock"
    ensures SanitizedFileName(title, artist) == "AC_DC_ Thunder_ - Rock.mp3"
  {
    SanitizedFileNameShape(title, artist);
    SanitizeExampleTitle(title);
    SanitizeFixesCleanNames(artist);
  }

  /** A URI with another identifier. */
  lemma UriExample()
    ensures ExtractTrackId(Text(UriPrefix + "4uLU6hMCjMI75M1A2tKUQC")) == Some("4uLU6hMCjMI75M1A2tKUQC")
  {
    var id := "4uLU6hMCjMI75M1A2tKUQC";
    assert IsTrackIdShape(id);
    ExtractUri(id, "");
    assert UriPrefix + id + "" == UriPrefix + id;
  }

  /** A lookup answered with 403 is reported as an access problem; a timeout is
      reported as such whatever status accompanies it; a server error has no
      text of its own. */
  lemma ErrorMessageExamples()
    ensures ErrorMessage(AxiosError(Some("ERR_BAD_REQUEST"), Some(403))) == AccessDeniedMessage
    ensures ErrorMessage(AxiosError(Some(TimeoutCode), Some(404))) == TimeoutMessage
    ensures ErrorMessage(AxiosError(Some("ERR_BAD_RESPONSE"), Some(500))) == GenericMessage
    ensures ErrorMessage(OtherError) == GenericMessage
  {
  }
}
