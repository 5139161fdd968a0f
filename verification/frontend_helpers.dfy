/** The pure helpers of frontend/src/utils/helpers.js: the media type a URL's
    extension suggests, and the progress label. */
module FrontendHelpers {
  import opened Common
  import opened Text
  import Uploads

  const ImageExtensions: set<string> := {"jpg", "jpeg", "png", "gif", "bmp", "webp"}

  const VideoExtensions: set<string> := {"mp4", "webm", "ogg", "mov", "avi"}

  lemma ExtensionSetsDisjoint()
    ensures ImageExtensions !! VideoExtensions
  {
  }

  /** `getFileType`: None for a missing or empty URL; otherwise the type
      whose list holds the lower-cased text after the last '.', or None
      when neither list does. */
  function GetFileType(url: Option<string>): (t: Option<MediaType>)
    ensures url.None? || url == Some("") ==> t.None?
    ensures t == Some(Image) <==> url.Some? && url.value != "" && Uploads.Extension(url.value) in ImageExtensions
    ensures t == Some(Video) <==> url.Some? && url.value != "" && Uploads.Extension(url.value) in VideoExtensions
  {
    if url.None? || url.value == "" then None
    else
      var extension := Uploads.Extension(url.value);
      ExtensionSetsDisjoint();
      if extension in ImageExtensions then Some(Image)
      else if extension in VideoExtensions then Some(Video)
      else None
  }

  /** A URL without a '.' is judged by its whole text. */
  lemma NoDotJudgesWholeUrl(url: string)
    requires url != "" && '.' !in url
    ensures GetFileType(Some(url)).Some? <==> ToLower(url) in ImageExtensions + VideoExtensions
  {
  }

  /** Every name the backend accepts gets from the frontend the type the
      backend stored for it. */
  lemma FrontendAgreesWithBackend(name: string)
    requires Uploads.AllowedFile(name)
    ensures GetFileType(Some(name)) == Some(Uploads.MediaTypeFor(name))
  {
    var e := Uploads.Extension(name);
    assert e in Uploads.AllowedExtensions;
    if e in Uploads.VideoExtensions {
      assert e in VideoExtensions;
    } else {
      assert e in ImageExtensions;
    }
  }

  /** The converse fails: the frontend types extensions the backend refuses. */
  lemma FrontendTypesMoreThanBackendAccepts()
    ensures GetFileType(Some("clip.webm")) == Some(Video)
    ensures !Uploads.AllowedFile("clip.webm")
  {
    assert AfterLastDot("clip.webm") == "webm" by {
      AfterLastDotUnique("clip.webm", "webm");
    }
    assert ToLower("webm") == "webm";
  }

  // ---------------------------------------------------------------------------
  // Progress label

  /** `Math.round((current / total) * 100)` on exact quotients:
      `Math.round` rounds halves up, towards positive infinity. */
  function RoundPercent(current: int, total: int): (p: int)
    requires total != 0
    ensures (p as real) - 0.5 <= (current as real / total as real) * 100.0 < (p as real) + 0.5
  {
    ((current as real / total as real) * 100.0 + 0.5).Floor
  }

  /** The "current / total (p%)" label. */
  function Label(current: int, total: int, percent: int): string {
    IntToString(current) + (" / " + (IntToString(total) + " (" + IntToString(percent) + "%)"))
  }

  /** `formatProgress`: "No items" exactly for a zero total, otherwise the
      label with the rounded percentage. */
  function FormatProgress(current: int, total: int): (s: string)
    ensures s == "No items" <==> total == 0
    ensures total != 0 ==> s == Label(current, total, RoundPercent(current, total))
  {
    if total == 0 then "No items"
    else
      var s := Label(current, total, RoundPercent(current, total));
      assert s[0] == IntToString(current)[0] != 'N';
      s
  }

  /** A label starts with the count done, which reads back as itself,
      followed by " / ". */
  lemma LabelShowsCount(current: nat, total: int, percent: int)
    ensures var s, k := Label(current, total, percent), |NatToString(current)|;
      k + 3 <= |s| && ParseNat(s[..k]) == current && s[k..k + 3] == " / "
  {
    var tail := IntToString(total) + " (" + IntToString(percent) + "%)";
    SplitAfter(NatToString(current), " / ", tail);
    NatToStringRoundTrip(current);
  }

  lemma SplitAfter(head: string, sep: string, tail: string)
    ensures (head + (sep + tail))[..|head|] == head
    ensures (head + (sep + tail))[|head|..|head| + |sep|] == sep
  {
    assert (head + (sep + tail))[|head|..] == sep + tail;
  }

  /** A label ends with the percent sign and the closing parenthesis. */
  lemma LabelEndsWithPercent(current: int, total: int, percent: int)
    ensures var s := Label(current, total, percent);
      |s| >= 2 && s[|s| - 2..] == "%)"
  {
  }

  /** Dividing by a positive number keeps order. */
  lemma DivideKeepsOrder(a: real, b: real, t: real)
    requires a <= b && t > 0.0
    ensures a / t <= b / t
  {
    assert b / t - a / t == (b - a) / t;
  }

  /** Counts within their total give a percentage in [0, 100]; none done is
      0% and all done is 100%. */
  lemma PercentBounds(current: int, total: int)
    requires 0 <= current <= total && total > 0
    ensures 0 <= RoundPercent(current, total) <= 100
    ensures current == 0 ==> RoundPercent(current, total) == 0
    ensures current == total ==> RoundPercent(current, total) == 100
  {
    DivideKeepsOrder(0.0, current as real, total as real);
    DivideKeepsOrder(current as real, total as real, total as real);
  }

  /** Doing more never lowers the percentage shown. */
  lemma PercentMonotonic(c1: int, c2: int, total: int)
    requires c1 <= c2 && total > 0
    ensures RoundPercent(c1, total) <= RoundPercent(c2, total)
  {
    DivideKeepsOrder(c1 as real, c2 as real, total as real);
  }

  /** A percentage that is exactly half way rounds up. */
  lemma PercentHalfRoundsUp()
    ensures RoundPercent(1, 8) == 13
    ensures RoundPercent(-1, 8) == -12
  {
  }
}
