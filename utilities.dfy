/** `VideoDownloadProcessor` of the two `utilities.py` copies: their lists of
    special strings, the download folder and the path a trailer is saved to. */
module Utilities {
  import opened Wrappers
  import opened Sanitize

  /** The list of the top-level copy. Its last entry is the UTF-8 bytes of
      the right single quotation mark read as Windows-1252: three code
      points, U+00E2 U+20AC U+2122. */
  const RootSpecials: seq<string> :=
    [":", "*", "?", "<", ">", "|", "\"", " ", "\\", "/", ".", "'", "&", "(", ")", "[", "]",
     "{", "}", ";", "!", "@", "#", "$", "%", "^", "+", "=", ",", "~", "`", "\U{E2}\U{20AC}\U{2122}"]

  /** The list of the packaged copy: the same, ending in the right single
      quotation mark U+2019 itself. */
  const PackageSpecials: seq<string> :=
    [":", "*", "?", "<", ">", "|", "\"", " ", "\\", "/", ".", "'", "&", "(", ")", "[", "]",
     "{", "}", ";", "!", "@", "#", "$", "%", "^", "+", "=", ",", "~", "`", "\U{2019}"]

  const RightQuote: char := '\U{2019}'

  lemma RootSpecialsValid()
    ensures ValidEntries(RootSpecials)
  {
    assert RootSpecials[10] == ".";
  }

  lemma PackageSpecialsValid()
    ensures ValidEntries(PackageSpecials)
  {
    assert PackageSpecials[10] == ".";
  }

  /** Sanitizing with the top-level list is idempotent. */
  lemma RootSanitizeIdempotent(name: string)
    ensures Sanitized(RootSpecials, Sanitized(RootSpecials, name)) == Sanitized(RootSpecials, name)
  {
    RootSpecialsValid();
    SanitizedIdempotent(RootSpecials, name);
  }

  /** Sanitizing with the packaged list is idempotent. */
  lemma PackageSanitizeIdempotent(name: string)
    ensures Sanitized(PackageSpecials, Sanitized(PackageSpecials, name)) == Sanitized(PackageSpecials, name)
  {
    PackageSpecialsValid();
    SanitizedIdempotent(PackageSpecials, name);
  }

  /** The top-level copy never removes a right single quotation mark: its list
      holds the three-character misreading instead. */
  lemma RootKeepsRightQuote(name: string)
    requires RightQuote in name
    ensures RightQuote in Sanitized(RootSpecials, name)
  {
    SanitizedKeepsChar(RootSpecials, name, RightQuote);
  }

  /** The packaged copy removes every right single quotation mark. */
  lemma PackageRemovesRightQuote(name: string)
    ensures RightQuote !in Sanitized(PackageSpecials, name)
  {
    PackageSpecialsValid();
    SanitizedRemovesEntries(PackageSpecials, name);
    assert PackageSpecials[31] == [RightQuote];
    AbsentCharIff(RightQuote, Sanitized(PackageSpecials, name));
  }

  /** Every entry of the packaged list is one character, so its replacement
      loop never changes the length; only the marker removal, the collapsing
      and the extension fix shorten the name. */
  lemma PackageLoopKeepsLength(name: string)
    ensures |ReplaceEach(PackageSpecials, name)| == |name|
  {
  }

  /** The top-level list's last entry is three characters long, so there the
      loop can shorten the name: the misread quotation mark becomes a single
      underscore. */
  lemma RootLoopCanShorten()
    ensures ReplaceEach(RootSpecials, "\U{E2}\U{20AC}\U{2122}") == "_"
  {
    var s := "\U{E2}\U{20AC}\U{2122}";
    var init := RootSpecials[..31];
    forall i | 0 <= i < 31
      ensures |init[i]| > 0 && Absent(init[i], s)
    {
      assert init[i] == [init[i][0]] && init[i][0] < '\U{80}';
      AbsentCharIff(init[i][0], s);
    }
    ReplaceEachIdentity(init, s);
    assert s[..3] == RootSpecials[31];
  }

  /** The marker is removed in one pass, so removal can leave a new marker:
      an underscore, the marker, and the marker without its first underscore
      become the marker. */
  lemma MarkerRemovalIsSinglePass()
    ensures ReplaceAll("___downloads__downloads_", DownloadsMarker, "") == DownloadsMarker
  {
    var s := "___downloads__downloads_";
    var m := DownloadsMarker;
    assert s[..12][2] != m[2];
    assert s[1..][..12] == m;
    assert s[1..][12..] == "_downloads_";
  }

  /** POSIX `os.path.join` of two components. */
  function PathJoin(a: string, b: string): (r: string)
    ensures |r| >= |b| && r[|r| - |b|..] == b
    ensures |b| > 0 && b[0] == '/' ==> r == b
    ensures (|b| == 0 || b[0] != '/') ==> |r| >= |a| && r[..|a|] == a
    ensures (|b| == 0 || b[0] != '/') && |a| > 0 && a[|a| - 1] != '/' ==> |r| == |a| + 1 + |b| && r[|a|] == '/'
    ensures (|b| == 0 || b[0] != '/') && (|a| == 0 || a[|a| - 1] == '/') ==> |r| == |a| + |b|
  {
    if |b| > 0 && b[0] == '/' then b
    else if |a| == 0 || a[|a| - 1] == '/' then a + b
    else a + "/" + b
  }

  /** `DOWNLOAD_FOLDER`. */
  function DownloadFolder(): (r: string)
    ensures r == "./downloads"
  {
    PathJoin(".", "downloads")
  }

  /** The path `download_video` saves a trailer to. */
  function DownloadTarget(entries: seq<string>, movieName: string): (r: string)
    requires forall i :: 0 <= i < |entries| ==> |entries[i]| > 0
    ensures var file := Sanitized(entries, movieName) + "_trailer.mp4";
      |r| >= |file| && r[|r| - |file|..] == file
  {
    PathJoin(DownloadFolder(), Sanitized(entries, movieName) + "_trailer.mp4")
  }

  /** A trailer is saved directly inside the download folder, under the
      sanitized movie name followed by `_trailer.mp4`. */
  lemma DownloadTargetInFolder(entries: seq<string>, movieName: string)
    requires ValidEntries(entries) && "/" in entries
    ensures var name := Sanitized(entries, movieName);
      && DownloadTarget(entries, movieName) == "./downloads/" + name + "_trailer.mp4"
      && '/' !in name
  {
    var name := Sanitized(entries, movieName);
    SanitizedRemovesEntries(entries, movieName);
    var slash :| 0 <= slash < |entries| && entries[slash] == "/";
    AbsentCharIff('/', name);
    if |name| > 0 {
      assert name[0] in name;
    }
  }

  lemma RootDownloadTarget(movieName: string)
    ensures DownloadTarget(RootSpecials, movieName)
      == "./downloads/" + Sanitized(RootSpecials, movieName) + "_trailer.mp4"
  {
    RootSpecialsValid();
    assert RootSpecials[9] == "/";
    DownloadTargetInFolder(RootSpecials, movieName);
  }

  lemma PackageDownloadTarget(movieName: string)
    ensures DownloadTarget(PackageSpecials, movieName)
      == "./downloads/" + Sanitized(PackageSpecials, movieName) + "_trailer.mp4"
  {
    PackageSpecialsValid();
    assert PackageSpecials[9] == "/";
    DownloadTargetInFolder(PackageSpecials, movieName);
  }

  /** `download_video`: a non-empty file already at the target is reused;
      otherwise the download either succeeds, and the file is renamed to the
      target, or fails and gives `None`. */
  function DownloadVideo(entries: seq<string>, movieName: string,
                         alreadyPresent: bool, downloadSucceeds: bool): (r: Option<string>)
    requires forall i :: 0 <= i < |entries| ==> |entries[i]| > 0
    ensures r.None? <==> !alreadyPresent && !downloadSucceeds
    ensures r.Some? ==> r.value == DownloadTarget(entries, movieName)
  {
    if alreadyPresent then Some(DownloadTarget(entries, movieName))
    else if downloadSucceeds then Some(DownloadTarget(entries, movieName))
    else None
  }
}
