/**
 * download_video: the check on its arguments, the choice between the YouTube
 * path and the yt-dlp path, the identifier that names the saved file, and what
 * becomes of a failed download on each path. The download itself is a foreign
 * call; the model receives its outcome as a boolean.
 */
module Download {
  import opened Wrappers
  import opened Text

  /** The separator before a YouTube video id in a watch URL. */
  const Marker: String := "?v="

  /** The substring that sends a URL down the YouTube path. */
  const YouTubeTag: String := "youtube"

  // ---------------------------------------------------------------------------
  // Identifier derivation: url.split('?v=')[-1].strip()

  function Last(pieces: seq<String>): String
    requires pieces != []
  {
    pieces[|pieces| - 1]
  }

  /** The file-name stem of a YouTube download; always stripped of surrounding whitespace. */
  function DeriveUid(url: String): (uid: String)
    ensures IsStripped(uid)
  {
    Strip(Last(Split(url, Marker)))
  }

  /**
   * "?v=" cannot overlap itself, so in front + "?v=" + tail, with no "?v=" in
   * tail, the marker put between them is the last one.
   */
  lemma MarkerBeforeTail(front: String, tail: String)
    requires !Contains(tail, Marker)
    ensures LastOccurrenceAt(front + Marker + tail, Marker, |front|)
    ensures (front + Marker + tail)[|front| + 3..] == tail
  {
    var s, m := front + Marker + tail, |front|;
    assert s[m..m + 3] == Marker;
    assert s[m + 3..] == tail;
    forall m' | m < m' ensures !OccursAt(s, Marker, m') {
      if m + 3 <= m' && m' + 3 <= |s| {
        assert s[m'..m' + 3] == tail[m' - m - 3..m' - m];
        assert !OccursAt(tail, Marker, m' - m - 3);
      } else if m' + 3 <= |s| {
        assert s[m'] == Marker[m' - m] != '?';
        assert s[m'..m' + 3][0] != '?';
      }
    }
  }

  /**
   * The identifier is the stripped text after the last "?v=" of the URL, or the
   * whole stripped URL when it has none.
   */
  lemma UidAfterLastMarker(url: String)
    ensures !Contains(url, Marker) ==> DeriveUid(url) == Strip(url)
    ensures Contains(url, Marker) ==>
              exists m :: LastOccurrenceAt(url, Marker, m) && DeriveUid(url) == Strip(url[m + 3..])
  {
    var pieces := Split(url, Marker);
    SplitJoin(url, Marker);
    SplitCutsIffContains(url, Marker);
    SplitPiecesLackSep(url, Marker);
    var last := Last(pieces);
    if |pieces| > 1 {
      JoinLast(pieces, Marker);
      var front := Join(pieces[..|pieces| - 1], Marker);
      assert url == front + Marker + last;
      assert !Contains(last, Marker);
      MarkerBeforeTail(front, last);
    } else {
      assert url == last;
    }
  }

  /**
   * Whatever precedes the last "?v=" has no say in the identifier: any prefix
   * followed by "?v=" and a marker-free tail t gives the stripped t. Two
   * different URLs with the same tail therefore name the same file.
   */
  lemma UidOfTail(prefix: String, t: String)
    requires !Contains(t, Marker)
    ensures DeriveUid(prefix + Marker + t) == Strip(t)
  {
    var url := prefix + Marker + t;
    MarkerBeforeTail(prefix, t);
    UidAfterLastMarker(url);
    var m :| LastOccurrenceAt(url, Marker, m) && DeriveUid(url) == Strip(url[m + 3..]);
    LastOccurrenceUnique(url, Marker, m, |prefix|);
  }

  // ---------------------------------------------------------------------------
  // Dispatch

  /** What download_video raises. */
  datatype Fault =
    | UrlAndUidMissing        // the AssertionError when neither url nor uid is given
    | YtDlpError(url: String) // a yt-dlp download error, not caught anywhere

  /** The path download_video takes, with what it needs on that path. */
  datatype Route =
    | YouTube(url: Option<String>, fileStem: String)
    | YtDlp(target: String)

  /** Python truthiness of an optional string argument: present and non-empty. */
  predicate Truthy(arg: Option<String>) {
    arg.Some? && arg.value != []
  }

  /**
   * The argument check and the branch choice of download_video. The YouTube
   * path is taken when a uid is passed at all (even an empty one) or the URL
   * contains "youtube"; a URL, when given, overrides the uid as file stem.
   */
  function Dispatch(url: Option<String>, uid: Option<String>): (r: Result<Route, Fault>)
    ensures r.Err? <==> !Truthy(url) && !Truthy(uid)
    ensures r.Err? ==> r.error == UrlAndUidMissing
    ensures r.Ok? ==> (r.value.YouTube? <==> uid.Some? || (url.Some? && Contains(url.value, YouTubeTag)))
    ensures r.Ok? && r.value.YouTube? ==> r.value.url == url
    ensures r.Ok? && r.value.YouTube? && url.Some? ==> r.value.fileStem == DeriveUid(url.value)
    ensures r.Ok? && r.value.YouTube? && url.None? ==> r.value.fileStem == uid.value
    ensures r.Ok? && r.value.YtDlp? ==> url == Some(r.value.target) && uid.None?
  {
    if !Truthy(url) && !Truthy(uid) then Err(UrlAndUidMissing)
    else if uid.Some? || Contains(url.value, YouTubeTag) then
      Ok(YouTube(url, if url.Some? then DeriveUid(url.value) else uid.value))
    else
      Ok(YtDlp(url.value))
  }

  /**
   * How the worker loop calls download_video: a URL and no uid. A non-empty URL
   * passes the argument check; it goes down the YouTube path exactly when it
   * contains "youtube", and is then saved under its derived identifier.
   */
  lemma UrlOnlyRoute(u: String)
    ensures Dispatch(Some(u), None).Err? <==> u == []
    ensures u != [] && Contains(u, YouTubeTag) ==> Dispatch(Some(u), None) == Ok(YouTube(Some(u), DeriveUid(u)))
    ensures u != [] && !Contains(u, YouTubeTag) ==> Dispatch(Some(u), None) == Ok(YtDlp(u))
  {
  }

  /** A uid passed together with a non-empty URL is ignored: the URL alone names the file. */
  lemma UrlOverridesUid(u: String, uid: String)
    requires u != []
    ensures Dispatch(Some(u), Some(uid)) == Ok(YouTube(Some(u), DeriveUid(u)))
  {
  }

  // ---------------------------------------------------------------------------
  // One call of download_video

  /** What one call of download_video leaves behind. */
  datatype Step =
    | Saved(fileName: String)       // pytubefix wrote <uid>.mp4 into the output directory
    | SavedByYtDlp(target: String)    // yt-dlp wrote a file it named itself
    | Logged(url: Option<String>)   // the YouTube path failed; the failure was printed
    | Raised(fault: Fault)          // an exception left download_video

  /**
   * One call of download_video, given whether the foreign download succeeded.
   * A failure on the YouTube path is caught and logged; a failure on the yt-dlp
   * path escapes as an exception.
   */
  function DownloadVideo(url: Option<String>, uid: Option<String>, fetched: bool): (step: Step)
    ensures step.Saved? <==> fetched && Dispatch(url, uid).Ok? && Dispatch(url, uid).value.YouTube?
    ensures step.Saved? ==> step.fileName == Dispatch(url, uid).value.fileStem + ".mp4"
    ensures step.Logged? <==> !fetched && Dispatch(url, uid).Ok? && Dispatch(url, uid).value.YouTube?
    ensures step.Raised? <==> Dispatch(url, uid).Err? || (Dispatch(url, uid).value.YtDlp? && !fetched)
  {
    match Dispatch(url, uid)
    case Err(fault) => Raised(fault)
    case Ok(YouTube(u, stem)) => if fetched then Saved(stem + ".mp4") else Logged(u)
    case Ok(YtDlp(u)) => if fetched then SavedByYtDlp(u) else Raised(YtDlpError(u))
  }

  /**
   * For the worker's calls (a URL, no uid): the call raises exactly when the URL
   * is empty or it is a non-YouTube URL whose download failed.
   */
  lemma RaisesOnlyOnYtDlpFailure(u: String, fetched: bool)
    ensures DownloadVideo(Some(u), None, fetched).Raised?
        <==> u == [] || (!Contains(u, YouTubeTag) && !fetched)
    ensures u != [] && Contains(u, YouTubeTag) && !fetched ==> DownloadVideo(Some(u), None, fetched) == Logged(Some(u))
  {
    UrlOnlyRoute(u);
  }
}
