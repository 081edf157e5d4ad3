/**
 * The URL list of main: every line of the input file stripped, blank lines
 * dropped. The file itself is not modelled; the model starts from its lines.
 */
module Input {
  import opened Wrappers
  import opened Text
  import opened Chunking
  import opened Download

  /** A line is blank when strip() leaves nothing of it. */
  predicate IsBlank(line: String) {
    Strip(line) == []
  }

  /** [line.strip() for line in f if line.strip()] */
  function ReadUrls(lines: seq<String>): (urls: seq<String>)
    ensures |urls| <= |lines|
    ensures forall j :: 0 <= j < |urls| ==> urls[j] != [] && IsStripped(urls[j])
  {
    if lines == [] then []
    else (if IsBlank(lines[0]) then [] else [Strip(lines[0])]) + ReadUrls(lines[1..])
  }

  /**
   * The filter works line by line and keeps the order: the URLs of a + b are
   * those of a followed by those of b.
   */
  lemma {:induction false} ReadUrlsAppend(a: seq<String>, b: seq<String>)
    ensures ReadUrls(a + b) == ReadUrls(a) + ReadUrls(b)
    decreases |a|
  {
    if a == [] {
      assert a + b == b;
    } else {
      assert (a + b)[1..] == a[1..] + b;
      ReadUrlsAppend(a[1..], b);
    }
  }

  /** A single line gives its stripped form, or nothing when it is blank. */
  lemma ReadUrlsOfLine(line: String)
    ensures ReadUrls([line]) == if IsBlank(line) then [] else [Strip(line)]
  {
    assert [line][1..] == [];
  }

  /** The positions of the lines that are not blank. */
  function NonBlankIndices(lines: seq<String>): set<int>
  {
    set i | 0 <= i < |lines| && !IsBlank(lines[i])
  }

  lemma NonBlankIndicesSnoc(init: seq<String>, line: String)
    ensures |init| !in NonBlankIndices(init)
    ensures NonBlankIndices(init + [line])
         == NonBlankIndices(init) + (if IsBlank(line) then {} else {|init|})
  {
    var lines := init + [line];
    forall i | 0 <= i < |init| ensures lines[i] == init[i] {
    }
  }

  /** There are as many URLs as non-blank lines. */
  lemma {:induction false} ReadUrlsLength(lines: seq<String>)
    ensures |ReadUrls(lines)| == |NonBlankIndices(lines)|
    decreases |lines|
  {
    if lines == [] {
      assert NonBlankIndices(lines) == {};
    } else {
      var init, line := lines[..|lines| - 1], lines[|lines| - 1];
      assert lines == init + [line];
      ReadUrlsLength(init);
      ReadUrlsAppend(init, [line]);
      ReadUrlsOfLine(line);
      NonBlankIndicesSnoc(init, line);
    }
  }

  /** Reading the URL list back through the filter changes nothing. */
  lemma {:induction false} ReadUrlsIdempotent(lines: seq<String>)
    ensures ReadUrls(ReadUrls(lines)) == ReadUrls(lines)
    decreases |lines|
  {
    if lines != [] {
      var head := if IsBlank(lines[0]) then [] else [Strip(lines[0])];
      ReadUrlsIdempotent(lines[1..]);
      ReadUrlsAppend(head, ReadUrls(lines[1..]));
      if !IsBlank(lines[0]) {
        StripIdempotent(lines[0]);
        ReadUrlsOfLine(Strip(lines[0]));
      }
    }
  }

  /**
   * What main hands to the workers: every URL a worker receives is non-empty
   * and stripped, so download_video's argument check always passes in the
   * workers and only a failed yt-dlp download can end a chunk early.
   */
  lemma WorkersGetNonEmptyUrls(lines: seq<String>, w: int, k: int, j: nat)
    requires 0 <= k < w
    requires j < |RoundRobin(ReadUrls(lines), w)[k]|
    ensures var u := RoundRobin(ReadUrls(lines), w)[k][j];
            u != [] && IsStripped(u) && Dispatch(Some(u), None).Ok?
  {
    var urls := ReadUrls(lines);
    PositionComesFromOneIndex(urls, w, k, j);
    var u := urls[k + j * w];
    assert u != [] && IsStripped(u);
    UrlOnlyRoute(u);
  }
}
