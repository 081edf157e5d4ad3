# video-downloader: a verified model of `download.py`

`download.py` reads a file of video URLs, splits the list into one chunk per
worker process and has every worker download its chunk, one URL after the
other. It handles a URL in one of two ways. The YouTube path goes through
pytubefix and saves `<uid>.mp4`. The yt-dlp path lets yt-dlp pick the file
name. This project models the sequential logic around those downloads in
Dafny and proves its properties:

- **the round-robin partitioner** of `download_videos_in_parallel`
  (`chunking.dfy`). Chunk `i` is the extended slice `video_urls[i::num_processes]`.
  The loop that builds the chunks is a method proved against the specification
  function `RoundRobin`. Lemmas about `RoundRobin` give the partition laws:
  where each index lands, order inside a chunk, chunk lengths, balance, empty
  trailing chunks, and completeness as a multiset.
- **`download_video`** (`download.dfy`). This covers the argument check, the
  choice between the YouTube and yt-dlp paths, and the identifier
  `url.split('?v=')[-1].strip()`. It also covers the different fate of a
  failed download on each path: the YouTube path catches and prints it, the
  yt-dlp path lets the exception escape.
- **`download_video_chunk`** (`worker.dfy`). This is one worker's loop, written
  as a method with loop invariants and proved against the specification
  function `Run`: the calls for the chunk's URLs, in order, up to and
  including the first that raises.
- **the line filter of `main`** (`input.dfy`), `[line.strip() for line in f if line.strip()]`.
- **the Python string operations these rely on** (`text.dfy`): `str.strip()`,
  `sub in s` and `str.split(sep)`. Split is modelled the way Python scans, from
  the left and cutting at each non-overlapping occurrence.

The foreign download call is not modelled. Each URL's download is given to the
model as a boolean outcome (`fetched`), true when the download succeeded.
Because `DeriveUid` is a Dafny function of the URL alone, the same URL always
yields the same identifier.

Assumption: whitespace for `strip()` is Python's `str.isspace()` restricted to
ASCII. That is space, `\t`, `\n`, `\v`, `\f`, `\r` and `\x1c`–`\x1f`.

Two behaviours of the program are worth stating outright:

- **A failed yt-dlp download stops its worker.** It raises out of
  `download_video_chunk` (download.py:29-30), and the rest of that chunk is not
  attempted. A YouTube-path failure is caught and printed (download.py:15-20),
  and the loop goes on. `Worker.RunCallsInOrder` and
  `Worker.RunStopsOnlyOnYtDlpFailure` state this.
- **Only the text after the last `?v=` names a YouTube-path file.**
  `Download.UidOfTail` proves that everything before the last `?v=` is ignored.
  So two URLs that both contain `youtube` and share the text after their last
  `?v=` are saved under the same `<uid>.mp4`. A URL without `youtube` goes to
  yt-dlp, which names its file itself (download.py:24), so this does not apply
  to it.

## Model

| member | source | states |
|---|---|---|
| `Chunking.SplitIntoChunks` | download.py:40-42 | the chunk list built by the loop is `RoundRobin(urls, num_processes)`: one chunk per iteration, chunk `i` being `urls[i::num_processes]`, and no chunk when `num_processes < 1` |
| `Chunking.StrideAt` | download.py:42 | position `j` of the slice `s[k::w]` exists iff index `k + j*w` exists in `s`, and holds `s[k + j*w]` |
| `Chunking.ChunkContents` | download.py:40-42 | there are exactly `w` chunks; chunk `k` holds `s[k], s[k+w], s[k+2w], …` and nothing else |
| `Chunking.ChunkKeepsOrder` | download.py:42 | inside a chunk, a later position comes from a strictly later index of the input (relative order is kept) |
| `Chunking.IndexLandsInChunk` | download.py:40-42 | input index `i` is in chunk `i mod w` at position `i div w` |
| `Chunking.PositionComesFromOneIndex` | download.py:40-42 | position `j` of chunk `k` comes from input index `k + j*w`, and that index maps back to `(k, j)`, so indices and chunk positions correspond one to one |
| `Chunking.ChunkLength` | download.py:42 | chunk `k` has `⌈(N − k)/w⌉` elements (0 when `k ≥ N`) |
| `Chunking.ChunksBalanced` | download.py:42 | chunk lengths never increase with the chunk number, and any two differ by at most 1 |
| `Chunking.FewUrlsOnePerChunk` | download.py:40-42 | with `N ≤ w`, chunk `k` is `[s[k]]` for `k < N` and empty otherwise |
| `Chunking.RoundRobinSnoc` | download.py:40-42 | appending a URL at index `N` adds it to the end of chunk `N mod w` and changes no other chunk |
| `Chunking.ChunksPartitionInput` | download.py:40-42 | the chunks together hold the input as a multiset, and their lengths sum to `N` |
| `Text.Strip` | download.py:65 | `strip()` leaves no whitespace at either end, and the result is empty iff the line is all whitespace |
| `Text.StripIsInfix` | download.py:65 | `strip()` returns an infix `s[i..j]` with only whitespace outside it |
| `Text.StripIdempotent` | download.py:65 | stripping twice is stripping once |
| `Text.FirstOccurrence` | download.py:12 | the result is the least index where the pattern occurs, or none when it does not occur |
| `Text.Contains` | download.py:12 | `pat in s` holds iff the pattern occurs at some index |
| `Text.Split` | download.py:14 | `split(sep)` always gives at least one piece, and at most one more than the string's length |
| `Text.SplitJoin` | download.py:14 | joining the pieces of `split(sep)` with `sep` gives back the string |
| `Text.SplitCutsIffContains` | download.py:14 | `split(sep)` gives a single piece iff `sep` does not occur in the string |
| `Text.SplitPiecesLackSep` | download.py:14 | no piece of `split(sep)` contains `sep` |
| `Text.JoinLast` | download.py:14 | the last piece of a split follows the last separator |
| `Download.DeriveUid` | download.py:14 | the identifier has no surrounding whitespace |
| `Download.MarkerBeforeTail` | download.py:14 | in `front + "?v=" + tail` with no `?v=` in `tail`, the inserted marker is the last occurrence |
| `Download.UidAfterLastMarker` | download.py:14 | the identifier is the stripped text after the last `?v=`, or the whole stripped URL when there is none |
| `Download.UidOfTail` | download.py:14 | `prefix + "?v=" + t`, with no `?v=` in `t`, yields `strip(t)` whatever the prefix |
| `Download.Dispatch` | download.py:10-21 | the assertion fails iff neither `url` nor `uid` is truthy; the YouTube path is taken iff a uid is passed or `"youtube"` is in the URL; a given URL, not the uid, names the file; otherwise the yt-dlp path gets the URL |
| `Download.UrlOnlyRoute` | download.py:10-21 | called with a URL only, the check fails iff the URL is empty; a non-empty URL goes to YouTube with stem `DeriveUid(url)` iff it contains `"youtube"`, and to yt-dlp otherwise |
| `Download.UrlOverridesUid` | download.py:12-14 | with a non-empty URL, the uid argument is ignored and the URL derives the stem |
| `Download.DownloadVideo` | download.py:9-30 | a YouTube-path call saves `<stem>.mp4` on success and logs on failure; a yt-dlp-path call raises on failure; the call raises iff the check fails or a yt-dlp download fails |
| `Download.RaisesOnlyOnYtDlpFailure` | download.py:15-30 | for a URL-only call: it raises iff the URL is empty or is a non-YouTube URL whose download failed; a failed YouTube download is logged, not raised |
| `Worker.DownloadChunk` | download.py:33-36 | the loop's steps are `Run(chunk, fetched)`: the calls for the chunk's URLs in order, up to and including the first that raises; the loop passes an exception on iff its last step raised, and that exception is the one passed on |
| `Worker.Calls` | download.py:35-36 | there is one call `download_video(outdir, url=u)` per URL of the chunk |
| `Worker.TakeThroughRaise` | download.py:35-36 | a run never takes more steps than there are calls |
| `Worker.TakeIsPrefix` | download.py:35-36 | the steps taken are a prefix of the calls, and only the last may have raised |
| `Worker.TakeStopsIffSomeRaises` | download.py:35-36 | the run takes every call unless it stopped on an exception, and it stops iff some call raises |
| `Worker.RunCallsInOrder` | download.py:33-36 | step `j` of the worker's run is `download_video(outdir, url=chunk[j])`; no step but the last raised; the run covers the whole chunk iff no call for the chunk raises |
| `Worker.RunStopsOnlyOnYtDlpFailure` | download.py:15-36 | the URL that stops a worker is empty or a non-YouTube URL whose yt-dlp download failed; a URL containing `"youtube"` never stops it |
| `Input.ReadUrls` | download.py:65 | every URL is a non-empty stripped string and there are no more URLs than lines |
| `Input.ReadUrlsAppend` | download.py:65 | the filter works line by line in order: `ReadUrls(a + b) == ReadUrls(a) + ReadUrls(b)` |
| `Input.ReadUrlsOfLine` | download.py:65 | one line yields its stripped form, or nothing when it is blank |
| `Input.ReadUrlsLength` | download.py:65 | the number of URLs equals the number of non-blank lines |
| `Input.ReadUrlsIdempotent` | download.py:65 | filtering the URL list again changes nothing |
| `Input.WorkersGetNonEmptyUrls` | download.py:65-71 | every URL that `main` hands to a worker is non-empty and stripped, so the argument check of `download_video` always passes there |

## Left out

- The foreign downloads are not modelled: `YouTube(...)`, `get_lowest_resolution`,
  `ys.download`, `yt_dlp.YoutubeDL`/`ydl.download` (download.py:16-18, 23-30).
  They do network and disk I/O. Each is replaced by a boolean outcome per URL.
- `Download.DownloadVideo`: the output directory is not a parameter. A
  successful YouTube download is recorded by its file name `<uid>.mp4` only.
  The name yt-dlp chooses (`%(id)s.%(ext)s`) is decided by yt-dlp and is not
  modelled.
- `multiprocessing.Pool` / `pool.map` (download.py:48-49) is not modelled.
  Every chunk is modelled as an independent sequential loop. Also left out:
  `Pool(n)` raising `ValueError` for `n < 1`, and an exception from a worker
  re-raising in the parent.
- The command line is not modelled: argparse, `cpu_count()`, opening and
  reading the file, `os.makedirs` and `print` (download.py:53-61, 64, 68, 20).
  `Input.ReadUrls` takes the file's lines as given.
- `Text.Strip`: non-ASCII whitespace such as U+0085, U+00A0 and U+2000–U+200A
  is not treated as whitespace, although Python's `strip()` removes it.
- Filename collisions in the output directory are not modelled. Which write
  wins is decided by the file system.
