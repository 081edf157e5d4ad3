/** download_video_chunk: one worker's sequential pass over its chunk. */
module Worker {
  import opened Wrappers
  import opened Text
  import opened Download

  /** The call the worker makes for one URL of its chunk. */
  function Call(u: String, fetched: bool): Step {
    DownloadVideo(Some(u), None, fetched)
  }

  /** A run of calls ended in an exception. */
  predicate Stopped(steps: seq<Step>) {
    steps != [] && steps[|steps| - 1].Raised?
  }

  /** The calls download_video(outdir, url=u) for every URL u of the chunk. */
  function Calls(chunk: seq<String>, fetched: seq<bool>): (calls: seq<Step>)
    requires |fetched| == |chunk|
    ensures |calls| == |chunk|
  {
    seq(|chunk|, j requires 0 <= j < |chunk| => Call(chunk[j], fetched[j]))
  }

  /** The steps of a sequence of calls up to and including the first that raises. */
  function TakeThroughRaise(calls: seq<Step>): (steps: seq<Step>)
    ensures |steps| <= |calls|
  {
    if calls == [] then []
    else if calls[0].Raised? then [calls[0]]
    else [calls[0]] + TakeThroughRaise(calls[1..])
  }

  /**
   * What the worker does, where fetched[j] is the outcome of the foreign
   * download of chunk[j]: the calls for its URLs in order, stopping right after
   * the first call that raises.
   */
  function Run(chunk: seq<String>, fetched: seq<bool>): seq<Step>
    requires |fetched| == |chunk|
  {
    TakeThroughRaise(Calls(chunk, fetched))
  }

  /**
   * The loop of download_video_chunk. The exception of a call that raises
   * leaves the loop and is passed on in raised.
   */
  method DownloadChunk(chunk: seq<String>, fetched: seq<bool>) returns (steps: seq<Step>, raised: Option<Fault>)
    requires |fetched| == |chunk|
    ensures steps == Run(chunk, fetched)
    ensures raised.Some? <==> Stopped(steps)
    ensures raised.Some? ==> raised.value == steps[|steps| - 1].fault
  {
    ghost var calls := Calls(chunk, fetched);
    steps, raised := [], None;
    var i := 0;
    while i < |chunk|
      invariant 0 <= i <= |chunk|
      invariant TakeThroughRaise(calls) == steps + TakeThroughRaise(calls[i..])
      invariant !Stopped(steps)
    {
      assert calls[i..][1..] == calls[i + 1..];
      var step := Call(chunk[i], fetched[i]);
      assert step == calls[i..][0];
      steps := steps + [step];
      if step.Raised? {
        raised := Some(step.fault);
        return;
      }
      i := i + 1;
    }
  }

  /** The steps taken are a prefix of the calls, and only the last of them may have raised. */
  lemma {:induction false} TakeIsPrefix(calls: seq<Step>)
    ensures TakeThroughRaise(calls) == calls[..|TakeThroughRaise(calls)|]
    ensures forall j :: 0 <= j < |TakeThroughRaise(calls)| - 1 ==> !calls[j].Raised?
  {
    if calls != [] && !calls[0].Raised? {
      var tail := TakeThroughRaise(calls[1..]);
      TakeIsPrefix(calls[1..]);
      assert calls[..|tail| + 1] == [calls[0]] + calls[1..][..|tail|];
      forall j | 0 < j < |tail| + 1 ensures calls[j] == calls[1..][j - 1] {
      }
    }
  }

  /**
   * The steps cover every call unless they stopped, and they stop exactly when
   * some call raises.
   */
  lemma {:induction false} TakeStopsIffSomeRaises(calls: seq<Step>)
    ensures !Stopped(TakeThroughRaise(calls)) ==> TakeThroughRaise(calls) == calls
    ensures !Stopped(TakeThroughRaise(calls)) <==> forall j :: 0 <= j < |calls| ==> !calls[j].Raised?
  {
    if calls != [] && !calls[0].Raised? {
      var tail := TakeThroughRaise(calls[1..]);
      TakeStopsIffSomeRaises(calls[1..]);
      assert TakeThroughRaise(calls) == [calls[0]] + tail;
      if tail != [] {
        assert TakeThroughRaise(calls)[|tail|] == tail[|tail| - 1];
      }
      forall j | 0 < j < |calls| ensures calls[j] == calls[1..][j - 1] {
      }
      assert calls == [calls[0]] + calls[1..];
    }
  }

  /**
   * The worker's run: step j is the call for chunk[j], no step but the last
   * raised, and the run covers the whole chunk unless it stopped, which it does
   * exactly when the call for some URL of the chunk raises.
   */
  lemma RunCallsInOrder(chunk: seq<String>, fetched: seq<bool>)
    requires |fetched| == |chunk|
    ensures |Run(chunk, fetched)| <= |chunk|
    ensures forall j :: 0 <= j < |Run(chunk, fetched)| ==> Run(chunk, fetched)[j] == Call(chunk[j], fetched[j])
    ensures forall j :: 0 <= j < |Run(chunk, fetched)| - 1 ==> !Run(chunk, fetched)[j].Raised?
    ensures !Stopped(Run(chunk, fetched)) ==> |Run(chunk, fetched)| == |chunk|
    ensures !Stopped(Run(chunk, fetched)) <==> forall j :: 0 <= j < |chunk| ==> !Call(chunk[j], fetched[j]).Raised?
  {
    var calls := Calls(chunk, fetched);
    TakeIsPrefix(calls);
    TakeStopsIffSomeRaises(calls);
    var steps := TakeThroughRaise(calls);
    forall j | 0 <= j < |steps| ensures steps[j] == calls[j] {
      assert steps[j] == calls[..|steps|][j];
    }
  }

  /**
   * The URL whose call stopped the run is empty or is a non-YouTube URL whose
   * yt-dlp download failed; a URL containing "youtube" never stops the run.
   */
  lemma RunStopsOnlyOnYtDlpFailure(chunk: seq<String>, fetched: seq<bool>)
    requires |fetched| == |chunk|
    ensures Stopped(Run(chunk, fetched)) ==>
              var j := |Run(chunk, fetched)| - 1;
              chunk[j] == [] || (!Contains(chunk[j], YouTubeTag) && !fetched[j])
    ensures forall j :: 0 <= j < |Run(chunk, fetched)| && Contains(chunk[j], YouTubeTag) ==> !Run(chunk, fetched)[j].Raised?
  {
    RunCallsInOrder(chunk, fetched);
    var steps := Run(chunk, fetched);
    forall j | 0 <= j < |steps|
      ensures steps[j].Raised? <==> chunk[j] == [] || (!Contains(chunk[j], YouTubeTag) && !fetched[j])
    {
      RaisesOnlyOnYtDlpFailure(chunk[j], fetched[j]);
    }
  }
}
