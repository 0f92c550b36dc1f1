/** Download progress (WriteCounter and the size estimate of DownloadVersion
    in internal/manager/downloader.go). The percentage is computed in
    floating point by the source; here it is the parameter `percent`, so the
    throttle is proved for every way of computing it. */
module Progress {
  import opened Wrappers

  /** The estimate used when neither response gives a length: 140 MiB. */
  const FallbackTotal: int := 140 * 1024 * 1024

  /** The Total handed to the counter: the GET length when positive, else the
      HEAD length when that request succeeded with a positive length, else
      the fallback. */
  function EstimateTotal(getLength: int, headLength: Option<int>): (total: int)
    ensures total > 0
    ensures getLength > 0 ==> total == getLength
    ensures getLength <= 0 && headLength.Some? && headLength.value > 0 ==> total == headLength.value
    ensures getLength <= 0 && (headLength.None? || headLength.value <= 0) ==> total == FallbackTotal
  {
    var total := if getLength <= 0 && headLength.Some? then headLength.value else getLength;
    if total <= 0 then FallbackTotal else total
  }

  /** The counter's fields that change, and the values passed to OnProgress so far. */
  datatype CounterState = CounterState(current: int, lastProgress: int, reported: seq<int>)

  const Initial := CounterState(0, 0, [])

  /** One Write of `n` bytes: the percentage of the new byte count is
      reported, and becomes LastProgress, exactly when there is a callback,
      the total is positive and the percentage exceeds LastProgress. */
  function Step(total: int, hasCallback: bool, percent: (int, int) -> int, s: CounterState, n: nat): (r: CounterState)
    ensures r.current == s.current + n
    ensures r.lastProgress >= s.lastProgress
    ensures r.reported == s.reported || r.reported == s.reported + [r.lastProgress]
    ensures r.reported != s.reported ==> r.lastProgress > s.lastProgress
    ensures (total <= 0 || !hasCallback) ==> r.lastProgress == s.lastProgress && r.reported == s.reported
    ensures total > 0 && hasCallback && percent(s.current + n, total) > s.lastProgress ==>
              r.lastProgress == percent(s.current + n, total) && r.reported == s.reported + [r.lastProgress]
    ensures !(total > 0 && hasCallback && percent(s.current + n, total) > s.lastProgress) ==>
              r.lastProgress == s.lastProgress && r.reported == s.reported
  {
    var current := s.current + n;
    if total > 0 && hasCallback then
      var progress := percent(current, total);
      if progress > s.lastProgress then CounterState(current, progress, s.reported + [progress])
      else CounterState(current, s.lastProgress, s.reported)
    else CounterState(current, s.lastProgress, s.reported)
  }

  function Sum(sizes: seq<nat>): nat {
    if sizes == [] then 0 else Sum(sizes[..|sizes| - 1]) + sizes[|sizes| - 1]
  }

  /** A fresh counter after writes of the given sizes. */
  function Run(total: int, hasCallback: bool, percent: (int, int) -> int, sizes: seq<nat>): CounterState {
    if sizes == [] then Initial
    else Step(total, hasCallback, percent, Run(total, hasCallback, percent, sizes[..|sizes| - 1]), sizes[|sizes| - 1])
  }

  predicate StrictlyIncreasing(s: seq<int>) {
    forall i, j :: 0 <= i < j < |s| ==> s[i] < s[j]
  }

  /** Across calls, the reported values rise strictly, all are at least 1,
      the last one is LastProgress, there is at most one per write, and
      Current is the number of bytes written. */
  lemma {:induction false} RunReports(total: int, hasCallback: bool, percent: (int, int) -> int, sizes: seq<nat>)
    ensures var r := Run(total, hasCallback, percent, sizes);
            && r.current == Sum(sizes)
            && |r.reported| <= |sizes|
            && StrictlyIncreasing(r.reported)
            && (forall i :: 0 <= i < |r.reported| ==> r.reported[i] >= 1)
            && (if r.reported == [] then r.lastProgress == 0 else r.lastProgress == r.reported[|r.reported| - 1])
    decreases |sizes|
  {
    if sizes != [] {
      RunReports(total, hasCallback, percent, sizes[..|sizes| - 1]);
    }
  }

  /** With a callback and a positive total, every reported value is the
      percentage of the byte count after some write, and no write's
      percentage exceeds the final LastProgress: each rise above the last
      report is reported. */
  lemma {:induction false} RunReportsPercentages(total: int, hasCallback: bool, percent: (int, int) -> int, sizes: seq<nat>)
    requires total > 0 && hasCallback
    ensures var r := Run(total, hasCallback, percent, sizes);
            && (forall i :: 0 <= i < |r.reported| ==>
                  exists k :: 1 <= k <= |sizes| && r.reported[i] == percent(Sum(sizes[..k]), total))
            && (forall k :: 1 <= k <= |sizes| ==> percent(Sum(sizes[..k]), total) <= r.lastProgress)
    decreases |sizes|
  {
    if sizes != [] {
      var init := sizes[..|sizes| - 1];
      RunReportsPercentages(total, hasCallback, percent, init);
      RunReports(total, hasCallback, percent, init);
      var before := Run(total, hasCallback, percent, init);
      var r := Run(total, hasCallback, percent, sizes);
      assert sizes[..|sizes|] == sizes;
      assert forall k :: 1 <= k <= |init| ==> init[..k] == sizes[..k];
      forall i | 0 <= i < |r.reported|
        ensures exists k :: 1 <= k <= |sizes| && r.reported[i] == percent(Sum(sizes[..k]), total)
      {
        if i < |before.reported| {
          var k :| 1 <= k <= |init| && before.reported[i] == percent(Sum(init[..k]), total);
          assert r.reported[i] == percent(Sum(sizes[..k]), total);
        } else {
          assert r.reported[i] == percent(Sum(sizes[..|sizes|]), total);
        }
      }
    }
  }

  /** Without a callback, or without a positive total, nothing is reported. */
  lemma {:induction false} RunSilent(total: int, hasCallback: bool, percent: (int, int) -> int, sizes: seq<nat>)
    requires total <= 0 || !hasCallback
    ensures Run(total, hasCallback, percent, sizes).reported == []
    ensures Run(total, hasCallback, percent, sizes).lastProgress == 0
    decreases |sizes|
  {
    if sizes != [] {
      RunSilent(total, hasCallback, percent, sizes[..|sizes| - 1]);
    }
  }

  /** Nothing caps the reported value at 100: with an estimate below the
      real size and an exact percentage, the counter reports 200. */
  lemma ProgressNotClamped()
    ensures Run(10, true, (c, t) => if t == 0 then 0 else c * 100 / t, [20]).reported == [200]
  {
    assert [20][..0] == [];
  }

  /** io.Writer over the download stream that reports progress. */
  class WriteCounter {
    const total: int
    const hasCallback: bool
    const percent: (int, int) -> int
    var current: int
    var lastProgress: int
    var reported: seq<int>

    function State(): CounterState
      reads this
    {
      CounterState(current, lastProgress, reported)
    }

    constructor (total: int, hasCallback: bool, percent: (int, int) -> int)
      ensures this.total == total && this.hasCallback == hasCallback && this.percent == percent
      ensures State() == Initial
    {
      this.total := total;
      this.hasCallback := hasCallback;
      this.percent := percent;
      current, lastProgress, reported := 0, 0, [];
    }

    /** Always accepts all of `p`; reports a new percentage only when it
        exceeds the last one reported. */
    method Write(p: string) returns (n: int, err: Option<Error>)
      modifies this
      ensures n == |p| && err == None
      ensures State() == Step(total, hasCallback, percent, old(State()), |p|)
      ensures lastProgress >= old(lastProgress)
    {
      n := |p|;
      current := current + n;
      if total > 0 && hasCallback {
        var progress := percent(current, total);
        if progress > lastProgress {
          lastProgress := progress;
          reported := reported + [progress];
        }
      }
      err := None;
    }
  }
}
