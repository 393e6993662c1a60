/**
 * What `run` does with the detector's answer for each query image: the
 * dispatch over the detection status, the loop counter, and the closing
 * summary line.
 */
module Detection {
  import opened Outcomes

  /**
   * The detector's status: a loop, or one of the seven rejection reasons.
   * `Unlisted` stands for any other value the status field can hold, which
   * the switch sends to its `default` branch.
   */
  datatype Status =
    | LoopDetected
    | CloseMatchesOnly
    | NoDbResults
    | LowNssFactor
    | LowScores
    | NoGroups
    | NoTemporalConsistency
    | NoGeometricalConsistency
    | Unlisted(code: int)

  /** The detector's answer for one query: its status and `match`, the matched (or best candidate) image. */
  datatype DetectionResult = DetectionResult(status: Status, matched: nat)
  {
    /** `DetectionResult::detection()`. */
    predicate Detection()
    {
      status == LoopDetected
    }
  }

  /** The line printed for one query image. */
  datatype Diagnostic =
    | LoopFound(image: nat)
    | AllImagesRecent
    | NoDatabaseMatches
    | LittleOverlap
    | BelowScoreThreshold
    | NotEnoughGroups(candidate: nat)
    | NoTemporalConsistencyWith(candidate: nat)
    | NoGeometricalConsistencyWith(candidate: nat)
    | NoReasonGiven

  /** The rejection reason a diagnostic reports, if it reports one. */
  function ReasonOf(d: Diagnostic): Option<Status>
  {
    match d
    case LoopFound(_) => None
    case AllImagesRecent => Some(CloseMatchesOnly)
    case NoDatabaseMatches => Some(NoDbResults)
    case LittleOverlap => Some(LowNssFactor)
    case BelowScoreThreshold => Some(LowScores)
    case NotEnoughGroups(_) => Some(NoGroups)
    case NoTemporalConsistencyWith(_) => Some(NoTemporalConsistency)
    case NoGeometricalConsistencyWith(_) => Some(NoGeometricalConsistency)
    case NoReasonGiven => None
  }

  /** Statuses whose line names the matched or best candidate image. */
  predicate NamesCandidate(s: Status)
  {
    s.LoopDetected? || s.NoGroups? || s.NoTemporalConsistency? || s.NoGeometricalConsistency?
  }

  /** The candidate image a diagnostic names, if it names one. */
  function CandidateOf(d: Diagnostic): Option<nat>
  {
    match d
    case LoopFound(m) => Some(m)
    case NotEnoughGroups(m) => Some(m)
    case NoTemporalConsistencyWith(m) => Some(m)
    case NoGeometricalConsistencyWith(m) => Some(m)
    case _ => None
  }

  /**
   * `if (result.detection())` then the loop line, else the `switch` over the
   * status; the three later rejection branches also print the best candidate.
   */
  function Classify(r: DetectionResult): (d: Diagnostic)
    ensures d.LoopFound? <==> r.Detection()
    ensures d.NoReasonGiven? <==> r.status.Unlisted?
    ensures !r.Detection() && !r.status.Unlisted? ==> ReasonOf(d) == Some(r.status)
    ensures CandidateOf(d).Some? ==> CandidateOf(d).value == r.matched
    ensures CandidateOf(d).Some? <==> NamesCandidate(r.status)
  {
    if r.Detection() then LoopFound(r.matched)
    else
      match r.status
      case CloseMatchesOnly => AllImagesRecent
      case NoDbResults => NoDatabaseMatches
      case LowNssFactor => LittleOverlap
      case LowScores => BelowScoreThreshold
      case NoGroups => NotEnoughGroups(r.matched)
      case NoTemporalConsistency => NoTemporalConsistencyWith(r.matched)
      case NoGeometricalConsistency => NoGeometricalConsistencyWith(r.matched)
      case _ => NoReasonGiven
  }

  /** Distinct rejection reasons are reported by distinct branches. */
  lemma ClassifySeparatesReasons(r1: DetectionResult, r2: DetectionResult)
    requires !r1.Detection() && !r1.status.Unlisted?
    requires !r2.Detection() && !r2.status.Unlisted?
    requires r1.status != r2.status
    ensures Classify(r1) != Classify(r2)
  {
    assert ReasonOf(Classify(r1)) != ReasonOf(Classify(r2));
  }

  /** Number of detections among the answers to the first `n` queries. */
  function CountDetections(oracle: nat -> DetectionResult, n: nat): (c: nat)
    ensures c <= n
    ensures c == 0 <==> forall i :: 0 <= i < n ==> !oracle(i).Detection()
    ensures c == n <==> forall i :: 0 <= i < n ==> oracle(i).Detection()
  {
    if n == 0 then 0
    else CountDetections(oracle, n - 1) + (if oracle(n - 1).Detection() then 1 else 0)
  }

  /** The closing line of the run. */
  datatype Summary = NoLoopsFound | LoopsFound(count: nat)

  /**
   * The query loop: one diagnostic per query image, `count` incremented on
   * every detection, then the summary line. `oracle(i)` is the result
   * `detectLoopDB` fills in for query `i`.
   */
  method ProcessQueries(queries: seq<string>, oracle: nat -> DetectionResult)
    returns (reports: seq<Diagnostic>, count: nat, summary: Summary)
    ensures |reports| == |queries|
    ensures forall i :: 0 <= i < |queries| ==> reports[i] == Classify(oracle(i))
    ensures count == CountDetections(oracle, |queries|)
    ensures summary == NoLoopsFound <==> count == 0
    ensures summary.LoopsFound? ==> summary.count == count
  {
    reports := [];
    count := 0;
    var i := 0;
    while i < |queries|
      invariant i <= |queries|
      invariant |reports| == i
      invariant forall k :: 0 <= k < i ==> reports[k] == Classify(oracle(k))
      invariant count == CountDetections(oracle, i)
    {
      var result := oracle(i);
      if result.Detection() {
        count := count + 1;
      }
      reports := reports + [Classify(result)];
      i := i + 1;
    }
    if count == 0 {
      summary := NoLoopsFound;
    } else {
      summary := LoopsFound(count);
    }
  }

  /** The two-query example: no database results, then a loop with image 0, gives one loop. */
  lemma TwoQueryScenario(oracle: nat -> DetectionResult)
    requires oracle(0).status == NoDbResults
    requires oracle(1) == DetectionResult(LoopDetected, 0)
    ensures CountDetections(oracle, 2) == 1
    ensures Classify(oracle(0)) == NoDatabaseMatches
    ensures Classify(oracle(1)) == LoopFound(0)
  {
  }
}
