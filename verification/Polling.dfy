/** `LastOperation`: classifying a release's status for a platform that polls. */
module Polling {
  import opened Outcomes
  import opened StatusReport
  import Reports

  datatype ReleaseStatus = ReleaseStatus(isFailed: bool, isDeployed: bool, isAvailable: bool,
                                         isDeleted: bool, isDeleting: bool)

  /** `release.GetStatus`, as written: the deleted flag is filled from the deployed flag. */
  function AsWritten(s: Status): ReleaseStatus {
    ReleaseStatus(s.isFailed, s.isDeployed, s.availableNodes >= s.desiredNodes, s.isDeployed, s.isDeleting)
  }

  /** With the deleted flag taken from the deleted flag. */
  function AsIntended(s: Status): ReleaseStatus {
    AsWritten(s).(isDeleted := s.isDeleted)
  }

  /** `NoState` stands for the empty answer, which the broker interface does not allow. */
  datatype PollState = FailedState | Succeeded | InProgress | NoState

  function Poll(r: ReleaseStatus): PollState {
    if r.isFailed then FailedState
    else if r.isAvailable || r.isDeleted then Succeeded
    else if (r.isDeployed && !r.isAvailable) || r.isDeleting then InProgress
    else NoState
  }

  /** A status as the reader finishes it, for some report, clock and status code. */
  ghost predicate Finished(s: Status, late: bool, code: Code) {
    exists release, namespace, tally, lastDeployment, timeout, now ::
      s == Finish(release, namespace, tally, lastDeployment, timeout, now, code)
      && late == (now > lastDeployment + timeout)
  }

  /** Over every status code, clock and report: at most one of deployed, deleted and deleting holds, and
      at least one flag is set. */
  lemma FlagsExclusive(s: Status, late: bool, code: Code)
    requires Finished(s, late, code)
    ensures !(s.isDeployed && s.isDeleted) && !(s.isDeployed && s.isDeleting) && !(s.isDeleted && s.isDeleting)
    ensures s.isFailed || s.isDeployed || s.isDeleted || s.isDeleting
  {
  }

  /** What the intended answer means: it is one of the three states, and which one depends on the
      status code, the deadline and the missing nodes alone. */
  lemma IntendedAnswer(s: Status, late: bool, code: Code)
    requires Finished(s, late, code)
    ensures var missing := s.availableNodes < s.desiredNodes;
            var gone := code !in {Deployed, Deleted, Deleting};
            Poll(AsIntended(s)) ==
            if gone || (late && missing) then FailedState
            else if !missing || code == Deleted then Succeeded
            else InProgress
  {
  }

  /** The code as written answers differently exactly when the release is not failed, not available, and
      deployed or deleted. */
  lemma WrittenDiffersExactly(s: Status, late: bool, code: Code)
    requires Finished(s, late, code)
    ensures Poll(AsWritten(s)) != Poll(AsIntended(s)) <==>
            !s.isFailed && s.availableNodes < s.desiredNodes && (s.isDeployed || s.isDeleted)
  {
  }

  /** As written, a deployed release is never in progress, and a deleted one that is not failed and has
      nodes missing gets the empty answer; nothing else does. */
  lemma WrittenAnswers(s: Status, late: bool, code: Code)
    requires Finished(s, late, code)
    ensures s.isDeployed ==> Poll(AsWritten(s)) != InProgress
    ensures Poll(AsWritten(s)) == NoState <==>
            s.isDeleted && !s.isFailed && s.availableNodes < s.desiredNodes
  {
  }

  // ---------- statuses of Tiller's replies ----------

  /** What the cluster and the clock contribute to a status: what reading the release's report yields, and
      the times. */
  datatype Cluster = Cluster(reading: Outcome<Tally>, lastDeployment: int, timeout: int, now: int)

  /** Tiller answers for a DELETED or FAILED release without looking at its resources. */
  predicate WithoutResources(code: Code) {
    code == Deleted || code == Failed
  }

  function ReplyStatus(name: string, namespace: string, code: Code, cluster: Cluster): Outcome<Status> {
    var tally :- if WithoutResources(code) then Return(NOTHING) else cluster.reading;
    Return(Finish(name, namespace, tally, cluster.lastDeployment, cluster.timeout, cluster.now, code))
  }

  /** That is the status of the text Tiller sends. */
  lemma ReplyIsStatusOf(name: string, namespace: string, code: Code, cluster: Cluster, resources: string)
    requires cluster.reading == Reports.Reading(resources)
    ensures ReplyStatus(name, namespace, code, cluster) ==
            Reports.StatusOf(name, namespace, cluster.lastDeployment, cluster.timeout, cluster.now, code,
                             if WithoutResources(code) then "" else resources)
  {
    if WithoutResources(code) {
      assert Reports.PrintReport([]) == "";
      Reports.PrintedReading([]);
    }
  }

  predicate Late(cluster: Cluster) {
    cluster.now > cluster.lastDeployment + cluster.timeout
  }

  /** On Tiller's replies the flaw shows exactly for deployed releases with nodes missing before the
      deadline: they are reported as succeeded instead of in progress. The empty answer never occurs,
      because a DELETED release comes without resources. */
  lemma ReplyDiffersExactly(name: string, namespace: string, code: Code, cluster: Cluster)
    requires ReplyStatus(name, namespace, code, cluster).Return?
    ensures var s := ReplyStatus(name, namespace, code, cluster).value;
            && Poll(AsWritten(s)) != NoState
            && (Poll(AsWritten(s)) != Poll(AsIntended(s)) <==>
                  code == Deployed && s.availableNodes < s.desiredNodes && !Late(cluster))
            && (Poll(AsWritten(s)) != Poll(AsIntended(s)) ==>
                  Poll(AsWritten(s)) == Succeeded && Poll(AsIntended(s)) == InProgress)
  {
  }
}
