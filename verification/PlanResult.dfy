/** Execution statuses and the aggregation of host results into a node status. */
module PlanResult {

  datatype Status = Pending | Running | Success | Failed | Skipped

  /** The statuses a finished node can report to the coordinator. */
  predicate IsReport(st: Status) {
    st.Success? || st.Failed? || st.Skipped?
  }

  ghost predicate AnyFailed(hostResults: map<string, Status>) {
    exists h :: h in hostResults && hostResults[h].Failed?
  }

  class NodeResult {
    var status: Status
    var hostResults: map<string, Status>

    constructor (hostResults: map<string, Status>)
      ensures status == Pending && this.hostResults == hostResults
    {
      status := Pending;
      this.hostResults := hostResults;
    }

    /** Failed exactly when some host failed, whatever order the hosts are visited in. */
    method AggregateStatus()
      modifies this`status
      ensures status.Failed? || status.Success?
      ensures status.Failed? <==> AnyFailed(hostResults)
    {
      if |hostResults| == 0 {
        assert hostResults == map[];
        status := Success;
        return;
      }
      var finalStatus := Success;
      var unseen := hostResults.Keys;
      while unseen != {}
        invariant unseen <= hostResults.Keys && finalStatus.Success?
        invariant forall h :: h in hostResults && h !in unseen ==> !hostResults[h].Failed?
        decreases unseen
      {
        var host :| host in unseen;
        unseen := unseen - {host};
        if hostResults[host].Failed? {
          finalStatus := Failed;
          break;
        }
      }
      status := finalStatus;
    }
  }
}
