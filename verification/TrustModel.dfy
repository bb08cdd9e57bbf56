/** Trusted lists and the status of a trust service in time (`crates/eidas-trust/src/model.rs`). */
module TrustModel {
  import opened Wrappers
  import opened Bytes

  /** `spki` is `None` when the key cannot be encoded again. */
  datatype Certificate = Certificate(der: bytes, spki: Option<bytes>)

  datatype ServiceStatus = ServiceStatus(
    serviceType: Option<string>, status: Option<string>, startingTime: Option<int>,
    certificates: seq<Certificate>, qualifiers: seq<string>)

  datatype TrustService = TrustService(
    serviceType: Option<string>, name: Option<string>,
    currentStatus: Option<string>, startingTime: Option<int>,
    certificates: seq<Certificate>, history: seq<ServiceStatus>, qualifiers: seq<string>)

  datatype Provider = Provider(
    name: Option<string>, tradeName: Option<string>, country: Option<string>, services: seq<TrustService>)

  datatype TrustedList = TrustedList(
    territory: Option<string>, schemeType: Option<string>, sequenceNumber: Option<nat>,
    issueTime: Option<int>, nextUpdate: Option<int>, providers: seq<Provider>)

  type Status = (Option<string>, Option<int>)

  /**
   Entry `i` has begun by `at`; no begun entry begins later, and every begun one before it in the
   list begins strictly earlier.
   */
  ghost predicate LatestAt(hist: seq<ServiceStatus>, at: int, i: nat) {
    i < |hist| && hist[i].startingTime.Some? && hist[i].startingTime.value <= at
    && forall j :: 0 <= j < |hist| && hist[j].startingTime.Some? && hist[j].startingTime.value <= at ==>
         if j < i then hist[j].startingTime.value < hist[i].startingTime.value
         else hist[j].startingTime.value <= hist[i].startingTime.value
  }

  ghost predicate NoneBegun(hist: seq<ServiceStatus>, at: int) {
    forall j :: 0 <= j < |hist| ==> hist[j].startingTime.None? || at < hist[j].startingTime.value
  }

  /** The current period when it has begun by `at`, else the latest begun one of the history, else the current one. */
  ghost predicate IsStatusAt(svc: TrustService, at: int, r: Status) {
    if svc.startingTime.Some? && svc.startingTime.value <= at then
      r == (svc.currentStatus, svc.startingTime)
    else if NoneBegun(svc.history, at) then
      r == (svc.currentStatus, svc.startingTime)
    else
      exists i: nat :: LatestAt(svc.history, at, i) && r == (svc.history[i].status, svc.history[i].startingTime)
  }

  /** The history entry has begun by `at`. */
  predicate Begun(h: ServiceStatus, at: int) {
    h.startingTime.Some? && h.startingTime.value <= at
  }

  predicate CurrentBegun(svc: TrustService, at: int) {
    svc.startingTime.Some? && svc.startingTime.value <= at
  }

  /** `best` is the first of the entries that began last, among those begun by `at`. */
  ghost predicate IsLatest(hist: seq<ServiceStatus>, at: int, best: Option<ServiceStatus>) {
    match best
    case None => forall h :: h in hist ==> !Begun(h, at)
    case Some(b) =>
      b in hist && Begun(b, at)
      && forall h :: h in hist && Begun(h, at) ==> h.startingTime.value <= b.startingTime.value
  }

  function Latest(hist: seq<ServiceStatus>, at: int): (best: Option<ServiceStatus>)
    ensures IsLatest(hist, at, best)
    ensures best.None? ==> NoneBegun(hist, at)
    ensures best.Some? ==> exists i: nat :: LatestAt(hist, at, i) && hist[i] == best.value
  {
    if hist == [] then None
    else
      var n := |hist| - 1;
      var before, h := Latest(hist[..n], at), hist[n];
      assert hist == hist[..n] + [h];
      LatestGrows(hist, at, before);
      if Begun(h, at) && (before.None? || h.startingTime.value > before.value.startingTime.value) then Some(h)
      else before
  }

  /** One more entry: it is the latest when it has begun and begins strictly later. */
  lemma LatestGrows(hist: seq<ServiceStatus>, at: int, before: Option<ServiceStatus>)
    requires hist != []
    requires before.None? ==> NoneBegun(hist[..|hist| - 1], at)
    requires before.Some? ==>
      var front := hist[..|hist| - 1]; exists i: nat :: LatestAt(front, at, i) && front[i] == before.value
    ensures var n := |hist| - 1;
      var h := hist[n];
      if Begun(h, at) && (before.None? || h.startingTime.value > before.value.startingTime.value) then
        LatestAt(hist, at, n)
      else if before.None? then NoneBegun(hist, at)
      else exists i: nat :: LatestAt(hist, at, i) && hist[i] == before.value
  {
    var n := |hist| - 1;
    var h, front := hist[n], hist[..n];
    assert forall j :: 0 <= j < n ==> front[j] == hist[j];
    if before.Some? {
      var i: nat :| LatestAt(front, at, i) && front[i] == before.value;
      if !(Begun(h, at) && h.startingTime.value > before.value.startingTime.value) {
        assert LatestAt(hist, at, i) && hist[i] == before.value;
      }
    }
  }

  /** The current period when it has begun, else the latest begun one, else the current one. */
  function StatusSpec(svc: TrustService, at: int): (r: Status)
    ensures IsStatusAt(svc, at, r)
  {
    if CurrentBegun(svc, at) then (svc.currentStatus, svc.startingTime)
    else
      match Latest(svc.history, at)
      case Some(h) => (h.status, h.startingTime)
      case None => (svc.currentStatus, svc.startingTime)
  }

  method StatusAt(svc: TrustService, at: int) returns (r: Status)
    ensures IsStatusAt(svc, at, r)
    ensures r == StatusSpec(svc, at)
  {
    if svc.startingTime.Some? {
      var start := svc.startingTime.value;
      if at >= start {
        return (svc.currentStatus, Some(start));
      }
    }
    var best: Option<ServiceStatus> := None;
    for i := 0 to |svc.history|
      invariant best == Latest(svc.history[..i], at)
    {
      var h := svc.history[i];
      assert svc.history[..i + 1][..i] == svc.history[..i];
      if h.startingTime.Some? {
        var hst := h.startingTime.value;
        if at >= hst && (best.None? || hst > best.value.startingTime.value) {
          best := Some(h);
        }
      }
    }
    assert svc.history[..|svc.history|] == svc.history;
    match best
    case Some(h) => r := (h.status, h.startingTime);
    case None => r := (svc.currentStatus, svc.startingTime);
  }

  /** At most one entry is the latest, so the status is fully determined. */
  lemma StatusDetermined(svc: TrustService, at: int, r: Status, s: Status)
    requires IsStatusAt(svc, at, r) && IsStatusAt(svc, at, s)
    ensures r == s
  {
  }

  /** Withdrawn from 10, granted from 0 before that: granted at 5. */
  lemma GrantedBeforeWithdrawal()
    ensures var entry := ServiceStatus(None, Some("granted"), Some(0), [], []);
      var svc := TrustService(None, None, Some("withdrawn"), Some(10), [], [entry], []);
      StatusSpec(svc, 5) == (Some("granted"), Some(0)) && StatusSpec(svc, 10) == (Some("withdrawn"), Some(10))
  {
    var entry := ServiceStatus(None, Some("granted"), Some(0), [], []);
    var svc := TrustService(None, None, Some("withdrawn"), Some(10), [], [entry], []);
    assert svc.history[0] == entry;
    assert LatestAt(svc.history, 5, 0);
  }

  // ---------- a step function of time ----------

  /** Some period of the service begins after `from` and by `to`. */
  ghost predicate Changes(svc: TrustService, from: int, to: int) {
    (svc.startingTime.Some? && from < svc.startingTime.value <= to)
    || exists h :: h in svc.history && h.startingTime.Some? && from < h.startingTime.value <= to
  }

  /** The status changes only where a period begins. */
  lemma StatusIsStepFunction(svc: TrustService, from: int, to: int)
    requires from <= to && !Changes(svc, from, to)
    ensures StatusSpec(svc, from) == StatusSpec(svc, to)
  {
    assert forall h :: h in svc.history ==> (Begun(h, from) <==> Begun(h, to));
    LatestSame(svc.history, from, to);
  }

  lemma {:induction false} LatestSame(hist: seq<ServiceStatus>, from: int, to: int)
    requires forall h :: h in hist ==> (Begun(h, from) <==> Begun(h, to))
    ensures Latest(hist, from) == Latest(hist, to)
  {
    if hist != [] {
      LatestSame(hist[..|hist| - 1], from, to);
    }
  }

  // ---------- independence of history order ----------

  ghost predicate DistinctTimes(hist: seq<ServiceStatus>) {
    forall g, h :: g in hist && h in hist && g.startingTime.Some? && g.startingTime == h.startingTime ==> g == h
  }

  /** When no two entries begin at the same time, listing them in another order changes nothing. */
  lemma StatusIgnoresHistoryOrder(svc: TrustService, other: TrustService, at: int)
    requires other.currentStatus == svc.currentStatus && other.startingTime == svc.startingTime
    requires forall h :: h in svc.history <==> h in other.history
    requires DistinctTimes(svc.history)
    ensures StatusSpec(svc, at) == StatusSpec(other, at)
  {
    var a, b := Latest(svc.history, at), Latest(other.history, at);
    assert IsLatest(svc.history, at, a) && IsLatest(other.history, at, b);
    if a.Some? && b.Some? {
      assert a.value in svc.history && b.value in svc.history;
      assert a.value.startingTime == b.value.startingTime;
    }
  }
}
