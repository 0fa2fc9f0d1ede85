/** What holds in every run of `Delivery`. */
module DeliveryTheorems {
  import opened BoundedLog
  import opened LogQueue
  import opened Delivery

  // ------------------------------------------------------------ in every run

  /** The flush lock has one owner; a batch on the way is the last one issued. */
  ghost predicate LockOwned(s: State) {
    && (forall t, u :: HasLock(s, t) && HasLock(s, u) ==> t == u)
    && (forall t :: At(s, t, Sending) ==> s.issued != [] && s.queue.deliveryStopped.None?)
  }

  /** Every accepted line was issued exactly once, in order, or is still pending. */
  ghost predicate Conserved(s: State, bounds: LogBounds) {
    && Accounted(s.queue, bounds, s.accepted)
    && (s.queue.deliveryStopped.None? ==> s.accepted == Flatten(s.issued) + s.queue.pending)
    && Flatten(s.issued) <= s.accepted
    && forall k :: 0 <= k < |s.issued| ==> BatchWithin(s.issued[k], BatchMaxLines(bounds))
  }

  /** The control plane holds items of requests that were sent, each once. */
  ghost predicate ServerSound(s: State) {
    && (forall key :: key in s.sent ==> 0 <= key < |s.issued|)
    && (forall i :: 0 <= i < |s.server| ==>
          var e := s.server[i]; e.key in s.sent && e.key < |s.issued| && e.index < |s.issued[e.key]|)
    && (forall i, j :: 0 <= i < j < |s.server| ==> s.server[i] != s.server[j])
    && (forall i :: 0 <= i < |s.acknowledged| ==>
          var key := s.acknowledged[i]; key < |s.issued| && Stored(s.server, key, |s.issued[key]|))
  }

  ghost predicate Inv(s: State, bounds: LogBounds) {
    LockOwned(s) && Conserved(s, bounds) && ServerSound(s)
  }

  lemma LockStep(s: State, e: Event, bounds: LogBounds)
    requires LockOwned(s) && Enabled(s, e, bounds)
    ensures LockOwned(Next(s, e, bounds))
  {
    hide Accept, Store, BatchSize, Bytes, Stored;
    var next := Next(s, e, bounds);
    if e.LogCall? {
      AcceptKeepsRunning(s.queue, e.log, bounds);
    }
    forall u | HasLock(next, u) && !e.Acquire? ensures HasLock(s, u) {
    }
    forall u | At(next, u, Sending) && !e.Check? ensures At(s, u, Sending) && HasLock(s, u) && HasLock(next, u) {
    }
    if e.Check? {
      assert HasLock(s, e.task);
      forall u | At(next, u, Sending) ensures u == e.task {
        assert u == e.task || HasLock(s, u);
      }
    }
    if e.GiveUp? {
      assert HasLock(s, e.task);
      assert forall u :: HasLock(next, u) ==> u != e.task;
    }
    forall t, u | HasLock(next, t) && HasLock(next, u) ensures t == u {
    }
    forall t | At(next, t, Sending) ensures next.issued != [] && next.queue.deliveryStopped.None? {
    }
  }

  lemma ConservedStep(s: State, e: Event, bounds: LogBounds)
    requires LockOwned(s) && Conserved(s, bounds) && Enabled(s, e, bounds)
    ensures Conserved(Next(s, e, bounds), bounds)
  {
    hide Accept, Take, Accounted, Bytes, BatchWithin, Store, HasLock, LockFree, Stored, LockOwned, Flatten;
    match e {
      case LogCall(t, log) =>
        AcceptKeepsRunning(s.queue, log, bounds);
        AcceptAccounts(s.queue, log, bounds, s.accepted);
        AcceptAppends(s.queue, log, bounds);
      case Check(t) =>
        TakeAccounts(s.queue, bounds, s.accepted, BatchMaxLines(bounds));
        var (queue, taken) := Take(s.queue, BatchMaxLines(bounds));
        if taken.Batch? {
          IssuedNext(s.issued, taken.lines);
          assert Flatten(s.issued) + s.queue.pending == Flatten(s.issued) + taken.lines + queue.pending;
        }
      case GiveUp(t, reason) => FailAccounts(s.queue, bounds, s.accepted, reason);
      case _ =>
    }
  }

  lemma AcceptAppends(queue: LogState, log: DeploymentLog, bounds: LogBounds)
    ensures var (next, result) := Accept(queue, log, bounds);
            result.Queued? ==> next.pending != [] && next.pending == queue.pending + [next.pending[|next.pending| - 1]]
  {
  }

  lemma IssuedNext(issued: seq<seq<DeploymentLog>>, batch: seq<DeploymentLog>)
    ensures Flatten(issued + [batch]) == Flatten(issued) + batch
  {
    assert (issued + [batch])[..|issued|] == issued;
  }

  lemma FailAccounts(queue: LogState, bounds: LogBounds, accepted: seq<DeploymentLog>, reason: string)
    requires Accounted(queue, bounds, accepted)
    ensures Accounted(Fail(queue, reason), bounds, accepted)
  {
  }

  // ------------------------------------------------------------ what a request adds

  /** Storing only appends, and afterwards the first items of the request are there, each once. */
  lemma {:induction false} StoreAppends(server: seq<Entry>, key: nat, items: nat)
    ensures var r := Store(server, key, items);
            && server <= r
            && (forall e :: e in r ==> e in server || (e.key == key && e.index < items))
            && Stored(r, key, items)
  {
    if items > 0 {
      StoreAppends(server, key, items - 1);
      var before := Store(server, key, items - 1);
      var r := Store(server, key, items);
      assert before <= r;
      forall i: nat | i < items ensures Entry(key, i) in r {
        if i < items - 1 {
          assert Entry(key, i) in before;
        }
      }
    }
  }

  ghost predicate Distinct(server: seq<Entry>) {
    forall i, j :: 0 <= i < j < |server| ==> server[i] != server[j]
  }

  lemma {:induction false} StoreKeepsDistinct(server: seq<Entry>, key: nat, items: nat)
    requires Distinct(server)
    ensures Distinct(Store(server, key, items))
  {
    if items > 0 {
      StoreKeepsDistinct(server, key, items - 1);
    }
  }

  lemma ServerStep(s: State, e: Event, bounds: LogBounds)
    requires LockOwned(s) && ServerSound(s) && Enabled(s, e, bounds)
    ensures ServerSound(Next(s, e, bounds))
  {
    hide Accept, HasLock, LockFree, Store, Stored, LockOwned, BatchSize, Bytes;
    match e {
      case Arrive(key, items) => ArriveStep(s, key, items);
      case Check(t) =>
        var next := Next(s, e, bounds);
        assert s.issued <= next.issued;
      case _ =>
    }
  }

  lemma ArriveStep(s: State, key: nat, items: nat)
    requires ServerSound(s) && key in s.sent && key < |s.issued| && items <= |s.issued[key]|
    ensures ServerSound(s.(server := Store(s.server, key, items)))
  {
    hide Store;
    StoreAppends(s.server, key, items);
    assert Distinct(s.server);
    StoreKeepsDistinct(s.server, key, items);
    var after := Store(s.server, key, items);
    forall i | 0 <= i < |after|
      ensures after[i].key in s.sent && after[i].key < |s.issued| && after[i].index < |s.issued[after[i].key]|
    {
      if after[i] in s.server {
        var j :| 0 <= j < |s.server| && s.server[j] == after[i];
      }
    }
    forall i | 0 <= i < |s.acknowledged|
      ensures Stored(after, s.acknowledged[i], |s.issued[s.acknowledged[i]]|)
    {
      var k := s.acknowledged[i];
      StoredStays(s.server, after, k, |s.issued[k]|);
    }
  }

  lemma StoredStays(server: seq<Entry>, after: seq<Entry>, key: nat, items: nat)
    requires server <= after && Stored(server, key, items)
    ensures Stored(after, key, items)
  {
    forall i: nat | i < items ensures Entry(key, i) in after {
      assert Entry(key, i) in server;
    }
  }

  lemma {:induction false} Always(events: seq<Event>, bounds: LogBounds)
    requires Run(events, bounds).Some?
    ensures Inv(Run(events, bounds).value, bounds)
  {
    hide Enabled, Next, LockOwned, Conserved, ServerSound;
    if events == [] {
      Initially(bounds);
    } else {
      var last := |events| - 1;
      Always(events[..last], bounds);
      var s := Run(events[..last], bounds).value;
      LockStep(s, events[last], bounds);
      ConservedStep(s, events[last], bounds);
      ServerStep(s, events[last], bounds);
    }
  }

  lemma Initially(bounds: LogBounds)
    ensures Inv(INITIAL, bounds)
  {
  }
}
