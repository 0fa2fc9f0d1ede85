/**
 Exactly-once, in-order delivery: when no task is dropped half-way, the control
 plane holds the acknowledged batches in order and at most part of one more.
 */
module DeliveryOrder {
  import opened BoundedLog
  import opened LogQueue
  import opened Delivery
  import opened DeliveryTheorems

  /** No caller's future is dropped inside `flush_pending` or on the way to it. */
  ghost predicate NothingDropped(events: seq<Event>) {
    forall i :: 0 <= i < |events| ==> !events[i].DropTask?
  }

  ghost predicate Busy(s: State) {
    exists t :: At(s, t, Sending)
  }

  /** The first `items` items of the request under `key`. */
  function Part(key: nat, items: nat): (r: seq<Entry>) {
    seq(items, i requires 0 <= i < items => Entry(key, i))
  }

  /** All items of the first `n` batches, in order. */
  function Whole(issued: seq<seq<DeploymentLog>>, n: nat): (r: seq<Entry>)
    requires n <= |issued|
  {
    if n == 0 then [] else Whole(issued, n - 1) + Part(n - 1, |issued[n - 1]|)
  }

  /** Where a run without drops stands: the first batches are stored and acknowledged, and `m` items of the next. */
  ghost predicate Ordered(s: State, m: nat) {
    var a := |s.acknowledged|;
    && a <= |s.issued| <= a + 1
    && (forall i :: 0 <= i < a ==> s.acknowledged[i] == i)
    && m <= (if a < |s.issued| then |s.issued[a]| else 0)
    && s.server == Whole(s.issued, a) + Part(a, m)
    && (s.queue.deliveryStopped.None? ==> (|s.issued| == a + 1 <==> Busy(s)))
    && (s.queue.deliveryStopped.Some? ==> |s.issued| == a + 1)
  }

  lemma {:induction false} WholeEntries(issued: seq<seq<DeploymentLog>>, n: nat)
    requires n <= |issued|
    ensures forall e: Entry :: e in Whole(issued, n) <==> e.key < n && e.index < |issued[e.key]|
  {
    if n > 0 {
      WholeEntries(issued, n - 1);
      var last := Part(n - 1, |issued[n - 1]|);
      PartEntries(n - 1, |issued[n - 1]|);
    }
  }

  lemma PartEntries(key: nat, items: nat)
    ensures forall e: Entry :: e in Part(key, items) <==> e.key == key && e.index < items
  {
    forall e: Entry | e.key == key && e.index < items ensures e in Part(key, items) {
      assert Part(key, items)[e.index] == e;
    }
  }

  lemma {:induction false} WholeStays(issued: seq<seq<DeploymentLog>>, more: seq<seq<DeploymentLog>>, n: nat)
    requires n <= |issued| && issued <= more
    ensures Whole(more, n) == Whole(issued, n)
  {
    if n > 0 {
      WholeStays(issued, more, n - 1);
    }
  }

  lemma {:induction false} StoreKnown(server: seq<Entry>, key: nat, items: nat)
    requires Stored(server, key, items)
    ensures Store(server, key, items) == server
  {
    if items > 0 {
      StoreKnown(server, key, items - 1);
    }
  }

  /** The items of the batch on the way are appended behind the ones already there. */
  lemma {:induction false} StorePart(before: seq<Entry>, key: nat, m: nat, items: nat)
    requires forall e :: e in before ==> e.key != key
    ensures Store(before + Part(key, m), key, items) == before + Part(key, if items <= m then m else items)
  {
    PartEntries(key, m);
    if items <= m {
      StoreKnown(before + Part(key, m), key, items);
    } else {
      StorePart(before, key, m, items - 1);
      PartEntries(key, items - 1);
      assert Entry(key, items - 1) !in before + Part(key, items - 1);
      assert Part(key, items) == Part(key, items - 1) + [Entry(key, items - 1)];
      assert before + Part(key, items - 1) + [Entry(key, items - 1)] == before + Part(key, items);
    }
  }

  lemma ArriveOrdered(s: State, m: nat, key: nat, items: nat) returns (n: nat)
    requires Ordered(s, m) && key < |s.issued| && items <= |s.issued[key]|
    ensures Ordered(s.(server := Store(s.server, key, items)), n)
  {
    hide Store, Part, Whole;
    var a := |s.acknowledged|;
    var next := s.(server := Store(s.server, key, items));
    SameTasksSameBusy(s, next);
    WholeEntries(s.issued, a);
    if key < a {
      assert Stored(s.server, key, items);
      StoreKnown(s.server, key, items);
      n := m;
    } else {
      StorePart(Whole(s.issued, a), a, m, items);
      n := if items <= m then m else items;
    }
  }

  lemma SameTasksSameBusy(s: State, next: State)
    requires next.tasks == s.tasks
    ensures Busy(next) <==> Busy(s)
  {
    assert forall t :: At(next, t, Sending) <==> At(s, t, Sending);
  }

  lemma AckOrdered(s: State, m: nat, t: nat, bounds: LogBounds)
    requires Ordered(s, m) && LockOwned(s) && Enabled(s, Ack(t), bounds)
    ensures Ordered(Next(s, Ack(t), bounds), 0)
  {
    hide Part, Whole;
    var a := |s.acknowledged|;
    var next := Next(s, Ack(t), bounds);
    assert Busy(s) && HasLock(s, t);
    assert !Busy(next) by {
      forall u ensures !At(next, u, Sending) {
        assert At(next, u, Sending) ==> HasLock(s, u);
      }
    }
    WholeEntries(s.issued, a);
    PartEntries(a, m);
    assert Entry(a, m) !in s.server;
    WholeUnfolds(s.issued, a);
    NoPart(a + 1);
  }

  lemma WholeUnfolds(issued: seq<seq<DeploymentLog>>, n: nat)
    requires n < |issued|
    ensures Whole(issued, n + 1) == Whole(issued, n) + Part(n, |issued[n]|)
  {
  }

  lemma NoPart(key: nat)
    ensures Part(key, 0) == []
  {
  }

  lemma CheckOrdered(s: State, m: nat, t: nat, bounds: LogBounds)
    requires Ordered(s, m) && LockOwned(s) && Enabled(s, Check(t), bounds)
    ensures Ordered(Next(s, Check(t), bounds), m)
  {
    hide Part, Whole, BatchSize, Bytes;
    var next := Next(s, Check(t), bounds);
    var (queue, taken) := Take(s.queue, BatchMaxLines(bounds));
    assert HasLock(s, t);
    assert !Busy(s) by {
      forall u ensures !At(s, u, Sending) {
        assert At(s, u, Sending) ==> HasLock(s, u);
      }
    }
    if taken.Batch? {
      assert At(next, t, Sending);
      WholeStays(s.issued, next.issued, |s.acknowledged|);
    } else {
      assert forall u :: At(next, u, Sending) ==> At(s, u, Sending);
    }
  }

  lemma OtherOrdered(s: State, m: nat, e: Event, bounds: LogBounds)
    requires Ordered(s, m) && LockOwned(s) && Enabled(s, e, bounds)
    requires !e.DropTask? && !e.Arrive? && !e.Ack? && !e.Check?
    ensures Ordered(Next(s, e, bounds), m)
  {
    hide Part, Whole, Accept, LockOwned;
    var next := Next(s, e, bounds);
    if e.LogCall? {
      AcceptKeepsRunning(s.queue, e.log, bounds);
    }
    if e.GiveUp? {
      assert At(s, e.task, Sending);
      GiveUpWasRunning(s, e.task);
    } else {
      assert forall u :: At(next, u, Sending) <==> At(s, u, Sending);
    }
  }

  lemma GiveUpWasRunning(s: State, t: nat)
    requires LockOwned(s) && At(s, t, Sending)
    ensures s.queue.deliveryStopped.None?
  {
  }

  lemma {:induction false} StaysOrdered(events: seq<Event>, bounds: LogBounds) returns (m: nat)
    requires Run(events, bounds).Some? && NothingDropped(events)
    ensures Ordered(Run(events, bounds).value, m)
  {
    hide Enabled, Next, LockOwned, Conserved, ServerSound, Ordered;
    if events == [] {
      m := 0;
      InitiallyOrdered();
    } else {
      var last := |events| - 1;
      var s, e := Run(events[..last], bounds).value, events[last];
      var n := StaysOrdered(events[..last], bounds);
      Always(events[..last], bounds);
      m := StepOrdered(s, n, e, bounds);
    }
  }

  lemma InitiallyOrdered()
    ensures Ordered(INITIAL, 0)
  {
  }

  lemma StepOrdered(s: State, n: nat, e: Event, bounds: LogBounds) returns (m: nat)
    requires Ordered(s, n) && LockOwned(s) && Enabled(s, e, bounds) && !e.DropTask?
    ensures Ordered(Next(s, e, bounds), m)
  {
    hide LockOwned, Ordered;
    m := n;
    match e {
      case Arrive(key, items) => m := ArriveOrdered(s, n, key, items);
      case Ack(t) =>
        m := 0;
        AckOrdered(s, n, t, bounds);
      case Check(t) => CheckOrdered(s, n, t, bounds);
      case _ => OtherOrdered(s, n, e, bounds);
    }
  }

  // ------------------------------------------------------------ from items to lines

  lemma LinesJoin(a: seq<Entry>, b: seq<Entry>, issued: seq<seq<DeploymentLog>>)
    requires forall e :: e in a + b ==> e.key < |issued| && e.index < |issued[e.key]|
    ensures forall e :: e in a ==> e in a + b
    ensures forall e :: e in b ==> e in a + b
    ensures Lines(a + b, issued) == Lines(a, issued) + Lines(b, issued)
  {
  }

  lemma PartLines(key: nat, items: nat, issued: seq<seq<DeploymentLog>>)
    requires key < |issued| && items <= |issued[key]|
    ensures forall e :: e in Part(key, items) ==> e.key < |issued| && e.index < |issued[e.key]|
    ensures Lines(Part(key, items), issued) == issued[key][..items]
  {
    PartEntries(key, items);
  }

  lemma {:induction false} WholeLines(issued: seq<seq<DeploymentLog>>, n: nat)
    requires n <= |issued|
    ensures forall e :: e in Whole(issued, n) ==> e.key < |issued| && e.index < |issued[e.key]|
    ensures Lines(Whole(issued, n), issued) == Flatten(issued[..n])
  {
    WholeEntries(issued, n);
    if n > 0 {
      hide Part, Lines;
      WholeLines(issued, n - 1);
      PartLines(n - 1, |issued[n - 1]|, issued);
      LinesJoin(Whole(issued, n - 1), Part(n - 1, |issued[n - 1]|), issued);
      assert issued[..n] == issued[..n - 1] + [issued[n - 1]];
      IssuedNext(issued[..n - 1], issued[n - 1]);
      assert issued[n - 1][..|issued[n - 1]|] == issued[n - 1];
    }
  }

  /**
   Exactly once and in order, in every run without drops. What the control
   plane holds is a prefix of the accepted lines; it starts with all
   acknowledged batches, and beyond them holds at most part of the last batch
   issued. Once nothing is pending or on the way, it holds everything.
   */
  lemma ExactlyOnceInOrder(events: seq<Event>, bounds: LogBounds)
    requires Run(events, bounds).Some? && NothingDropped(events)
    ensures Inv(Run(events, bounds).value, bounds)
    ensures var s := Run(events, bounds).value;
            var held := Lines(s.server, s.issued);
            && held <= Flatten(s.issued) <= s.accepted
            && |s.acknowledged| <= |s.issued| <= |s.acknowledged| + 1
            && Flatten(s.issued[..|s.acknowledged|]) <= held
            && (s.queue.deliveryStopped.None? && s.queue.pending == [] && !Busy(s) ==> held == s.accepted)
  {
    hide Enabled, Next, LockOwned, Part, Whole, Lines;
    var m := StaysOrdered(events, bounds);
    Always(events, bounds);
    hide Run, Conserved;
    var s := Run(events, bounds).value;
    HeldLines(s, m);
    hide ServerSound;
    var a := |s.acknowledged|;
    if a < |s.issued| {
      assert s.issued == s.issued[..a] + [s.issued[a]];
      IssuedNext(s.issued[..a], s.issued[a]);
    } else {
      assert s.issued[..a] == s.issued;
    }
    RunningAccepted(s, bounds);
  }

  lemma RunningAccepted(s: State, bounds: LogBounds)
    requires Conserved(s, bounds)
    ensures Flatten(s.issued) <= s.accepted
    ensures s.queue.deliveryStopped.None? && s.queue.pending == [] ==> Flatten(s.issued) == s.accepted
  {
  }

  lemma HeldLines(s: State, m: nat)
    requires Ordered(s, m) && ServerSound(s)
    ensures forall e :: e in s.server ==> e.key < |s.issued| && e.index < |s.issued[e.key]|
    ensures var a := |s.acknowledged|;
            Lines(s.server, s.issued)
            == Flatten(s.issued[..a]) + (if a < |s.issued| then s.issued[a][..m] else [])
  {
    hide Part, Whole;
    var a := |s.acknowledged|;
    WholeLines(s.issued, a);
    if a < |s.issued| {
      PartLines(a, m, s.issued);
      LinesJoin(Whole(s.issued, a), Part(a, m), s.issued);
    } else {
      NoPart(a);
      assert s.server == Whole(s.issued, a);
    }
  }
}
