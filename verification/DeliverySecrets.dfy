/**
 Redaction end to end: what is left of secrets in any line the control plane is
 ever sent.
 */
module DeliverySecrets {
  import opened Redactor
  import opened RedactorLine
  import opened BoundedLog
  import opened BoundedLogTheorems
  import opened LogQueue
  import opened Delivery
  import opened DeliveryTheorems

  /**
   What is queued of the logged line `original`: no token prefix and no line
   break, and every value is empty, the marker or what a cut left of it; behind
   an `authorization` marker something may follow, if `Trails` says so of the
   original. Behind `bearer ` stands nothing, the marker or what a cut left of it
   too, unless `Bears` says so of the original.
   */
  ghost predicate Harmless(original: string, message: string) {
    && (forall i: nat :: i < |SENSITIVE_KEYS| ==> CleanWhenCut(message, SENSITIVE_KEYS[i], Trails(original, i)))
    && (forall j: nat :: j < |TOKEN_PREFIXES| ==> Free(message, TOKEN_PREFIXES[j]))
    && (Bears(original) || BearersWhenCut(message))
    && '\r' !in message && '\n' !in message
  }

  /** The line is what is left of one that some task has logged. */
  ghost predicate FromHarmless(events: seq<Event>, message: string) {
    exists k :: 0 <= k < |events| && events[k].LogCall? && Harmless(events[k].log.message, message)
  }

  ghost predicate AllHarmless(events: seq<Event>, lines: seq<DeploymentLog>) {
    forall i :: 0 <= i < |lines| ==> FromHarmless(events, lines[i].message)
  }

  lemma KeptIsHarmless(log: DeploymentLog, bounds: LogBounds, sent: nat)
    requires BoundLog(log, bounds, sent).Kept?
    ensures Harmless(log.message, BoundLog(log, bounds, sent).log.message)
  {
    hide BoundLog, CleanWhenCut, Free, Trails, Bears, BearersWhenCut;
    NoSecretIsQueued(log, bounds, sent);
    KeptIsWithinLimits(log, bounds, sent);
  }

  lemma AcceptedIsKept(queue: LogState, log: DeploymentLog, bounds: LogBounds)
    requires Accept(queue, log, bounds).1.Queued?
    ensures BoundLog(log, bounds, queue.bytesSent).Kept?
    ensures var next := Accept(queue, log, bounds).0;
            next.pending != [] && next.pending[|next.pending| - 1] == BoundLog(log, bounds, queue.bytesSent).log
  {
    hide BoundLog;
  }

  /**
   In every run, whatever is lost, late or dropped, every line that was accepted,
   and so every line that was stored, is harmless.
   */
  lemma {:induction false} NoSecretIsDelivered(events: seq<Event>, bounds: LogBounds)
    requires Run(events, bounds).Some?
    ensures Inv(Run(events, bounds).value, bounds)
    ensures var s := Run(events, bounds).value;
            AllHarmless(events, s.accepted) && AllHarmless(events, Lines(s.server, s.issued))
  {
    hide Enabled, Next, LockOwned, FromHarmless;
    Always(events, bounds);
    hide Conserved, ServerSound;
    AcceptedHarmless(events, bounds);
    StoredHarmless(events, Run(events, bounds).value, bounds);
  }

  lemma {:induction false} AcceptedHarmless(events: seq<Event>, bounds: LogBounds)
    requires Run(events, bounds).Some?
    ensures AllHarmless(events, Run(events, bounds).value.accepted)
  {
    hide FromHarmless, Enabled, Next;
    if events != [] {
      var last := |events| - 1;
      var s := Run(events[..last], bounds).value;
      AcceptedHarmless(events[..last], bounds);
      forall i | 0 <= i < |s.accepted| ensures FromHarmless(events, s.accepted[i].message) {
        HarmlessLater(events, s.accepted[i].message);
      }
      HarmlessStep(events, s, bounds);
    }
  }

  lemma HarmlessLater(events: seq<Event>, message: string)
    requires events != [] && FromHarmless(events[..|events| - 1], message)
    ensures FromHarmless(events, message)
  {
    hide Harmless;
    var k :| 0 <= k < |events| - 1 && events[..|events| - 1][k].LogCall?
             && Harmless(events[..|events| - 1][k].log.message, message);
    assert events[k] == events[..|events| - 1][k];
  }

  lemma HarmlessStep(events: seq<Event>, s: State, bounds: LogBounds)
    requires events != [] && AllHarmless(events, s.accepted) && Enabled(s, events[|events| - 1], bounds)
    ensures AllHarmless(events, Next(s, events[|events| - 1], bounds).accepted)
  {
    hide Harmless, Accept, Take, Store, Stored, LockFree, BoundLog;
    var e := events[|events| - 1];
    if e.LogCall? && Accept(s.queue, e.log, bounds).1.Queued? {
      AcceptedIsKept(s.queue, e.log, bounds);
      KeptIsHarmless(e.log, bounds, s.queue.bytesSent);
    }
  }

  /** Every stored line is one of the issued ones, and those are a prefix of the accepted ones. */
  lemma StoredHarmless(events: seq<Event>, s: State, bounds: LogBounds)
    requires Inv(s, bounds) && AllHarmless(events, s.accepted)
    ensures AllHarmless(events, Lines(s.server, s.issued))
  {
    hide LockOwned, FromHarmless;
    var lines := Lines(s.server, s.issued);
    forall i | 0 <= i < |lines| ensures FromHarmless(events, lines[i].message) {
      var e := s.server[i];
      var at := FlattenHolds(s.issued, e.key, e.index);
      assert s.accepted[at] == lines[i];
    }
  }

  lemma {:induction false} FlattenHolds(issued: seq<seq<DeploymentLog>>, key: nat, index: nat) returns (at: nat)
    requires key < |issued| && index < |issued[key]|
    ensures at < |Flatten(issued)| && Flatten(issued)[at] == issued[key][index]
    decreases |issued|
  {
    var last := |issued| - 1;
    if key == last {
      at := |Flatten(issued[..last])| + index;
    } else {
      at := FlattenHolds(issued[..last], key, index);
    }
  }
}
