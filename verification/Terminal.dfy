/**
 Terminal reports (`complete`, `fail` and `post_terminal` in
 crates/sakala-agent-core/src/api/client.rs) against a control plane that never
 changes a terminal status.
 */
module Terminal {
  import opened Wrappers
  import opened Retry

  datatype CommandStatus = Pending | Claimed | Running | Succeeded | Failed | Cancelled | Expired

  predicate IsTerminal(status: CommandStatus) {
    status.Succeeded? || status.Failed? || status.Cancelled? || status.Expired?
  }

  datatype Action = Complete | Fail

  function Target(action: Action): (status: CommandStatus) {
    match action
    case Complete => Succeeded
    case Fail => CommandStatus.Failed
  }

  /** The body of an answer, as far as `post_terminal` reads it: the status a conflict reports. */
  datatype ConflictBody = NoStatus(error: TransportError) | Held(status: CommandStatus)

  type TerminalReply = Reply<ConflictBody>

  /** How `post_terminal` reads the reply that ended the retries. */
  function Conclude(action: Action, reply: TerminalReply): (r: Result<(), string>) {
    match reply
    case NoAnswer(_) => Err("transport")
    case Answer(status, body) =>
      if status != 409 then
        if 400 <= status < 600 then Err("status") else Ok(())
      else
        match body
        case NoStatus(_) => Err("body")
        case Held(held) => if held == Target(action) then Ok(()) else Err("terminal conflict")
  }

  /**
   Exactly when a terminal report ends well: the answer is no error, or it is a
   conflict and the command is already what the report makes it, succeeded for
   `complete` and failed for `fail`.
   */
  lemma ConcludesIff(action: Action, reply: TerminalReply)
    ensures Conclude(action, reply).Ok? <==>
              && reply.Answer?
              && (|| reply.status < 400 || reply.status >= 600
                  || (reply.status == 409
                      && reply.content == Held(if action == Complete then Succeeded else CommandStatus.Failed)))
  {
  }

  // ------------------------------------------------------------ the control plane

  /**
   What happens to the command over there: a request arrives, possibly one sent
   long ago, and is answered, although the answer may be lost; or the status
   changes for another reason.
   */
  datatype Exchange =
    | Arrival(action: Action, reply: TerminalReply, after: CommandStatus)
    | Elsewhere(after: CommandStatus)

  /** A terminal status stays; success is only reported when it holds; a conflict reports the status held. */
  predicate Conforms(before: CommandStatus, x: Exchange) {
    && (IsTerminal(before) ==> x.after == before)
    && (x.Arrival? ==>
          && (x.after == before || x.after == Target(x.action))
          && (x.reply.Answer? && x.reply.status != 409 && !(400 <= x.reply.status < 600) ==>
                x.after == Target(x.action))
          && (x.reply.Answer? && x.reply.status == 409 && x.reply.content.Held? ==>
                x.reply.content.status == x.after))
  }

  function Final(start: CommandStatus, history: seq<Exchange>): (status: CommandStatus) {
    if history == [] then start else history[|history| - 1].after
  }

  predicate Conforming(start: CommandStatus, history: seq<Exchange>) {
    forall i :: 0 <= i < |history| ==> Conforms(Final(start, history[..i]), history[i])
  }

  /** An answer that ends in success was given by the control plane to a request of that kind. */
  ghost predicate Genuine(history: seq<Exchange>, action: Action, reply: TerminalReply) {
    Conclude(action, reply).Ok? ==>
      exists i :: 0 <= i < |history| && history[i].Arrival?
                  && history[i].action == action && history[i].reply == reply
  }

  /** A terminal status reached on the way is the final one. */
  lemma {:induction false} TerminalStays(start: CommandStatus, history: seq<Exchange>, i: nat)
    requires Conforming(start, history) && i < |history| && IsTerminal(history[i].after)
    ensures Final(start, history) == history[i].after
    decreases |history| - i
  {
    if i + 1 < |history| {
      assert Final(start, history[..i + 1]) == history[i].after;
      assert Conforms(Final(start, history[..i + 1]), history[i + 1]);
      TerminalStays(start, history, i + 1);
    }
  }

  /** A report that ends well means the control plane holds that outcome, for good. */
  lemma SuccessIsHeld(start: CommandStatus, history: seq<Exchange>, action: Action, reply: TerminalReply)
    requires Conforming(start, history) && Genuine(history, action, reply)
    requires Conclude(action, reply).Ok?
    ensures Final(start, history) == Target(action)
  {
    var i :| 0 <= i < |history| && history[i].Arrival? && history[i].action == action && history[i].reply == reply;
    assert Conforms(Final(start, history[..i]), history[i]);
    assert history[i].after == Target(action);
    TerminalStays(start, history, i);
  }

  /**
   Repeating a report is safe: once the control plane holds its outcome, whatever
   became of the answer, an answer to the same report is no error, or says so and
   is read as the success it is.
   */
  lemma RepeatEndsWell(start: CommandStatus, history: seq<Exchange>, action: Action, i: nat)
    requires Conforming(start, history) && i < |history| && history[i].Arrival? && history[i].action == action
    requires Final(start, history[..i]) == Target(action)
    requires history[i].reply.Answer?
    requires var reply := history[i].reply;
             reply.status < 400 || (reply.status == 409 && reply.content.Held?)
    ensures Conclude(action, history[i].reply).Ok?
  {
    assert Conforms(Final(start, history[..i]), history[i]);
  }

  /** For one command, not both reports can end well. */
  lemma NotBoth(start: CommandStatus, history: seq<Exchange>, completed: TerminalReply, failed: TerminalReply)
    requires Conforming(start, history)
    requires Genuine(history, Complete, completed) && Genuine(history, Fail, failed)
    ensures !(Conclude(Complete, completed).Ok? && Conclude(Fail, failed).Ok?)
  {
    if Conclude(Complete, completed).Ok? {
      SuccessIsHeld(start, history, Complete, completed);
      if Conclude(Fail, failed).Ok? {
        SuccessIsHeld(start, history, Fail, failed);
      }
    }
  }

  /**
   `post_terminal`. `history` is whatever has happened at the control plane by
   the time the call returns, or later.
   */
  method PostTerminal(policy: RetryPolicy, action: Action, replies: nat -> TerminalReply,
                      ghost start: CommandStatus, ghost history: seq<Exchange>)
      returns (result: Result<(), string>, sent: nat)
    ensures 1 <= sent && (sent == 1 || sent <= policy.maxAttempts)
    ensures forall i: nat :: i < sent - 1 ==> RetryableReply(replies(i))
    ensures result == Conclude(action, replies(sent - 1))
    ensures RetryableReply(replies(sent - 1)) ==>
              sent == (if policy.maxAttempts == 0 then 1 else policy.maxAttempts) && result.Err?
    ensures result.Ok? && Conforming(start, history)
            && (forall i: nat :: i < sent ==> Genuine(history, action, replies(i)))
            ==> Final(start, history) == Target(action)
  {
    var last, n, slept := SendWithRetry(policy, replies);
    sent := n;
    result := Conclude(action, last);
    if result.Ok? && Conforming(start, history)
       && (forall i: nat :: i < sent ==> Genuine(history, action, replies(i)))
    {
      SuccessIsHeld(start, history, action, last);
    }
  }
}
