/** The locked one-way queue between the two threads. */
module Messenger {

  class Messenger<M> {
    var msgs: seq<M>
    var wakeUps: nat  // calls of wake_target that the receiver has not yet taken

    constructor ()
      ensures msgs == [] && wakeUps == 0
    {
      msgs, wakeUps := [], 0;
    }

    method SendMsg(m: M)
      modifies this
      ensures msgs == old(msgs) + [m]
      ensures wakeUps == old(wakeUps) + 1
    {
      msgs := msgs + [m];
      wakeUps := wakeUps + 1;
    }

    method CollectMsgs() returns (collected: seq<M>)
      modifies this`msgs
      ensures collected == old(msgs) && msgs == []
    {
      collected := msgs;
      msgs := [];
    }
  }
}

/** Any number of senders and one receiver on the queue, one machine step at a time. Only the lock
    keeps them apart: the two halves of send_msg and of collect_msgs are separate steps, and the
    receiver can take a wake-up at any moment. */
module MessengerThreads {

  datatype Sender = Idle | Holding(msg: int) | Inserted | Woke

  datatype Receiver = Waiting | Woken | Locked | Copied(copy: seq<int>) | Cleared | Handling

  datatype Holder = Nobody | SenderThread(t: nat) | ReceiverThread

  /** `sent` and `collected` are histories: all messages in the order they entered the queue, and all
      that the receiver got, in the order it got them. */
  datatype State = State(
    msgs: seq<int>,
    wakeUps: nat,
    lock: Holder,
    senders: map<nat, Sender>,
    receiver: Receiver,
    sent: seq<int>,
    collected: seq<int>)

  datatype Action =
    | Acquire(t: nat, m: int)
    | Insert(t: nat)
    | Wake(t: nat)
    | Release(t: nat)
    | TakeWakeUp
    | LockQueue
    | CopyMsgs
    | ClearMsgs
    | UnlockQueue
    | Finish

  function SenderOf(s: State, t: nat): Sender {
    if t in s.senders then s.senders[t] else Idle
  }

  /** An action whose guard fails does not happen: the thread is blocked or elsewhere. */
  function Step(s: State, a: Action): State {
    match a
    case Acquire(t, m) =>
      if SenderOf(s, t).Idle? && s.lock.Nobody?
      then s.(lock := SenderThread(t), senders := s.senders[t := Holding(m)]) else s
    case Insert(t) =>
      if SenderOf(s, t).Holding?
      then s.(msgs := s.msgs + [SenderOf(s, t).msg], sent := s.sent + [SenderOf(s, t).msg], senders := s.senders[t := Inserted])
      else s
    case Wake(t) =>
      if SenderOf(s, t).Inserted? then s.(wakeUps := s.wakeUps + 1, senders := s.senders[t := Woke]) else s
    case Release(t) =>
      if SenderOf(s, t).Woke? then s.(lock := Nobody, senders := s.senders[t := Idle]) else s
    case TakeWakeUp =>
      if s.receiver.Waiting? && s.wakeUps > 0 then s.(wakeUps := s.wakeUps - 1, receiver := Woken) else s
    case LockQueue =>
      if s.receiver.Woken? && s.lock.Nobody? then s.(lock := ReceiverThread, receiver := Locked) else s
    case CopyMsgs =>
      if s.receiver.Locked? then s.(receiver := Copied(s.msgs)) else s
    case ClearMsgs =>
      if s.receiver.Copied? then s.(msgs := [], collected := s.collected + s.receiver.copy, receiver := Cleared) else s
    case UnlockQueue =>
      if s.receiver.Cleared? then s.(lock := Nobody, receiver := Handling) else s
    case Finish =>
      if s.receiver.Handling? then s.(receiver := Waiting) else s
  }

  const INITIAL := State([], 0, Nobody, map[], Waiting, [], [])

  function Run(actions: seq<Action>): State
    decreases |actions|
  {
    if actions == [] then INITIAL else Step(Run(actions[..|actions| - 1]), actions[|actions| - 1])
  }

  ghost predicate LockExcludes(s: State) {
    && (forall t :: !SenderOf(s, t).Idle? <==> s.lock == SenderThread(t))
    && ((s.receiver.Locked? || s.receiver.Copied? || s.receiver.Cleared?) <==> s.lock.ReceiverThread?)
  }

  /** Somebody will look at the queue: a wake-up is pending, or the receiver has taken one and not
      yet collected, or a sender is between its insertion and its wake-up. */
  ghost predicate Attended(s: State) {
    || s.wakeUps > 0
    || s.receiver.Woken? || s.receiver.Locked? || s.receiver.Copied?
    || (s.lock.SenderThread? && SenderOf(s, s.lock.t).Inserted?)
  }

  ghost predicate Inv(s: State) {
    && LockExcludes(s)
    && s.collected + s.msgs == s.sent
    && (s.receiver.Copied? ==> s.receiver.copy == s.msgs)
    && (s.msgs != [] ==> Attended(s))
  }

  lemma StepKeepsInv(s: State, a: Action)
    requires Inv(s)
    ensures Inv(Step(s, a))
  {
    var s' := Step(s, a);
    match a
    case Insert(t) =>
      if s' != s {
        assert s'.sent == s.collected + (s.msgs + [SenderOf(s, t).msg]);
      }
    case _ =>
  }

  /** For every interleaving: what has been collected, followed by what is still queued, is what was
      sent, in the order it was sent, so nothing is lost, repeated or overtaken. Whenever the lock
      is free and something is queued, a wake-up is pending or one has been taken by a receiver that
      is on its way to collect. */
  lemma {:induction false} QueueIsSafe(actions: seq<Action>)
    ensures var s := Run(actions);
            && Inv(s)
            && s.collected + s.msgs == s.sent
            && (s.msgs != [] && s.lock.Nobody? ==> s.wakeUps > 0 || s.receiver.Woken?)
    decreases |actions|
  {
    if actions != [] {
      QueueIsSafe(actions[..|actions| - 1]);
      StepKeepsInv(Run(actions[..|actions| - 1]), actions[|actions| - 1]);
    }
  }

  /** The receiver never sleeps on a message: with nobody in a critical section and the receiver
      waiting, four steps of the receiver alone collect all that has been sent. */
  lemma NothingIsLeftBehind(actions: seq<Action>)
    requires Run(actions).lock.Nobody? && Run(actions).receiver.Waiting? && Run(actions).msgs != []
    ensures var s := Step(Step(Step(Step(Run(actions), TakeWakeUp), LockQueue), CopyMsgs), ClearMsgs);
            s.collected == Run(actions).sent && s.msgs == []
  {
    QueueIsSafe(actions);
  }
}
