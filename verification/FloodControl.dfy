/** Flood control of the chat input: a level that rises with fast sends and falls with slow ones. */
module FloodControl {

  /** Clock readings are in microseconds; differences are used in whole milliseconds. */
  function Msec(usec: nat): nat {
    usec / 1000
  }

  datatype State = State(last: nat, level: int)

  const INITIAL := State(0, 0)

  /** One attempt to send at time `now`. A refused attempt still moves the level. */
  function Attempt(s: State, now: nat): (bool, State)
    requires s.last <= now
  {
    var d := Msec(now - s.last);
    var level := if s.level < 0 || d >= 5000 then 0 else s.level + 2000 - d;
    if level >= 3000 then (false, State(s.last, level)) else (true, State(now, level))
  }

  class FloodControl {
    var last: nat
    var level: int

    function Value(): State
      reads this
    {
      State(last, level)
    }

    constructor ()
      ensures Value() == INITIAL
    {
      last, level := 0, 0;
    }

    method AllowSend(now: nat) returns (allowed: bool)
      requires last <= now
      modifies this
      ensures (allowed, Value()) == Attempt(old(Value()), now)
    {
      if level < 0 || Msec(now - last) >= 5000 {
        level := 0;
      } else {
        level := level + 2000 - Msec(now - last);
      }
      if level >= 3000 {
        return false;
      }
      last := now;
      return true;
    }
  }

  ghost predicate NonDecreasing(times: seq<nat>) {
    forall i, j :: 0 <= i < j < |times| ==> times[i] <= times[j]
  }

  /** The state after a run of attempts, and the times at which a send was accepted. */
  function Run(s: State, times: seq<nat>): (r: (State, seq<nat>))
    requires NonDecreasing(times)
    requires times != [] ==> s.last <= times[0]
    ensures times != [] ==> r.0.last <= times[|times| - 1]
    ensures times == [] ==> r == (s, [])
    decreases |times|
  {
    if times == [] then (s, [])
    else
      var now := times[|times| - 1];
      var (s1, accepted) := Run(s, times[..|times| - 1]);
      var (ok, s2) := Attempt(s1, now);
      (s2, if ok then accepted + [now] else accepted)
  }

  function Potential(level: int): int {
    if level < 0 then -1000 else level
  }

  /** What is true between two accepted sends. `base` is the level right after the last accepted
      send: the level is still that, or attempts were refused and it is at least 3000. */
  ghost predicate Between(base: int, s: State) {
    base < 3000 && (s.level == base || s.level >= 3000)
  }

  /** However many attempts are refused in between, an accepted send that comes g milliseconds after
      the one before changes the potential by at least 1000 - g. */
  lemma AttemptPays(base: int, s: State, now: nat)
    requires s.last <= now && Between(base, s)
    ensures var (ok, s') := Attempt(s, now);
            && (ok ==> Potential(s'.level) >= Potential(base) + 1000 - Msec(now - s.last) && Between(s'.level, s') && s'.last == now)
            && (!ok ==> Between(base, s') && s'.last == s.last)
  {
  }

  lemma MsecAdds(a: nat, b: nat)
    ensures Msec(a) + Msec(b) <= Msec(a + b)
  {
  }

  lemma MsecBelow(a: nat)
    ensures 1000 * Msec(a) <= a
  {
  }

  /** The account of a run, for the sends accepted from the i-th on: time spent plus the potential
      gained covers 1000 for each of them. */
  lemma {:induction false} Account(s: State, times: seq<nat>, i: nat) returns (first: int, base: int)
    requires NonDecreasing(times) && (times != [] ==> s.last <= times[0])
    requires Between(s.level, s)
    ensures var (s', accepted) := Run(s, times);
            && (|accepted| == 0 ==> s'.last == s.last)
            && (|accepted| > 0 ==> s'.last == accepted[|accepted| - 1])
            && Between(base, s')
            && (i < |accepted| ==>
                  && accepted[i] <= s'.last
                  && first < 3000
                  && Msec(s'.last - accepted[i]) >= 1000 * (|accepted| - 1 - i) + Potential(first) - Potential(base))
    decreases |times|
  {
    if times == [] {
      first, base := s.level, s.level;
    } else {
      var front, now := times[..|times| - 1], times[|times| - 1];
      first, base := Account(s, front, i);
      var (s1, accepted) := Run(s, front);
      var (ok, s2) := Attempt(s1, now);
      AttemptPays(base, s1, now);
      if ok {
        base := s2.level;
        if i < |accepted| {
          MsecAdds(s1.last - accepted[i], now - s1.last);
        } else {
          first := s2.level;
        }
      }
    }
  }

  lemma {:induction false} AcceptedPrefix(s: State, times: seq<nat>, k: nat)
    requires NonDecreasing(times) && (times != [] ==> s.last <= times[0])
    requires k < |Run(s, times).1|
    ensures exists n :: 0 <= n <= |times| && Run(s, times[..n]).1 == Run(s, times).1[..k + 1]
    decreases |times|
  {
    var front := times[..|times| - 1];
    if |Run(s, times).1| == k + 1 {
      assert times[..|times|] == times;
      assert Run(s, times).1[..k + 1] == Run(s, times).1;
    } else {
      AcceptedPrefix(s, front, k);
      var n :| 0 <= n <= |front| && Run(s, front[..n]).1 == Run(s, front).1[..k + 1];
      assert times[..n] == front[..n];
    }
  }

  lemma LastAcceptedBound(times: seq<nat>, i: nat)
    requires NonDecreasing(times)
    requires i < |Run(INITIAL, times).1|
    ensures var accepted := Run(INITIAL, times).1;
            var j := |accepted| - 1;
            accepted[i] <= accepted[j] && accepted[j] - accepted[i] > 1000 * (1000 * (j - i) - 4000)
  {
    var (s', accepted) := Run(INITIAL, times);
    var first, base := Account(INITIAL, times, i);
    MsecBelow(s'.last - accepted[i]);
  }

  /** Whatever is attempted and refused in between, n + 1 accepted sends in a row take more than
      1000 n - 4000 milliseconds. */
  lemma RateBound(times: seq<nat>, i: nat, j: nat)
    requires NonDecreasing(times)
    requires i <= j < |Run(INITIAL, times).1|
    ensures var accepted := Run(INITIAL, times).1;
            accepted[i] <= accepted[j] && accepted[j] - accepted[i] > 1000 * (1000 * (j - i) - 4000)
  {
    AcceptedPrefix(INITIAL, times, j);
    var n :| 0 <= n <= |times| && Run(INITIAL, times[..n]).1 == Run(INITIAL, times).1[..j + 1];
    LastAcceptedBound(times[..n], i);
  }

  const SECOND: nat := 1_000_000  // in microseconds

  /** After five seconds without an accepted send, whatever was refused meanwhile, a send is accepted. */
  lemma SilenceForgives(s: State, now: nat)
    requires s.last + 5 * SECOND <= now
    ensures Attempt(s, now) == (true, State(now, 0))
  {
  }

  /** The first two sends after that are both accepted, however close, and the third is refused exactly if
      it comes within a second of the first. */
  lemma ThreeInARow(s: State, t1: nat, t2: nat, t3: nat)
    requires s.last + 5 * SECOND <= t1 <= t2 <= t3
    ensures var (ok1, s1) := Attempt(s, t1);
            var (ok2, s2) := Attempt(s1, t2);
            var (ok3, s3) := Attempt(s2, t3);
            ok1 && ok2 && s2.last == t2 && (!ok3 <==> Msec(t2 - t1) + Msec(t3 - t2) <= 1000)
  {
  }

  /** From anywhere up to level 2000, sends two seconds apart are accepted and stay so. */
  lemma SlowStep(s: State, now: nat)
    requires s.level <= 2000 && s.last + 2 * SECOND <= now
    ensures Attempt(s, now).0 && Attempt(s, now).1.level <= 2000 && Attempt(s, now).1.last == now
  {
    hide Potential;
    MsecAtLeast(now - s.last, 2000);
  }

  lemma MsecAtLeast(usec: nat, n: nat)
    requires 1000 * n <= usec
    ensures n <= Msec(usec)
  {
  }

  /** Sends that come two seconds apart or more are all accepted. */
  lemma {:induction false} SlowSendersPass(times: seq<nat>)
    requires NonDecreasing(times) && forall i :: 0 < i < |times| ==> times[i - 1] + 2 * SECOND <= times[i]
    ensures var (s, accepted) := Run(INITIAL, times);
            accepted == times && s.level <= 2000 && (times != [] ==> s.last == times[|times| - 1])
    decreases |times|
  {
    if times != [] {
      var front, now := times[..|times| - 1], times[|times| - 1];
      SlowSendersPass(front);
      if front != [] {
        assert front[|front| - 1] == times[|times| - 2];
        SlowStep(Run(INITIAL, front).0, now);
      }
      assert times == front + [now];
    }
  }

  /** An attempt that starts the account anew: after five seconds without an accepted send, or after the
      account went below zero. */
  predicate Resets(s: State, now: nat)
    requires s.last <= now
  {
    s.level < 0 || Msec(now - s.last) >= 5000
  }

  /** The account since the last new start: 2000 for every attempt, refused ones too, less the time from
      the last accepted send to it. */
  function SinceReset(times: seq<nat>): int
    requires NonDecreasing(times)
    decreases |times|
  {
    if times == [] then 0
    else
      var front, now := times[..|times| - 1], times[|times| - 1];
      var s := Run(INITIAL, front).0;
      if Resets(s, now) then 0 else SinceReset(front) + 2000 - Msec(now - s.last)
  }

  /** Over every run an attempt is refused if and only if that account has reached 3000. */
  lemma {:induction false} RefusedIff(times: seq<nat>)
    requires NonDecreasing(times) && times != []
    ensures var accepted := Run(INITIAL, times).1;
            var before := Run(INITIAL, times[..|times| - 1]).1;
            && Run(INITIAL, times).0.level == SinceReset(times)
            && accepted == (if SinceReset(times) >= 3000 then before else before + [times[|times| - 1]])
    decreases |times|
  {
    var front := times[..|times| - 1];
    if front != [] {
      RefusedIff(front);
    }
  }

  /** The milliseconds between the sends of a burst, each gap counted for itself. */
  function Spent(times: seq<nat>): nat
    requires NonDecreasing(times)
    decreases |times|
  {
    if |times| <= 1 then 0
    else Spent(times[..|times| - 1]) + Msec(times[|times| - 1] - times[|times| - 2])
  }

  /** Sends that follow each other within five seconds, where before each of them the account of those
      before it is neither negative nor used up. */
  ghost predicate Burst(times: seq<nat>)
    requires NonDecreasing(times)
    decreases |times|
  {
    |times| > 0
    && (|times| > 1 ==>
          var n := |times| - 1;
          && Burst(times[..n]) && Msec(times[n] - times[n - 1]) < 5000
          && 0 <= 2000 * (n - 1) - Spent(times[..n]) < 3000)
  }

  /** A burst of n + 1 sends that begins after five seconds of silence: its last send is refused if and only
      if the burst took at most 2000 n - 3000 milliseconds; the others are accepted. */
  lemma {:induction false} BurstRefusedIff(s: State, times: seq<nat>)
    requires NonDecreasing(times) && Burst(times) && s.last + 5 * SECOND <= times[0]
    ensures var n := |times| - 1;
            var (s', accepted) := Run(s, times);
            && s'.level == 2000 * n - Spent(times)
            && accepted == (if Spent(times) <= 2000 * n - 3000 then times[..n] else times)
            && (accepted == times ==> s'.last == times[n])
    decreases |times|
  {
    var n := |times| - 1;
    if n == 0 {
      SilenceForgives(s, times[0]);
      assert times[..0] == [] && times == [times[0]];
    } else {
      BurstGoesOn(times);
      hide Run, Spent, Attempt, NonDecreasing, Burst;
      var front := times[..n];
      BurstRefusedIff(s, front);
      assert front[n - 1] == times[n - 1] && front[0] == times[0];
      RunOneMore(s, times);
      WithoutDebt(Run(s, front).0, times[n]);
      LastBack(times);
    }
  }

  lemma BurstGoesOn(times: seq<nat>)
    requires NonDecreasing(times) && Burst(times) && |times| > 1
    ensures var n := |times| - 1;
            && NonDecreasing(times[..n]) && Burst(times[..n]) && times[n - 1] <= times[n]
            && Msec(times[n] - times[n - 1]) < 5000
            && 0 <= 2000 * (n - 1) - Spent(times[..n]) < 3000
            && Spent(times) == Spent(times[..n]) + Msec(times[n] - times[n - 1])
  {
  }

  lemma WithoutDebt(s: State, now: nat)
    requires s.last <= now && s.level >= 0 && Msec(now - s.last) < 5000
    ensures var level := s.level + 2000 - Msec(now - s.last);
            Attempt(s, now) == if level >= 3000 then (false, State(s.last, level)) else (true, State(now, level))
  {
  }

  lemma LastBack(times: seq<nat>)
    requires times != []
    ensures times[..|times| - 1] + [times[|times| - 1]] == times
  {
  }

  lemma RunOneMore(s: State, times: seq<nat>)
    requires NonDecreasing(times) && times != [] && s.last <= times[0]
    requires NonDecreasing(times[..|times| - 1])
    ensures var n := |times| - 1;
            var (s1, accepted) := Run(s, times[..n]);
            s1.last <= times[n] && Run(s, times) == (Attempt(s1, times[n]).1, if Attempt(s1, times[n]).0 then accepted + [times[n]] else accepted)
  {
    hide Attempt;
  }
}
