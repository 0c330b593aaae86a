/** Messages reach the GUI once per group; a window over each sender's latest sequence numbers drops
    the repeats. */
module DupFilter {

  const MAX_SEQS := 4

  /** Per sender, the numbers seen, newest first. */
  type Seen = map<string, seq<nat>>

  function FilterDup(seen: Seen, sender: string, number: nat): (bool, Seen) {
    if sender == "" then (false, seen)
    else if sender in seen then
      if number in seen[sender] then (true, seen)
      else
        var seqs := [number] + seen[sender];
        (false, seen[sender := if |seqs| > MAX_SEQS then seqs[..|seqs| - 1] else seqs])
    else (false, seen[sender := [number]])
  }

  datatype Arrival = Arrival(sender: string, number: nat)

  function Run(arrivals: seq<Arrival>): Seen
    decreases |arrivals|
  {
    if arrivals == [] then map[]
    else
      var a := arrivals[|arrivals| - 1];
      FilterDup(Run(arrivals[..|arrivals| - 1]), a.sender, a.number).1
  }

  predicate Dropped(earlier: seq<Arrival>, a: Arrival) {
    FilterDup(Run(earlier), a.sender, a.number).0
  }

  /** The numbers from one sender that passed, newest first. */
  function Passed(arrivals: seq<Arrival>, sender: string): seq<nat>
    decreases |arrivals|
  {
    if arrivals == [] then []
    else
      var front, a := arrivals[..|arrivals| - 1], arrivals[|arrivals| - 1];
      if a.sender == sender && !Dropped(front, a) then [a.number] + Passed(front, sender)
      else Passed(front, sender)
  }

  function Latest(passed: seq<nat>): seq<nat> {
    if |passed| <= MAX_SEQS then passed else passed[..MAX_SEQS]
  }

  ghost predicate Distinct(s: seq<nat>) {
    forall i, j :: 0 <= i < j < |s| ==> s[i] != s[j]
  }

  /** Whatever arrives from whom, a sender's window is its latest four passed numbers, all
      different. */
  lemma {:induction false} WindowIsLatest(arrivals: seq<Arrival>, sender: string)
    requires sender != ""
    ensures sender in Run(arrivals) <==> Passed(arrivals, sender) != []
    ensures sender in Run(arrivals) ==> Run(arrivals)[sender] == Latest(Passed(arrivals, sender))
    ensures Distinct(Latest(Passed(arrivals, sender)))
    decreases |arrivals|
  {
    if arrivals != [] {
      var front, a := arrivals[..|arrivals| - 1], arrivals[|arrivals| - 1];
      WindowIsLatest(front, sender);
      var before := Passed(front, sender);
      if a.sender == sender && !Dropped(front, a) {
        var after := [a.number] + before;
        assert Passed(arrivals, sender) == after;
        assert |before| >= MAX_SEQS ==> ([a.number] + before[..MAX_SEQS])[..MAX_SEQS] == after[..MAX_SEQS];
        assert a.number !in Latest(before);
      }
    }
  }

  /** A number is dropped exactly when it passed before and at most three others have passed
      since. */
  lemma DroppedIffLatest(earlier: seq<Arrival>, a: Arrival)
    requires a.sender != ""
    ensures Dropped(earlier, a) <==> a.number in Latest(Passed(earlier, a.sender))
  {
    WindowIsLatest(earlier, a.sender);
  }

  /** First arrivals always pass, so what has passed is what has arrived. */
  lemma {:induction false} PassedIsArrived(arrivals: seq<Arrival>, sender: string, number: nat)
    requires sender != ""
    ensures number in Passed(arrivals, sender) <==> Arrival(sender, number) in arrivals
    decreases |arrivals|
  {
    if arrivals != [] {
      var front, a := arrivals[..|arrivals| - 1], arrivals[|arrivals| - 1];
      assert arrivals == front + [a];
      PassedIsArrived(front, sender, number);
      if a == Arrival(sender, number) && Dropped(front, a) {
        DroppedIffLatest(front, a);
      }
    }
  }

  /** The sender's different numbers in the order of their first arrival, newest first. */
  function Firsts(arrivals: seq<Arrival>, sender: string): seq<nat>
    decreases |arrivals|
  {
    if arrivals == [] then []
    else
      var front, a := arrivals[..|arrivals| - 1], arrivals[|arrivals| - 1];
      if a.sender == sender && a !in front then [a.number] + Firsts(front, sender) else Firsts(front, sender)
  }

  /** If a repeats an earlier arrival, at most three new numbers of its sender have come since. */
  predicate InTime(earlier: seq<Arrival>, a: Arrival) {
    a in earlier ==> a.number in Latest(Firsts(earlier, a.sender))
  }

  /** All repeats from this sender are in time: a condition on the arrivals alone. */
  ghost predicate AllInTime(arrivals: seq<Arrival>, sender: string) {
    forall i :: 0 <= i < |arrivals| && arrivals[i].sender == sender ==> InTime(arrivals[..i], arrivals[i])
  }

  lemma LastInTime(arrivals: seq<Arrival>, sender: string)
    requires arrivals != []
    ensures var front, a := arrivals[..|arrivals| - 1], arrivals[|arrivals| - 1];
            AllInTime(arrivals, sender) <==> AllInTime(front, sender) && (a.sender == sender ==> InTime(front, a))
  {
    hide InTime;
    var front := arrivals[..|arrivals| - 1];
    assert forall i :: 0 <= i <= |front| ==> front[..i] == arrivals[..i];
  }

  lemma {:induction false} FirstsAreArrivals(arrivals: seq<Arrival>, sender: string)
    ensures forall n :: n in Firsts(arrivals, sender) <==> Arrival(sender, n) in arrivals
    ensures Distinct(Firsts(arrivals, sender))
    decreases |arrivals|
  {
    if arrivals != [] {
      var front, a := arrivals[..|arrivals| - 1], arrivals[|arrivals| - 1];
      assert arrivals == front + [a];
      FirstsAreArrivals(front, sender);
    }
  }

  /** If all repeats are in time, each number passes once, when it first arrives. */
  lemma {:induction false} PassesExactlyOnce(arrivals: seq<Arrival>, sender: string)
    requires sender != "" && AllInTime(arrivals, sender)
    ensures Passed(arrivals, sender) == Firsts(arrivals, sender)
    decreases |arrivals|
  {
    if arrivals != [] {
      var front, a := arrivals[..|arrivals| - 1], arrivals[|arrivals| - 1];
      LastInTime(arrivals, sender);
      PassesExactlyOnce(front, sender);
      if a.sender == sender {
        DroppedIffLatest(front, a);
        PassedIsArrived(front, sender, a.number);
      }
    }
  }

  /** A repeat that is late passes a second time. */
  lemma LatePassesAgain(earlier: seq<Arrival>, a: Arrival)
    requires a.sender != "" && AllInTime(earlier, a.sender)
    ensures Dropped(earlier, a) <==> a in earlier && InTime(earlier, a)
    ensures !InTime(earlier, a) ==> !Distinct(Passed(earlier + [a], a.sender))
  {
    PassesExactlyOnce(earlier, a.sender);
    DroppedIffLatest(earlier, a);
    PassedIsArrived(earlier, a.sender, a.number);
    assert (earlier + [a])[..|earlier|] == earlier;
    if !InTime(earlier, a) {
      var passed := Passed(earlier, a.sender);
      var j :| 0 <= j < |passed| && passed[j] == a.number;
      assert Passed(earlier + [a], a.sender)[0] == Passed(earlier + [a], a.sender)[j + 1];
    }
  }

  /** No number passes twice if and only if all repeats are in time. */
  lemma {:induction false} OnceIffInTime(arrivals: seq<Arrival>, sender: string)
    requires sender != ""
    ensures Distinct(Passed(arrivals, sender)) <==> AllInTime(arrivals, sender)
    decreases |arrivals|
  {
    if arrivals != [] {
      var front, a := arrivals[..|arrivals| - 1], arrivals[|arrivals| - 1];
      assert arrivals == front + [a];
      LastInTime(arrivals, sender);
      OnceIffInTime(front, sender);
      if Distinct(Passed(arrivals, sender)) {
        DistinctTail(Passed(arrivals, sender));
        if a.sender == sender {
          LatePassesAgain(front, a);
        }
      }
      if AllInTime(arrivals, sender) {
        PassesExactlyOnce(arrivals, sender);
        FirstsAreArrivals(arrivals, sender);
      }
    }
  }

  lemma DistinctTail(s: seq<nat>)
    requires Distinct(s)
    ensures s != [] ==> Distinct(s[1..])
  {
  }

  /** The filter does at every arrival what an unbounded memory would do if and only if all repeats are
      in time. */
  lemma {:induction false} IdealIffInTime(arrivals: seq<Arrival>, sender: string)
    requires sender != ""
    ensures (forall i :: 0 <= i < |arrivals| && arrivals[i].sender == sender ==>
              (Dropped(arrivals[..i], arrivals[i]) <==> arrivals[i] in arrivals[..i]))
       <==> AllInTime(arrivals, sender)
    decreases |arrivals|
  {
    hide Dropped, InTime;
    if arrivals != [] {
      var front, a := arrivals[..|arrivals| - 1], arrivals[|arrivals| - 1];
      assert forall i :: 0 <= i <= |front| ==> front[..i] == arrivals[..i];
      LastInTime(arrivals, sender);
      IdealIffInTime(front, sender);
      if AllInTime(front, sender) && a.sender == sender {
        LatePassesAgain(front, a);
        if a !in front {
          InTimeIfNew(front, a);
        }
      }
    }
  }

  lemma InTimeIfNew(earlier: seq<Arrival>, a: Arrival)
    requires a !in earlier
    ensures InTime(earlier, a)
  {
  }

  /** The numbers from 1 to n, in this order. */
  function Row(x: string, n: nat): seq<Arrival> {
    if n == 0 then [] else Row(x, n - 1) + [Arrival(x, n)]
  }

  lemma {:induction false} RowHolds(x: string, n: nat)
    ensures forall a :: a in Row(x, n) <==> a.sender == x && 1 <= a.number <= n
  {
    if n > 0 {
      RowHolds(x, n - 1);
    }
  }

  lemma {:induction false} RowInTime(x: string, n: nat)
    ensures AllInTime(Row(x, n), x)
    ensures |Firsts(Row(x, n), x)| == n && (n > 0 ==> Firsts(Row(x, n), x)[n - 1] == 1)
  {
    if n > 0 {
      RowInTime(x, n - 1);
      RowHolds(x, n - 1);
      var row := Row(x, n);
      assert row[..|row| - 1] == Row(x, n - 1);
      LastInTime(row, x);
    }
  }

  /** After 1, 2, 3, 4, 5 (and perhaps more), 1 passes a second time. */
  lemma FourAreTooFew(x: string, n: nat)
    requires x != "" && n > MAX_SEQS
    ensures Arrival(x, 1) in Row(x, n) && !Dropped(Row(x, n), Arrival(x, 1))
    ensures !Distinct(Passed(Row(x, n) + [Arrival(x, 1)], x))
  {
    RowInTime(x, n);
    RowHolds(x, n);
    FirstsAreArrivals(Row(x, n), x);
    LatePassesAgain(Row(x, n), Arrival(x, 1));
  }
}
