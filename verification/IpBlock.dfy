/** The blocked addresses: single ones in a set, masked ranges in a list. */
module IpBlock {

  const INADDR_ANY: bv32 := 0
  const INADDR_LOOPBACK: bv32 := 0x7F00_0001
  const INADDR_NONE: bv32 := 0xFFFF_FFFF

  datatype Rule = Rule(ip: bv32, mask: bv32)

  predicate Acceptable(r: Rule) {
    r.ip != INADDR_ANY && r.ip != INADDR_LOOPBACK && r.ip != INADDR_NONE && r.mask != INADDR_ANY
  }

  /** The bitwise operation of the source, named so that proofs which do not look into the bits can
      hide it. */
  function And(a: bv32, b: bv32): bv32 {
    a & b
  }

  predicate Covers(r: Rule, x: bv32) {
    And(x, r.mask) == And(r.ip, r.mask)
  }

  /** What all calls of add so far are meant to block. */
  predicate Blocks(rules: seq<Rule>, x: bv32) {
    exists i :: 0 <= i < |rules| && Acceptable(rules[i]) && Covers(rules[i], x)
  }

  lemma BlocksMore(rules: seq<Rule>, r: Rule, x: bv32)
    ensures Blocks(rules + [r], x) <==> Blocks(rules, x) || (Acceptable(r) && Covers(r, x))
  {
    if Blocks(rules, x) {
      var i :| 0 <= i < |rules| && Acceptable(rules[i]) && Covers(rules[i], x);
      assert (rules + [r])[i] == rules[i];
    }
    if Acceptable(r) && Covers(r, x) {
      assert (rules + [r])[|rules|] == r;
    }
  }

  predicate Special(ip: bv32) {
    ip == INADDR_ANY || ip == INADDR_LOOPBACK || ip == INADDR_NONE
  }

  /** Any ordinary address can be blocked, and under a full mask nothing else is blocked with it. */
  lemma OneAddress(rules: seq<Rule>, ip: bv32, x: bv32)
    requires !Special(ip)
    ensures Blocks(rules + [Rule(ip, INADDR_NONE)], x) <==> Blocks(rules, x) || x == ip
  {
    BlocksMore(rules, Rule(ip, INADDR_NONE), x);
    AndAll(x);
    AndAll(ip);
  }

  /** A range blocks the addresses that agree with its own under the mask. */
  lemma OneRange(rules: seq<Rule>, ip: bv32, mask: bv32, x: bv32)
    requires !Special(ip) && mask != 0
    ensures Blocks(rules + [Rule(ip, mask)], x) <==> Blocks(rules, x) || And(x, mask) == And(ip, mask)
  {
    hide And;
    BlocksMore(rules, Rule(ip, mask), x);
  }

  /** A special address, or a mask that would block everybody, has no effect. */
  lemma SpecialIsIgnored(rules: seq<Rule>, r: Rule, x: bv32)
    requires Special(r.ip) || r.mask == 0
    ensures Blocks(rules + [r], x) <==> Blocks(rules, x)
  {
    BlocksMore(rules, r, x);
  }

  /** What is_blocked looks for in the two containers. */
  predicate Stored(singles: set<bv32>, masked: seq<Rule>, x: bv32) {
    x in singles || exists i :: 0 <= i < |masked| && And(x, masked[i].mask) == masked[i].ip
  }

  lemma AndAll(x: bv32)
    ensures And(x, INADDR_NONE) == x
  {
  }

  lemma StoredSingle(singles: set<bv32>, masked: seq<Rule>, rule: Rule, x: bv32)
    requires rule.mask == INADDR_NONE
    ensures Stored(singles + {rule.ip}, masked, x) <==> Stored(singles, masked, x) || Covers(rule, x)
  {
    hide And;
    AndAll(x);
    AndAll(rule.ip);
  }

  lemma StoredMasked(singles: set<bv32>, masked: seq<Rule>, rule: Rule, x: bv32)
    ensures var entry := Rule(And(rule.ip, rule.mask), rule.mask);
            && (Stored(singles, masked + [entry], x) <==> Stored(singles, masked, x) || Covers(rule, x))
            && (entry in masked && Covers(rule, x) ==> Stored(singles, masked, x))
  {
    hide And;
    var entry := Rule(And(rule.ip, rule.mask), rule.mask);
    var more := masked + [entry];
    assert more[|masked|] == entry;
    assert forall i :: 0 <= i < |masked| ==> more[i] == masked[i];
  }

  class Store {
    var singles: set<bv32>
    var masked: seq<Rule>
    ghost var added: seq<Rule>  // every rule ever offered to Add

    ghost predicate Valid()
      reads this
    {
      && (forall x :: Stored(singles, masked, x) <==> Blocks(added, x))
      && (forall i, j :: 0 <= i < j < |masked| ==> masked[i] != masked[j])
    }

    constructor ()
      ensures Valid() && added == []
    {
      singles, masked, added := {}, [], [];
    }

    method IsBlocked(ip: bv32) returns (blocked: bool)
      requires Valid()
      ensures blocked <==> Blocks(added, ip)
    {
      assert Stored(singles, masked, ip) <==> Blocks(added, ip);
      if |masked| == 0 && |singles| == 0 {
        return false;
      }
      if ip in singles {
        return true;
      }
      for i := 0 to |masked|
        invariant forall j :: 0 <= j < i ==> And(ip, masked[j].mask) != masked[j].ip
      {
        if And(ip, masked[i].mask) == masked[i].ip {
          return true;
        }
      }
      return false;
    }

    method Add(ip: bv32, mask: bv32) returns (accepted: bool)
      requires Valid()
      modifies this
      ensures Valid()
      ensures accepted <==> Acceptable(Rule(ip, mask))
      ensures added == old(added) + [Rule(ip, mask)]
    {
      hide And;
      var rule := Rule(ip, mask);
      accepted := false;
      if ip != INADDR_ANY && ip != INADDR_LOOPBACK && ip != INADDR_NONE && mask != INADDR_ANY {
        if mask == INADDR_NONE {
          singles := singles + {ip};
        } else {
          var entry := Rule(And(ip, mask), mask);
          if entry !in masked {
            masked := masked + [entry];
          }
        }
        accepted := true;
      }
      added := added + [rule];
      forall x
        ensures Stored(singles, masked, x) <==> Blocks(added, x)
      {
        assert Stored(old(singles), old(masked), x) <==> Blocks(old(added), x);
        BlocksMore(old(added), rule, x);
        if mask == INADDR_NONE {
          StoredSingle(old(singles), old(masked), rule, x);
        } else {
          StoredMasked(old(singles), old(masked), rule, x);
        }
      }
    }

    method HandleMessage(ips: seq<Rule>)
      requires Valid()
      modifies this
      ensures Valid() && added == old(added) + ips
    {
      for i := 0 to |ips|
        invariant Valid() && added == old(added) + ips[..i]
      {
        var _ := Add(ips[i].ip, ips[i].mask);
      }
    }

    method Size() returns (n: nat)
      ensures n == |singles| + |masked|
    {
      n := |singles| + |masked|;
    }
  }
}
