/**
 Port forwarding on one floating IP through Neutron: the two ways to create a rule, the search for
 a free external port, and deletion.
 */
module Ports {
  import opened Common

  datatype Rule = Rule(id: string, internalIp: string, internalPort: int, externalPort: int)

  const MIN_PORT := 10
  const MAX_PORT := 1000
  const DRAWS := 100

  ghost predicate Uses(rules: seq<Rule>, port: int) {
    exists i :: 0 <= i < |rules| && rules[i].externalPort == port
  }

  ghost predicate DistinctPorts(rules: seq<Rule>) {
    forall i, j :: 0 <= i < j < |rules| ==> rules[i].externalPort != rules[j].externalPort
  }

  /** What `random.randint(min_port, max_port)` may answer on each draw. */
  ghost predicate Draws(draw: nat -> int) {
    forall k: nat :: MIN_PORT <= draw(k) <= MAX_PORT
  }

  /** The first of the hundred draws that hits a free port, if any. */
  ghost predicate FirstFree(rules: seq<Rule>, draw: nat -> int, port: Option<int>) {
    match port
    case None => forall k: nat :: k < DRAWS ==> Uses(rules, draw(k))
    case Some(p) =>
      exists k: nat :: k < DRAWS && draw(k) == p && !Uses(rules, p) && forall j: nat :: j < k ==> Uses(rules, draw(j))
  }

  /** Whether Neutron answers the listing, the creation and the final lookup of the legacy endpoint. */
  datatype LegacyAnswers = LegacyAnswers(listed: bool, created: bool, shown: bool)

  /** One request, with Neutron's answer to the call it may lead to. */
  datatype Op =
    | Legacy(rule: Rule, answers: LegacyAnswers)
    | AutoAssigned(rule: Rule, draw: nat -> int, accepted: bool)
    | Explicit(rule: Rule, accepted: bool)
    | Delete(id: string, accepted: bool)

  function WithoutRule(rules: seq<Rule>, id: string): seq<Rule> {
    if rules == [] then []
    else
      var last := rules[|rules| - 1];
      WithoutRule(rules[..|rules| - 1], id) + (if last.id == id then [] else [last])
  }

  /** The other rules stay, in their order, and the named one goes. */
  lemma {:induction false} WithoutRuleKeepsOthers(rules: seq<Rule>, id: string)
    ensures forall r :: r in WithoutRule(rules, id) <==> r in rules && r.id != id
    ensures (forall r :: r in rules ==> r.id != id) ==> WithoutRule(rules, id) == rules
    ensures forall more :: WithoutRule(rules + [more], id) == WithoutRule(rules, id) + (if more.id == id then [] else [more])
  {
    forall more ensures WithoutRule(rules + [more], id) == WithoutRule(rules, id) + (if more.id == id then [] else [more]) {
      assert (rules + [more])[..|rules|] == rules;
    }
    if rules != [] {
      var n := |rules| - 1;
      assert rules == rules[..n] + [rules[n]];
      WithoutRuleKeepsOthers(rules[..n], id);
    }
  }

  ghost predicate Step(before: seq<Rule>, op: Op, after: seq<Rule>) {
    match op
    case Legacy(rule, answers) =>
      after == if answers.listed && answers.created && !Uses(before, rule.externalPort) then before + [rule] else before
    case AutoAssigned(rule, draw, accepted) =>
      exists port :: FirstFree(before, draw, port)
        && after == if port.Some? && accepted then before + [rule.(externalPort := port.value)] else before
    case Explicit(rule, accepted) => after == if accepted then before + [rule] else before
    case Delete(id, accepted) => after == if accepted then WithoutRule(before, id) else before
  }

  class FloatingIp {
    var rules: seq<Rule>

    constructor ()
      ensures rules == []
    {
      rules := [];
    }

    method UsedPorts() returns (used: set<int>)
      ensures forall port :: port in used <==> Uses(rules, port)
    {
      used := {};
      for i := 0 to |rules|
        invariant forall port :: port in used <==> exists j :: 0 <= j < i && rules[j].externalPort == port
      {
        used := used + {rules[i].externalPort};
      }
    }

    /** `find_random_available_port`; `None` stands for the exception after a hundred draws. */
    method FindRandomAvailablePort(draw: nat -> int) returns (port: Option<int>)
      ensures FirstFree(rules, draw, port)
      ensures port.None? <==> forall k: nat :: k < 100 ==> Uses(rules, draw(k))
    {
      var used := UsedPorts();
      for k := 0 to DRAWS
        invariant forall j: nat :: j < k ==> Uses(rules, draw(j))
      {
        if draw(k) !in used {
          return Some(draw(k));
        }
      }
      return None;
    }

    /**
     `create_port_forwarding`, which looks for a conflict first and for the address of the floating IP
     last: when that lookup raises, a rule has been created and failure is reported all the same.
     */
    method CreateLegacy(rule: Rule, answers: LegacyAnswers) returns (success: bool)
      modifies this
      ensures Step(old(rules), Legacy(rule, answers), rules)
      ensures success <==> answers.shown && rules == old(rules) + [rule]
      ensures rules != old(rules) <==> answers.listed && answers.created && !Uses(old(rules), rule.externalPort)
    {
      if !answers.listed {
        return false;
      }
      for i := 0 to |rules|
        invariant rules == old(rules)
        invariant forall j :: 0 <= j < i ==> rules[j].externalPort != rule.externalPort
      {
        if rules[i].externalPort == rule.externalPort {
          return false;
        }
      }
      if !answers.created {
        return false;
      }
      rules := rules + [rule];
      return answers.shown;
    }

    /**
     `create_port_forwarding_rule`, which draws a port when none is asked for and otherwise leaves
     conflicts to Neutron. `accepted` is Neutron's answer, and that of the lookup of the port uuid.
     */
    method CreateRule(rule: Rule, externalPort: Option<int>, draw: nat -> int, accepted: bool) returns (created: Option<Rule>)
      modifies this
      ensures Step(old(rules), if externalPort.None? then AutoAssigned(rule, draw, accepted)
                               else Explicit(rule.(externalPort := externalPort.value), accepted), rules)
      ensures rules == old(rules) + if created.Some? then [created.value] else []
      ensures created.Some? ==>
                && accepted && created.value == rule.(externalPort := created.value.externalPort)
                && (externalPort.Some? ==> created.value.externalPort == externalPort.value)
                && (externalPort.None? ==> forall i :: 0 <= i < |old(rules)| ==> old(rules)[i].externalPort != created.value.externalPort)
      ensures externalPort.None? && created.Some? && (forall k: nat :: 10 <= draw(k) <= 1000) ==>
                10 <= created.value.externalPort <= 1000
    {
      var port := externalPort;
      if port.None? {
        port := FindRandomAvailablePort(draw);
        if port.None? {
          return None;
        }
      }
      if !accepted {
        return None;
      }
      var newRule := rule.(externalPort := port.value);
      rules := rules + [newRule];
      return Some(newRule);
    }

    /** `delete_port_forwarding_rule`; false stands for the exception of a refused call. */
    method DeleteRule(id: string, accepted: bool) returns (ok: bool)
      modifies this
      ensures Step(old(rules), Delete(id, accepted), rules)
      ensures ok == accepted
      ensures !accepted ==> rules == old(rules)
      ensures accepted ==> forall r :: r in rules <==> r in old(rules) && r.id != id
    {
      if !accepted {
        return false;
      }
      var kept: seq<Rule> := [];
      for i := 0 to |rules|
        invariant rules == old(rules) && kept == WithoutRule(rules[..i], id)
      {
        assert rules[..i + 1][..i] == rules[..i];
        if rules[i].id != id {
          kept := kept + [rules[i]];
        }
      }
      assert rules[..|rules|] == rules;
      WithoutRuleKeepsOthers(rules, id);
      rules := kept;
      return true;
    }
  }

  /** A history of requests on a floating IP that starts with no rules. */
  ghost predicate History(states: seq<seq<Rule>>, ops: seq<Op>) {
    && |states| == |ops| + 1 && states[0] == []
    && forall i :: 0 <= i < |ops| ==> Step(states[i], ops[i], states[i + 1])
  }

  lemma {:induction false} WithoutRuleSubset(rules: seq<Rule>, id: string)
    ensures forall port :: Uses(WithoutRule(rules, id), port) ==> Uses(rules, port)
    ensures DistinctPorts(rules) ==> DistinctPorts(WithoutRule(rules, id))
  {
    if rules != [] {
      var front, last := rules[..|rules| - 1], rules[|rules| - 1];
      WithoutRuleSubset(front, id);
      forall port | Uses(WithoutRule(rules, id), port) ensures Uses(rules, port) {
        if port == last.externalPort {
          assert rules[|rules| - 1].externalPort == port;
        } else {
          var i :| 0 <= i < |WithoutRule(rules, id)| && WithoutRule(rules, id)[i].externalPort == port;
          assert WithoutRule(front, id)[i].externalPort == port;
          assert Uses(front, port);
          var j :| 0 <= j < |front| && front[j].externalPort == port;
          assert rules[j].externalPort == port;
        }
      }
      if DistinctPorts(rules) {
        assert !Uses(front, last.externalPort);
      }
    }
  }

  lemma StepKeepsDistinct(before: seq<Rule>, op: Op, after: seq<Rule>)
    requires DistinctPorts(before) && Step(before, op, after)
    ensures DistinctPorts(after) <==> !(op.Explicit? && op.accepted && Uses(before, op.rule.externalPort))
  {
    match op
    case Delete(id, _) => WithoutRuleSubset(before, id);
    case Explicit(rule, accepted) =>
      if accepted && Uses(before, rule.externalPort) {
        var i :| 0 <= i < |before| && before[i].externalPort == rule.externalPort;
        assert after[i].externalPort == after[|before|].externalPort;
      }
    case _ =>
  }

  /**
   The external ports of the floating IP stay pairwise distinct throughout the history exactly when
   Neutron never accepts an explicitly requested port that is in use: that path alone does not look.
   */
  lemma PortsStayDistinct(states: seq<seq<Rule>>, ops: seq<Op>)
    requires History(states, ops)
    ensures (forall i :: 0 <= i < |states| ==> DistinctPorts(states[i])) <==>
            (forall i :: 0 <= i < |ops| && ops[i].Explicit? && ops[i].accepted ==> !Uses(states[i], ops[i].rule.externalPort))
  {
    if forall i :: 0 <= i < |states| ==> DistinctPorts(states[i]) {
      forall i | 0 <= i < |ops| && ops[i].Explicit? && ops[i].accepted ensures !Uses(states[i], ops[i].rule.externalPort) {
        StepKeepsDistinct(states[i], ops[i], states[i + 1]);
      }
    }
    if forall i :: 0 <= i < |ops| && ops[i].Explicit? && ops[i].accepted ==> !Uses(states[i], ops[i].rule.externalPort) {
      for k := 0 to |ops|
        invariant forall i :: 0 <= i <= k ==> DistinctPorts(states[i])
      {
        StepKeepsDistinct(states[k], ops[k], states[k + 1]);
      }
    }
  }
}
