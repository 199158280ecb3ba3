/** Rating a host: every open port against every risk rule. */
module Risk {
  import opened Tables
  import opened Version
  import opened Folding

  /** A port row with its key. */
  datatype Port = Port(key: PortKey, row: PortRow)

  /** What a reason line is formatted from. */
  datatype Reason = Reason(port: int, proto: string, caption: string, gated: bool, product: string, version: string,
                           below: string)

  function Rank(severity: string): nat {
    if severity == "info" then 1 else if severity == "warning" then 2 else if severity == "critical" then 3 else 0
  }

  /** The severity of a rank. */
  function Named(rank: nat): string {
    match rank case 1 => "info" case 2 => "warning" case 3 => "critical" case _ => ""
  }

  predicate OccursAt(s: string, sub: string, i: nat) {
    i + |sub| <= |s| && s[i..i + |sub|] == sub
  }

  predicate Contains(s: string, sub: string) {
    exists i: nat | i <= |s| :: OccursAt(s, sub, i)
  }

  predicate ServiceFits(p: Port, r: Rule, lower: string -> string) {
    r.service == "" || Contains(lower(p.row.service), lower(r.service)) ||
    Contains(lower(p.row.product), lower(r.service))
  }

  /** An active exposure: the port is open, the rule is on and about this number and service, and a
      version-gated rule has a detected version below its threshold. */
  ghost predicate Matches(p: Port, r: Rule, lower: string -> string) {
    && p.row.open && r.enabled && r.port == p.key.port && ServiceFits(p, r, lower)
    && (r.versionBelow != "" ==> p.row.version != "" && VersionOlder(p.row.version, r.versionBelow))
  }

  function ReasonFor(p: Port, r: Rule): Reason {
    if r.versionBelow == "" then Reason(p.key.port, p.key.proto, r.caption, false, "", "", "")
    else Reason(p.key.port, p.key.proto, r.caption, true, p.row.product, p.row.version, r.versionBelow)
  }

  ghost function RuleReasons(p: Port, rules: seq<Rule>, lower: string -> string): seq<Reason> {
    if rules == [] then []
    else
      var r := rules[|rules| - 1];
      RuleReasons(p, rules[..|rules| - 1], lower) + if Matches(p, r, lower) then [ReasonFor(p, r)] else []
  }

  ghost function Reasons(ports: seq<Port>, rules: seq<Rule>, lower: string -> string): seq<Reason> {
    if ports == [] then []
    else Reasons(ports[..|ports| - 1], rules, lower) + RuleReasons(ports[|ports| - 1], rules, lower)
  }

  /** `best` is the highest rank among the matching pairs, 0 if there are none. */
  ghost predicate Highest(best: nat, ports: seq<Port>, rules: seq<Rule>, lower: string -> string) {
    && (forall p, r | p in ports && r in rules && Matches(p, r, lower) :: Rank(r.severity) <= best)
    && (best > 0 ==> exists p, r :: p in ports && r in rules && Matches(p, r, lower) && Rank(r.severity) == best)
  }

  /** Some open port matches a rule of that severity. */
  ghost predicate Finds(severity: string, ports: seq<Port>, rules: seq<Rule>, lower: string -> string) {
    exists p, r :: p in ports && r in rules && Matches(p, r, lower) && r.severity == severity
  }

  /** Critical findings outweigh warnings and warnings outweigh information; other severities do not count. */
  ghost predicate Rated(level: string, ports: seq<Port>, rules: seq<Rule>, lower: string -> string) {
    level ==
      if Finds("critical", ports, rules, lower) then "critical"
      else if Finds("warning", ports, rules, lower) then "warning"
      else if Finds("info", ports, rules, lower) then "info"
      else ""
  }

  lemma HighestIsRated(best: nat, ports: seq<Port>, rules: seq<Rule>, lower: string -> string)
    requires Highest(best, ports, rules, lower)
    ensures Rated(Named(best), ports, rules, lower)
  {
    hide Matches;
    if best > 0 {
      var p, r :| p in ports && r in rules && Matches(p, r, lower) && Rank(r.severity) == best;
      assert Finds(r.severity, ports, rules, lower);
    }
    if Finds("critical", ports, rules, lower) { assert best >= 3; }
    if Finds("warning", ports, rules, lower) { assert best >= 2; }
    if Finds("info", ports, rules, lower) { assert best >= 1; }
  }

  /** `top` is `before` raised to the highest rank among the rules matching one port. */
  ghost predicate Raised(top: nat, before: nat, p: Port, rules: seq<Rule>, lower: string -> string) {
    && top >= before
    && (top > before ==> exists r :: r in rules && Matches(p, r, lower) && Rank(r.severity) == top)
    && (forall r | r in rules && Matches(p, r, lower) :: Rank(r.severity) <= top)
  }

  lemma RaisedByOne(top: nat, before: nat, p: Port, rules: seq<Rule>, r: Rule, lower: string -> string)
    requires Raised(top, before, p, rules, lower)
    ensures !Matches(p, r, lower) || Rank(r.severity) <= top ==> Raised(top, before, p, rules + [r], lower)
    ensures Matches(p, r, lower) && Rank(r.severity) > top ==> Raised(Rank(r.severity), before, p, rules + [r], lower)
  {
    hide Matches, Rank;
    assert forall x :: x in rules + [r] <==> x in rules || x == r;
  }

  lemma HighestByOne(top: nat, before: nat, ports: seq<Port>, p: Port, rules: seq<Rule>, lower: string -> string)
    requires Highest(before, ports, rules, lower) && Raised(top, before, p, rules, lower)
    ensures Highest(top, ports + [p], rules, lower)
  {
    hide Matches, Rank;
    assert forall x :: x in ports + [p] <==> x in ports || x == p;
  }

  /** The tests on one rule for an open port, in the order they are made. */
  method CheckRule(p: Port, r: Rule, lower: string -> string) returns (fires: bool, reason: Reason)
    requires p.row.open
    ensures fires <==> Matches(p, r, lower)
    ensures fires <==>
            && r.enabled && r.port == p.key.port
            && (r.service == "" || Contains(lower(p.row.service), lower(r.service))
                || Contains(lower(p.row.product), lower(r.service)))
            && (r.versionBelow == "" || (p.row.version != "" && VersionOlder(p.row.version, r.versionBelow)))
    ensures fires ==> reason == ReasonFor(p, r)
    ensures fires ==>
              reason.port == p.key.port && reason.proto == p.key.proto && reason.caption == r.caption &&
              if r.versionBelow == "" then !reason.gated
              else reason.gated && reason.product == p.row.product && reason.version == p.row.version &&
                   reason.below == r.versionBelow
  {
    hide Contains, VersionOlder;
    reason := Reason(p.key.port, p.key.proto, r.caption, false, "", "", "");
    if !r.enabled || r.port != p.key.port {
      return false, reason;
    }
    if r.service != "" {
      var svc := lower(r.service);
      if !Contains(lower(p.row.service), svc) && !Contains(lower(p.row.product), svc) {
        return false, reason;
      }
    }
    if r.versionBelow != "" {
      if p.row.version == "" {
        return false, reason;
      }
      var less := VersionLess(p.row.version, r.versionBelow);
      if !less {
        return false, reason;
      }
      reason := Reason(p.key.port, p.key.proto, r.caption, true, p.row.product, p.row.version, r.versionBelow);
    }
    fires := true;
  }

  /** Main: the nested loops return the name of the highest severity over all matching pairs, and one
      reason per matching pair in order. */
  method RiskForPorts(ports: seq<Port>, rules: seq<Rule>, lower: string -> string)
    returns (level: string, reasons: seq<Reason>, ghost best: nat)
    ensures Highest(best, ports, rules, lower) && level == Named(best) && best <= 3
    ensures Rated(level, ports, rules, lower)
    ensures reasons == Reasons(ports, rules, lower)
  {
    hide Highest, Raised, Matches, ReasonFor, Reasons, RuleReasons, Rated;
    NoReasonsYet(rules, lower);
    level, reasons := "", [];
    var top := 0;
    NoneHighest(rules, lower);
    for i := 0 to |ports|
      invariant Highest(top, ports[..i], rules, lower) && level == Named(top) && top <= 3
      invariant reasons == Reasons(ports[..i], rules, lower)
    {
      var p := ports[i];
      assert ports[..i + 1][..i] == ports[..i] && ports[..i + 1] == ports[..i] + [p];
      ghost var before, reasonsBefore := top, reasons;
      ReasonsNext(ports[..i], p, rules, lower);
      if !p.row.open {
        NoReasons(p, rules, lower);
        assert reasons + [] == reasons;
        ClosedRaises(top, p, rules, lower);
        HighestByOne(top, top, ports[..i], p, rules, lower);
        continue;
      }
      ClosedRaises(top, p, [], lower);
      NoRulesYet(p, lower);
      assert reasons + [] == reasons && rules[..0] == [];
      for j := 0 to |rules|
        invariant Raised(top, before, p, rules[..j], lower) && top <= 3 && level == Named(top)
        invariant reasons == reasonsBefore + RuleReasons(p, rules[..j], lower)
      {
        var r := rules[j];
        assert rules[..j + 1][..j] == rules[..j] && rules[..j + 1] == rules[..j] + [r];
        RaisedByOne(top, before, p, rules[..j], r, lower);
        RuleReasonsNext(p, rules[..j], r, lower);
        assert reasons + [] == reasons;
        var fires, reason := CheckRule(p, r, lower);
        if !fires {
          continue;
        }
        assert reasonsBefore + RuleReasons(p, rules[..j], lower) + [reason]
            == reasonsBefore + (RuleReasons(p, rules[..j], lower) + [reason]);
        reasons := reasons + [reason];
        if Rank(r.severity) > top {
          top, level := Rank(r.severity), r.severity;
        }
      }
      assert rules[..|rules|] == rules;
      HighestByOne(top, before, ports[..i], p, rules, lower);
    }
    assert ports[..|ports|] == ports;
    best := top;
    HighestIsRated(best, ports, rules, lower);
  }

  lemma NoReasonsYet(rules: seq<Rule>, lower: string -> string)
    ensures Reasons([], rules, lower) == []
  {
  }

  lemma NoRulesYet(p: Port, lower: string -> string)
    ensures RuleReasons(p, [], lower) == []
  {
  }

  lemma ReasonsNext(ports: seq<Port>, p: Port, rules: seq<Rule>, lower: string -> string)
    ensures Reasons(ports + [p], rules, lower) == Reasons(ports, rules, lower) + RuleReasons(p, rules, lower)
  {
    hide RuleReasons;
    assert (ports + [p])[..|ports|] == ports;
  }

  lemma RuleReasonsNext(p: Port, rules: seq<Rule>, r: Rule, lower: string -> string)
    ensures RuleReasons(p, rules + [r], lower) ==
            RuleReasons(p, rules, lower) + if Matches(p, r, lower) then [ReasonFor(p, r)] else []
  {
    hide Matches, ReasonFor;
    assert (rules + [r])[..|rules|] == rules;
  }

  lemma NoneHighest(rules: seq<Rule>, lower: string -> string)
    ensures Highest(0, [], rules, lower)
  {
  }

  lemma ClosedRaises(top: nat, p: Port, rules: seq<Rule>, lower: string -> string)
    requires !p.row.open || rules == []
    ensures Raised(top, top, p, rules, lower)
  {
  }

  lemma {:induction false} NoReasons(p: Port, rules: seq<Rule>, lower: string -> string)
    requires !p.row.open
    ensures RuleReasons(p, rules, lower) == []
  {
    if rules != [] { NoReasons(p, rules[..|rules| - 1], lower); }
  }

  // ---- what the result depends on ----

  lemma HighestUnique(a: nat, b: nat, ports: seq<Port>, rules: seq<Rule>, ports': seq<Port>, rules': seq<Rule>,
                      lower: string -> string)
    requires Highest(a, ports, rules, lower) && Highest(b, ports', rules', lower)
    requires (forall p :: p in ports <==> p in ports') && (forall r :: r in rules <==> r in rules')
    ensures a == b
  {
  }

  ghost function OneRule(p: Port, lower: string -> string): Rule -> multiset<Reason> {
    r => if Matches(p, r, lower) then multiset{ReasonFor(p, r)} else multiset{}
  }

  ghost function OnePort(rules: seq<Rule>, lower: string -> string): Port -> multiset<Reason> {
    p => Gather(rules, OneRule(p, lower))
  }

  lemma {:induction false} RuleReasonsGathered(p: Port, rules: seq<Rule>, lower: string -> string)
    ensures multiset(RuleReasons(p, rules, lower)) == Gather(rules, OneRule(p, lower))
  {
    if rules != [] { RuleReasonsGathered(p, rules[..|rules| - 1], lower); }
  }

  lemma {:induction false} ReasonsGathered(ports: seq<Port>, rules: seq<Rule>, lower: string -> string)
    ensures multiset(Reasons(ports, rules, lower)) == Gather(ports, OnePort(rules, lower))
  {
    if ports != [] {
      ReasonsGathered(ports[..|ports| - 1], rules, lower);
      RuleReasonsGathered(ports[|ports| - 1], rules, lower);
    }
  }

  /** Main: the order of ports and rules affects neither the rating nor which reasons are given. */
  lemma OrderIrrelevant(ports: seq<Port>, rules: seq<Rule>, ports': seq<Port>, rules': seq<Rule>,
                        lower: string -> string)
    requires multiset(ports) == multiset(ports') && multiset(rules) == multiset(rules')
    ensures multiset(Reasons(ports, rules, lower)) == multiset(Reasons(ports', rules', lower))
    ensures forall a, b | Highest(a, ports, rules, lower) && Highest(b, ports', rules', lower) :: a == b
  {
    ReasonsGathered(ports, rules, lower);
    ReasonsGathered(ports', rules', lower);
    GatherPermuted(ports, ports', OnePort(rules, lower));
    forall p | p in ports' ensures OnePort(rules, lower)(p) == OnePort(rules', lower)(p) {
      GatherPermuted(rules, rules', OneRule(p, lower));
    }
    GatherSame(ports', OnePort(rules, lower), OnePort(rules', lower));
    forall p ensures p in ports <==> p in ports' {
      assert (p in ports <==> p in multiset(ports)) && (p in ports' <==> p in multiset(ports'));
    }
    forall r ensures r in rules <==> r in rules' {
      assert (r in rules <==> r in multiset(rules)) && (r in rules' <==> r in multiset(rules'));
    }
    forall a, b | Highest(a, ports, rules, lower) && Highest(b, ports', rules', lower) ensures a == b {
      HighestUnique(a, b, ports, rules, ports', rules', lower);
    }
  }

  lemma {:induction false} SomeReason(ports: seq<Port>, rules: seq<Rule>, lower: string -> string)
    ensures Reasons(ports, rules, lower) != [] <==> exists p, r :: p in ports && r in rules && Matches(p, r, lower)
  {
    if ports != [] {
      var init, q := ports[..|ports| - 1], ports[|ports| - 1];
      assert ports == init + [q];
      SomeReason(init, rules, lower);
      SomeRuleReason(q, rules, lower);
      assert q in ports;
      if p, r :| p in ports && r in rules && Matches(p, r, lower) { assert p in init || p == q; }
    }
  }

  lemma {:induction false} SomeRuleReason(p: Port, rules: seq<Rule>, lower: string -> string)
    ensures RuleReasons(p, rules, lower) != [] <==> exists r :: r in rules && Matches(p, r, lower)
  {
    if rules != [] {
      var init, q := rules[..|rules| - 1], rules[|rules| - 1];
      assert rules == init + [q] && q in rules;
      SomeRuleReason(p, init, lower);
    }
  }

  /** Main: a host has no rating if and only if every matching pair's rule has a severity outside the
      known three; so with known severities, if and only if it has no reasons. */
  lemma UnratedIffNoneRanks(best: nat, ports: seq<Port>, rules: seq<Rule>, lower: string -> string)
    requires Highest(best, ports, rules, lower) && best <= 3
    ensures Named(best) == "" <==> forall p, r | p in ports && r in rules && Matches(p, r, lower) ::
              Rank(r.severity) == 0
    ensures (forall r | r in rules :: Rank(r.severity) > 0) ==>
              (Named(best) == "" <==> Reasons(ports, rules, lower) == [])
  {
    SomeReason(ports, rules, lower);
  }

  /** Main: raising a rule's threshold to one that is not older never drops a version-gated match. */
  lemma RaisingThresholdKeepsMatches(p: Port, r: Rule, below: string, lower: string -> string)
    requires Matches(p, r, lower) && r.versionBelow != "" && below != "" && !VersionOlder(below, r.versionBelow)
    ensures Matches(p, r.(versionBelow := below), lower)
  {
    StrictWeakOrder(p.row.version, below, r.versionBelow);
  }
}
