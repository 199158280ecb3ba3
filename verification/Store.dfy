/** The store itself: four tables, changed in place by calls that each run under one mutex.
    Every method is tied to the function on table values that specifies it (module Tables). */
module Stores {
  import opened Options
  import opened Tables
  import opened Listings

  class Store {
    var subnets: map<string, SubnetRow>
    var hosts: map<HostKey, HostRow>
    var ports: map<PortKey, PortRow>
    var rules: map<nat, Rule>
    var nextSubnet: nat
    var nextHost: nat
    var nextRule: nat

    /** The hosts whose ports have been swept: every port scan ends in exactly one sweep. */
    ghost var scans: seq<nat>

    ghost function Snapshot(): Db
      reads this
    {
      Db(subnets, hosts, ports, rules, nextSubnet, nextHost, nextRule)
    }

    constructor ()
      ensures Snapshot() == Empty && scans == []
    {
      subnets, hosts, ports, rules := map[], map[], map[], map[];
      nextSubnet, nextHost, nextRule := 1, 1, 1;
      scans := [];
    }

    // ---- subnets ----

    method UpsertAutoSubnet(cidr: string, name: string, iface: string) returns (id: nat, created: bool)
      modifies this
      ensures scans == old(scans)
      ensures Snapshot() == Tables.UpsertAutoSubnet(old(Snapshot()), cidr, name, iface)
      ensures created <==> cidr !in old(subnets)
      ensures cidr in subnets && subnets[cidr].id == id
    {
      if cidr in subnets {
        var row := subnets[cidr];
        if name != "" && row.name == "" {
          subnets := subnets[cidr := row.(name := name)];
        }
        assert subnets == old(subnets)[cidr := subnets[cidr]];
        return row.id, false;
      }
      id, created := nextSubnet, true;
      subnets := subnets[cidr := SubnetRow(id, name, Auto, iface, true, false)];
      nextSubnet := nextSubnet + 1;
    }

    method SetSubnetHidden(id: nat, hidden: bool)
      modifies this
      ensures scans == old(scans)
      ensures Snapshot() == EditSubnet(old(Snapshot()), id, SetHidden(hidden))
    {
      subnets := map c | c in subnets :: if subnets[c].id == id then subnets[c].(hidden := hidden) else subnets[c];
    }

    method SetSubnetEnabled(id: nat, enabled: bool)
      modifies this
      ensures scans == old(scans)
      ensures Snapshot() == EditSubnet(old(Snapshot()), id, SetEnabled(enabled))
    {
      subnets := map c | c in subnets :: if subnets[c].id == id then subnets[c].(enabled := enabled) else subnets[c];
    }

    // ---- hosts ----

    method UpsertHost(subnet: nat, ip: string, mac: string, hostname: string, vendor: string) returns (r: Upsert)
      modifies this
      ensures scans == old(scans)
      ensures Snapshot() == Tables.UpsertHost(old(Snapshot()), subnet, ip, mac, hostname, vendor)
      ensures r == Reported(old(hosts), hosts, HostKey(subnet, ip))
    {
      var k := HostKey(subnet, ip);
      if k in hosts {
        var h := hosts[k].(status := Up, misses := 0);
        if mac != "" { h := h.(mac := mac); }
        if hostname != "" { h := h.(hostname := hostname); }
        if vendor != "" { h := h.(vendor := vendor); }
        hosts := hosts[k := h];
        return Stored(h.id, false);
      }
      r := Insert(k, HostRow(nextHost, mac, hostname, vendor, Up, Auto, "", 0, false, false));
    }

    /** The INSERT shared by the four ways a host row is born; a missing subnet fails it. */
    method Insert(k: HostKey, row: HostRow) returns (r: Upsert)
      requires k !in hosts && row.id == nextHost
      modifies this
      ensures scans == old(scans)
      ensures Snapshot() == InsertHost(old(Snapshot()), k, row)
      ensures r == Reported(old(hosts), hosts, k)
    {
      if !HasSubnet(subnets, k.subnet) {
        return Failed;
      }
      hosts := hosts[k := row];
      nextHost := nextHost + 1;
      r := Stored(row.id, true);
    }

    method UpsertUnconfirmedHost(subnet: nat, ip: string, hostname: string) returns (r: Upsert)
      modifies this
      ensures scans == old(scans)
      ensures Snapshot() == Tables.UpsertUnconfirmedHost(old(Snapshot()), subnet, ip, hostname)
      ensures r == Reported(old(hosts), hosts, HostKey(subnet, ip))
    {
      var k := HostKey(subnet, ip);
      if k in hosts {
        if hostname != "" && hosts[k].hostname == "" {
          hosts := hosts[k := hosts[k].(hostname := hostname)];
        }
        assert hosts == old(hosts)[k := hosts[k]];
        return Stored(hosts[k].id, false);
      }
      r := Insert(k, HostRow(nextHost, "", hostname, "", Unknown, Auto, "", 0, false, false));
    }

    method ImportHost(subnet: nat, ip: string, mac: string, hostname: string, vendor: string, notes: string)
      returns (r: Upsert)
      modifies this
      ensures scans == old(scans)
      ensures Snapshot() == Tables.ImportHost(old(Snapshot()), subnet, ip, mac, hostname, vendor, notes)
      ensures r == Reported(old(hosts), hosts, HostKey(subnet, ip))
    {
      var k := HostKey(subnet, ip);
      if k in hosts {
        var h := hosts[k];
        if mac != "" && h.mac == "" { h := h.(mac := mac); }
        if hostname != "" && h.hostname == "" { h := h.(hostname := hostname); }
        if vendor != "" && h.vendor == "" { h := h.(vendor := vendor); }
        if h != hosts[k] {
          hosts := hosts[k := h];
        }
        assert hosts == old(hosts)[k := h];
        return Stored(h.id, false);
      }
      r := Insert(k, HostRow(nextHost, mac, hostname, vendor, Unknown, Auto, notes, 0, false, false));
    }

    method ConfirmHostUp(id: nat)
      modifies this
      ensures scans == old(scans)
      ensures Snapshot() == EditHost(old(Snapshot()), id, Confirm)
    {
      hosts := map k | k in hosts :: if hosts[k].id == id then hosts[k].(status := Up, misses := 0) else hosts[k];
    }

    method AcknowledgeHost(id: nat)
      modifies this
      ensures scans == old(scans)
      ensures Snapshot() == EditHost(old(Snapshot()), id, SetAck(true))
    {
      hosts := map k | k in hosts :: if hosts[k].id == id then hosts[k].(acked := true) else hosts[k];
    }

    method ClearAcknowledgementIfSet(id: nat) returns (wasAcknowledged: bool)
      modifies this
      ensures scans == old(scans)
      ensures Snapshot() == EditHost(old(Snapshot()), id, SetAck(false))
      ensures wasAcknowledged <==> exists k | k in old(hosts) :: old(hosts)[k].id == id && old(hosts)[k].acked
    {
      wasAcknowledged := exists k | k in hosts :: hosts[k].id == id && hosts[k].acked;
      if wasAcknowledged {
        hosts := map k | k in hosts :: if hosts[k].id == id then hosts[k].(acked := false) else hosts[k];
      }
      assert hosts == EditHost(old(Snapshot()), id, SetAck(false)).hosts;
    }

    /** Bumps the miss count of every host of the subnet that was not seen; returns the ids that went down. */
    method SweepMissingHosts(subnet: nat, seen: set<string>, threshold: nat)
      returns (justWentDown: seq<nat>, ghost order: seq<HostKey>)
      modifies this
      ensures scans == old(scans)
      ensures Snapshot() == SweepMissing(old(Snapshot()), subnet, seen, threshold)
      ensures Lists(order, WentDown(old(Snapshot()), subnet, seen, threshold))
      ensures justWentDown == IdsOf(old(hosts), order)
    {
      var candidates := set k | k in hosts && Unseen(k, subnet, seen);
      var rest := candidates;
      justWentDown, order := [], [];
      ghost var before := hosts;
      ghost var down := WentDown(Snapshot(), subnet, seen, threshold);
      assert SweptSome(before, {}, threshold) == before;
      while rest != {}
        invariant rest <= candidates && scans == old(scans)
        invariant Snapshot() == old(Snapshot()).(hosts := SweptSome(before, candidates - rest, threshold))
        invariant Lists(order, down * (candidates - rest))
        invariant justWentDown == IdsOf(before, order)
        decreases rest
      {
        var k :| k in rest;
        var h := hosts[k];
        var missCount, status := h.misses + 1, h.status;
        ghost var done := candidates - rest;
        assert candidates - (rest - {k}) == done + {k};
        if missCount >= threshold && status == Up {
          status := Down;
          assert k in down;
          ListsAppend(order, down * done, k);
          assert down * (done + {k}) == down * done + {k};
          order, justWentDown := order + [k], justWentDown + [h.id];
        } else {
          assert down * (done + {k}) == down * done;
        }
        SweptOneMore(before, done, threshold, k);
        hosts, rest := hosts[k := h.(misses := missCount, status := status)], rest - {k};
      }
      assert candidates - rest == candidates;
      assert down * candidates == down;
      assert hosts == SweepMissing(old(Snapshot()), subnet, seen, threshold).hosts;
    }

    // ---- ports ----

    method UpsertPort(host: nat, port: int, proto: string, service: string, banner: string, product: string,
                      version: string)
      returns (isNew: bool)
      modifies this
      ensures scans == old(scans)
      ensures Snapshot() ==
              Tables.UpsertPort(old(Snapshot()), PortKey(host, port, proto), service, banner, product, version)
      ensures isNew <==> PortKey(host, port, proto) in ports && PortKey(host, port, proto) !in old(ports)
    {
      var k := PortKey(host, port, proto);
      if k in ports {
        var p := ports[k].(open := true, service := service);
        if banner != "" { p := p.(banner := banner); }
        if product != "" { p := p.(product := product); }
        if version != "" { p := p.(version := version); }
        ports := ports[k := p];
        return false;
      }
      if !HasHost(hosts, host) {
        return false;
      }
      ports := ports[k := PortRow(true, service, banner, product, version)];
      isNew := true;
    }

    /** Closes the host's open rows whose number was probed and not found open, whatever their protocol. */
    method SweepClosedPorts(host: nat, probed: set<int>, open: set<int>)
      returns (closed: seq<int>, ghost order: seq<PortKey>)
      modifies this
      ensures scans == old(scans) + [host]
      ensures Snapshot() == SweepPorts(old(Snapshot()), host, probed, open)
      ensures Lists(order, set k | k in old(ports) && old(ports)[k].open && !ports[k].open)
      ensures |closed| == |order| && forall i | 0 <= i < |order| :: closed[i] == order[i].port
    {
      scans := scans + [host];
      var toClose := Enumerate(set k | k in ports && Closes(k, ports[k], host, probed, open));
      closed, order := [], toClose;
      ghost var before := ports;
      for i := 0 to |toClose|
        invariant Snapshot() == old(Snapshot()).(ports := ports) && scans == old(scans) + [host]
        invariant ports.Keys == before.Keys
        invariant forall k | k in ports ::
          ports[k] == if k in toClose[..i] then before[k].(open := false) else before[k]
        invariant |closed| == i && forall j | 0 <= j < i :: closed[j] == toClose[j].port
      {
        var k := toClose[i];
        assert toClose[..i + 1] == toClose[..i] + [k];
        assert k in toClose && k in ports;
        ports := ports[k := ports[k].(open := false)];
        closed := closed + [k.port];
      }
      assert toClose[..|toClose|] == toClose;
      assert ports == SweepPorts(old(Snapshot()), host, probed, open).ports;
    }

    // ---- risk rules ----

    method CreateRiskRule(r: Rule) returns (id: nat)
      modifies this
      ensures scans == old(scans)
      ensures Snapshot() == CreateRule(old(Snapshot()), r)
      ensures id == old(nextRule)
    {
      var rule := r;
      if rule.severity == "" {
        rule := rule.(severity := "warning");
      }
      id := nextRule;
      rules := rules[id := rule];
      nextRule := nextRule + 1;
    }

    /** Sets whichever fields are given; with none it does not touch the table. */
    method UpdateRiskRule(id: nat, e: RuleEdit)
      modifies this
      ensures Snapshot() == UpdateRule(old(Snapshot()), id, e)
      ensures scans == old(scans)
    {
      if id !in rules {
        return;
      }
      var r := rules[id];
      if e.port.Some? { r := r.(port := e.port.value); }
      if e.caption.Some? { r := r.(caption := e.caption.value); }
      if e.severity.Some? { r := r.(severity := e.severity.value); }
      if e.service.Some? { r := r.(service := e.service.value); }
      if e.versionBelow.Some? { r := r.(versionBelow := e.versionBelow.value); }
      if e.enabled.Some? { r := r.(enabled := e.enabled.value); }
      assert r == EditRule(rules[id], e);
      if r != rules[id] {
        rules := rules[id := r];
      }
      assert rules == old(rules)[id := r];
    }
  }

  ghost function IdsOf(hosts: map<HostKey, HostRow>, order: seq<HostKey>): seq<nat> {
    seq(|order|, i requires 0 <= i < |order| => if order[i] in hosts then hosts[order[i]].id else 0)
  }

  /** The host table when the sweep has handled the rows in `done`. */
  ghost function SweptSome(hosts: map<HostKey, HostRow>, done: set<HostKey>, threshold: nat): map<HostKey, HostRow> {
    map k | k in hosts :: if k in done then Missed(hosts[k], threshold) else hosts[k]
  }

  lemma SweptOneMore(hosts: map<HostKey, HostRow>, done: set<HostKey>, threshold: nat, k: HostKey)
    requires k in hosts && k !in done
    ensures SweptSome(hosts, done, threshold)[k := Missed(hosts[k], threshold)]
            == SweptSome(hosts, done + {k}, threshold)
  {
  }

  /** An upsert's answer, read off the table: which row holds the key now, and whether it did before. */
  ghost function Reported(before: map<HostKey, HostRow>, after: map<HostKey, HostRow>, k: HostKey): Upsert {
    if k in after then Stored(after[k].id, k !in before) else Failed
  }
}
