/** Restoring risk rules from a system export. Identity is port + service + version threshold; a rule
    already stored under it is overwritten, anything else is created. The lookup table is built once,
    before the first write, so duplicates of a new identity within one document all become rows. */
module RuleImport {
  import opened Options
  import opened Tables
  import opened Listings
  import opened Stores

  datatype RuleKey = RuleKey(port: int, service: string, versionBelow: string)

  function KeyOf(r: Rule): RuleKey {
    RuleKey(r.port, r.service, r.versionBelow)
  }

  /** `ORDER BY port, id`. */
  predicate Before(rules: map<nat, Rule>, a: nat, b: nat)
    requires a in rules && b in rules
  {
    rules[a].port < rules[b].port || (rules[a].port == rules[b].port && a < b)
  }

  ghost predicate Ordered(rules: map<nat, Rule>, ids: seq<nat>) {
    && Lists(ids, rules.Keys)
    && forall i, j | 0 <= i < j < |ids| :: ids[i] in rules && ids[j] in rules && Before(rules, ids[i], ids[j])
  }

  /** The row each identity resolves to: the one listed last, which is the one with the largest id. */
  ghost predicate IsLatest(rules: map<nat, Rule>, byKey: map<RuleKey, nat>) {
    && (forall id | id in rules :: KeyOf(rules[id]) in byKey && id <= byKey[KeyOf(rules[id])])
    && (forall k | k in byKey :: byKey[k] in rules && KeyOf(rules[byKey[k]]) == k)
  }

  datatype RuleImport = RuleImport(db: Db, created: nat, updated: nat)

  /** What an entry sets in the row it meets: never the port or the service. */
  function ImportEdit(r: Rule): RuleEdit {
    RuleEdit(None, Some(r.caption), Some(r.severity), None, Some(r.versionBelow), Some(r.enabled))
  }

  function RuleStep(s: RuleImport, r: Rule, byKey: map<RuleKey, nat>): RuleImport {
    if KeyOf(r) in byKey then
      RuleImport(UpdateRule(s.db, byKey[KeyOf(r)], ImportEdit(r)), s.created, s.updated + 1)
    else
      RuleImport(CreateRule(s.db, r), s.created + 1, s.updated)
  }

  function ImportRules(db: Db, doc: seq<Rule>, byKey: map<RuleKey, nat>): RuleImport {
    if doc == [] then RuleImport(db, 0, 0)
    else RuleStep(ImportRules(db, doc[..|doc| - 1], byKey), doc[|doc| - 1], byKey)
  }

  /** `byKey` resolves the first `n` listed rules, later ones winning. */
  ghost predicate Tabled(rules: map<nat, Rule>, existing: seq<nat>, n: nat, byKey: map<RuleKey, nat>)
    requires n <= |existing| && forall j | 0 <= j < |existing| :: existing[j] in rules
  {
    && (forall j | 0 <= j < n :: KeyOf(rules[existing[j]]) in byKey && existing[j] <= byKey[KeyOf(rules[existing[j]])])
    && (forall k | k in byKey :: byKey[k] in rules && KeyOf(rules[byKey[k]]) == k && byKey[k] in existing[..n])
  }

  lemma TabledOneMore(rules: map<nat, Rule>, existing: seq<nat>, n: nat, byKey: map<RuleKey, nat>)
    requires Ordered(rules, existing) && n < |existing| && forall j | 0 <= j < |existing| :: existing[j] in rules
    requires Tabled(rules, existing, n, byKey)
    ensures Tabled(rules, existing, n + 1, byKey[KeyOf(rules[existing[n]]) := existing[n]])
  {
    var id := existing[n];
    assert existing[..n + 1] == existing[..n] + [id];
    forall j | 0 <= j < n && KeyOf(rules[existing[j]]) == KeyOf(rules[id]) ensures existing[j] <= id {
      assert Before(rules, existing[j], existing[n]);
    }
  }

  lemma TabledIsLatest(rules: map<nat, Rule>, existing: seq<nat>, byKey: map<RuleKey, nat>)
    requires Ordered(rules, existing) && forall j | 0 <= j < |existing| :: existing[j] in rules
    requires Tabled(rules, existing, |existing|, byKey)
    ensures IsLatest(rules, byKey)
  {
    forall id | id in rules ensures KeyOf(rules[id]) in byKey && id <= byKey[KeyOf(rules[id])] {
      assert id in existing;
    }
  }

  lemma ListedRulesStored(rules: map<nat, Rule>, existing: seq<nat>)
    requires Ordered(rules, existing)
    ensures forall j | 0 <= j < |existing| :: existing[j] in rules
  {
    forall j | 0 <= j < |existing| ensures existing[j] in rules { assert existing[j] in existing; }
  }

  // ---- what an import leaves ----

  /** The document's last word on an identity. */
  function LastAt(doc: seq<Rule>, k: RuleKey): Option<Rule> {
    if doc == [] then None
    else if KeyOf(doc[|doc| - 1]) == k then Some(doc[|doc| - 1])
    else LastAt(doc[..|doc| - 1], k)
  }

  lemma {:induction false} LastAtKey(doc: seq<Rule>, k: RuleKey)
    ensures LastAt(doc, k).Some? ==> KeyOf(LastAt(doc, k).value) == k
    ensures (forall r | r in doc :: KeyOf(r) != k) ==> LastAt(doc, k).None?
    ensures LastAt(doc, k).None? ==> forall r | r in doc :: KeyOf(r) != k
  {
    if doc != [] {
      LastAtKey(doc[..|doc| - 1], k);
      assert forall r | r in doc :: r in doc[..|doc| - 1] || r == doc[|doc| - 1];
    }
  }

  function Overwritten(row: Rule, r: Rule): Rule {
    row.(caption := r.caption, severity := r.severity, versionBelow := r.versionBelow, enabled := r.enabled)
  }

  function Born(r: Rule): Rule {
    if r.severity == "" then r.(severity := "warning") else r
  }

  function After(row: Rule, id: nat, doc: seq<Rule>, byKey: map<RuleKey, nat>): Rule {
    var last := LastAt(doc, KeyOf(row));
    if KeyOf(row) in byKey && byKey[KeyOf(row)] == id && last.Some? then Overwritten(row, last.value) else row
  }

  /** Stored rows take the document's last word on their identity. */
  ghost predicate RowsKept(db: Db, db': Db, doc: seq<Rule>, byKey: map<RuleKey, nat>) {
    forall id | id in db.rules :: id in db'.rules && db'.rules[id] == After(db.rules[id], id, doc, byKey)
  }

  /** Every other row came from an entry whose identity was not stored. */
  ghost predicate RowsBorn(db: Db, db': Db, doc: seq<Rule>, byKey: map<RuleKey, nat>) {
    forall id | id in db'.rules && id !in db.rules ::
      db.nextRule <= id < db'.nextRule && KeyOf(db'.rules[id]) !in byKey && LastAt(doc, KeyOf(db'.rules[id])).Some?
  }

  /** The newest row of `k` is `row`. */
  ghost predicate NewestIs(db: Db, k: RuleKey, row: Rule) {
    exists id :: id in db.rules && db.rules[id] == row && IsNewest(db, k, id)
  }

  ghost predicate IsNewest(db: Db, k: RuleKey, id: nat) {
    forall j | j in db.rules && KeyOf(db.rules[j]) == k :: j <= id
  }

  ghost predicate LastBornNewest(db': Db, doc: seq<Rule>, byKey: map<RuleKey, nat>) {
    forall k | k !in byKey && LastAt(doc, k).Some? :: NewestIs(db', k, Born(LastAt(doc, k).value))
  }

  ghost predicate Merged(db: Db, db': Db, doc: seq<Rule>, byKey: map<RuleKey, nat>) {
    && db' == db.(rules := db'.rules, nextRule := db'.nextRule) && db.nextRule <= db'.nextRule
    && RowsKept(db, db', doc, byKey)
    && RowsBorn(db, db', doc, byKey)
    && LastBornNewest(db', doc, byKey)
  }

  ghost predicate RulesSound(db: Db, byKey: map<RuleKey, nat>) {
    && (forall id | id in db.rules :: id < db.nextRule)
    && IsLatest(db.rules, byKey)
  }

  lemma AfterStep(row: Rule, id: nat, doc: seq<Rule>, byKey: map<RuleKey, nat>)
    requires doc != []
    ensures var init, r := doc[..|doc| - 1], doc[|doc| - 1];
            After(row, id, doc, byKey) ==
              if KeyOf(r) == KeyOf(row) && KeyOf(row) in byKey && byKey[KeyOf(row)] == id
              then Overwritten(After(row, id, init, byKey), r) else After(row, id, init, byKey)
    ensures KeyOf(After(row, id, doc, byKey)) == KeyOf(row)
  {
    LastAtKey(doc, KeyOf(row));
  }

  lemma UpdateKeeps(db: Db, d: Db, doc: seq<Rule>, byKey: map<RuleKey, nat>)
    requires doc != [] && RulesSound(db, byKey) && Merged(db, d, doc[..|doc| - 1], byKey)
    requires KeyOf(doc[|doc| - 1]) in byKey
    ensures
      var r := doc[|doc| - 1];
      var target := byKey[KeyOf(r)];
      var d' := UpdateRule(d, target, ImportEdit(r));
      && target in db.rules && KeyOf(db.rules[target]) == KeyOf(r)
      && d' == d.(rules := d.rules[target := Overwritten(d.rules[target], r)])
      && RowsKept(db, d', doc, byKey)
  {
    hide RowsBorn, LastBornNewest;
    var r := doc[|doc| - 1];
    var target := byKey[KeyOf(r)];
    var d' := UpdateRule(d, target, ImportEdit(r));
    assert KeyOf(db.rules[target]) == KeyOf(r);
    forall id | id in db.rules ensures d'.rules[id] == After(db.rules[id], id, doc, byKey) {
      AfterStep(db.rules[id], id, doc, byKey);
    }
  }

  lemma UpdateMerges(db: Db, d: Db, doc: seq<Rule>, byKey: map<RuleKey, nat>)
    requires doc != [] && RulesSound(db, byKey) && Merged(db, d, doc[..|doc| - 1], byKey)
    requires KeyOf(doc[|doc| - 1]) in byKey
    ensures var r := doc[|doc| - 1];
            Merged(db, UpdateRule(d, byKey[KeyOf(r)], ImportEdit(r)), doc, byKey)
  {
    hide RowsKept, IsLatest, IsNewest, UpdateRule;
    var init, r := doc[..|doc| - 1], doc[|doc| - 1];
    var target := byKey[KeyOf(r)];
    UpdateKeeps(db, d, doc, byKey);
    var d' := UpdateRule(d, target, ImportEdit(r));
    TargetKey(db, d, doc, byKey);
    forall k | k !in byKey && LastAt(doc, k).Some? ensures NewestIs(d', k, Born(LastAt(doc, k).value)) {
      assert k != KeyOf(r) && NewestIs(d, k, Born(LastAt(init, k).value));
      var row := Born(LastAt(init, k).value);
      LastAtKey(init, k);
      var id :| id in d.rules && d.rules[id] == row && IsNewest(d, k, id);
      assert id != target;
      SameKeysNewest(d, d', k, id);
      assert d'.rules[id] == row;
    }
  }

  lemma TargetKey(db: Db, d: Db, doc: seq<Rule>, byKey: map<RuleKey, nat>)
    requires doc != [] && RulesSound(db, byKey) && Merged(db, d, doc[..|doc| - 1], byKey)
    requires KeyOf(doc[|doc| - 1]) in byKey
    ensures var r := doc[|doc| - 1];
            var target := byKey[KeyOf(r)];
            target in d.rules && KeyOf(d.rules[target]) == KeyOf(r)
  {
    var r := doc[|doc| - 1];
    var target := byKey[KeyOf(r)];
    LastAtKey(doc[..|doc| - 1], KeyOf(db.rules[target]));
  }

  lemma SameKeysNewest(d: Db, d': Db, k: RuleKey, id: nat)
    requires IsNewest(d, k, id) && d'.rules.Keys == d.rules.Keys
    requires forall j | j in d.rules :: KeyOf(d'.rules[j]) == KeyOf(d.rules[j])
    ensures IsNewest(d', k, id)
  {
  }

  lemma CreateNewest(d: Db, doc: seq<Rule>, byKey: map<RuleKey, nat>)
    requires doc != [] && LastBornNewest(d, doc[..|doc| - 1], byKey)
    requires forall id | id in d.rules :: id < d.nextRule
    ensures LastBornNewest(CreateRule(d, doc[|doc| - 1]), doc, byKey)
  {
    hide IsNewest;
    var init, r := doc[..|doc| - 1], doc[|doc| - 1];
    var d' := CreateRule(d, r);
    var next := d.nextRule;
    forall k | k !in byKey && LastAt(doc, k).Some? ensures NewestIs(d', k, Born(LastAt(doc, k).value)) {
      if k == KeyOf(r) {
        AddedNewest(d, d', k, next, Born(r), next);
        assert d'.rules[next] == Born(r);
      } else {
        var row := Born(LastAt(init, k).value);
        assert NewestIs(d, k, row);
        var id :| id in d.rules && d.rules[id] == row && IsNewest(d, k, id);
        AddedNewest(d, d', k, next, Born(r), id);
        assert d'.rules[id] == row;
      }
    }
  }

  lemma CreateMerges(db: Db, d: Db, doc: seq<Rule>, byKey: map<RuleKey, nat>)
    requires doc != [] && RulesSound(db, byKey) && Merged(db, d, doc[..|doc| - 1], byKey)
    requires forall id | id in d.rules :: id < d.nextRule
    requires KeyOf(doc[|doc| - 1]) !in byKey
    ensures Merged(db, CreateRule(d, doc[|doc| - 1]), doc, byKey)
  {
    hide LastBornNewest, IsLatest;
    CreateNewest(d, doc, byKey);
    forall id | id in db.rules ensures CreateRule(d, doc[|doc| - 1]).rules[id] == After(db.rules[id], id, doc, byKey) {
      AfterStep(db.rules[id], id, doc, byKey);
    }
  }

  lemma AddedNewest(d: Db, d': Db, k: RuleKey, next: nat, row: Rule, id: nat)
    requires d'.rules == d.rules[next := row] && forall j | j in d.rules :: j < next
    requires if KeyOf(row) == k then id == next else IsNewest(d, k, id)
    ensures IsNewest(d', k, id)
  {
  }

  /** The entries whose identity is not stored, in document order. */
  function Fresh(doc: seq<Rule>, byKey: map<RuleKey, nat>): seq<Rule> {
    if doc == [] then []
    else if KeyOf(doc[|doc| - 1]) in byKey then Fresh(doc[..|doc| - 1], byKey)
    else Fresh(doc[..|doc| - 1], byKey) + [doc[|doc| - 1]]
  }

  /** Every fresh entry has a row of its own, in document order, and there are no other new rows. */
  ghost predicate OwnRows(db: Db, s: RuleImport, doc: seq<Rule>, byKey: map<RuleKey, nat>) {
    var added := Fresh(doc, byKey);
    && s.created == |added| && s.created + s.updated == |doc|
    && s.db.nextRule == db.nextRule + |added| && |s.db.rules| == |db.rules| + |added|
    && (forall id :: id in s.db.rules <==> id in db.rules || db.nextRule <= id < s.db.nextRule)
    && (forall j | 0 <= j < |added| :: s.db.rules[db.nextRule + j] == Born(added[j]))
  }

  lemma UpdateOwns(db: Db, s: RuleImport, doc: seq<Rule>, byKey: map<RuleKey, nat>)
    requires doc != [] && OwnRows(db, s, doc[..|doc| - 1], byKey) && KeyOf(doc[|doc| - 1]) in byKey
    requires byKey[KeyOf(doc[|doc| - 1])] in db.rules && byKey[KeyOf(doc[|doc| - 1])] < db.nextRule
    ensures OwnRows(db, RuleStep(s, doc[|doc| - 1], byKey), doc, byKey)
  {
    hide EditRule, Born, ImportEdit;
  }

  lemma CreateOwns(db: Db, s: RuleImport, doc: seq<Rule>, byKey: map<RuleKey, nat>)
    requires doc != [] && OwnRows(db, s, doc[..|doc| - 1], byKey) && KeyOf(doc[|doc| - 1]) !in byKey
    requires forall id | id in db.rules :: id < db.nextRule
    ensures OwnRows(db, RuleStep(s, doc[|doc| - 1], byKey), doc, byKey)
  {
    hide UpdateRule, ImportEdit;
    var k := s.db.nextRule;
    assert k !in s.db.rules && RuleStep(s, doc[|doc| - 1], byKey).db.rules == s.db.rules[k := Born(doc[|doc| - 1])];
    hide CreateRule, Born;
  }

  lemma TargetStored(db: Db, byKey: map<RuleKey, nat>, k: RuleKey)
    requires RulesSound(db, byKey) && k in byKey
    ensures byKey[k] in db.rules && byKey[k] < db.nextRule
  {
  }

  lemma {:induction false} EachFreshEntryIsARow(db: Db, doc: seq<Rule>, byKey: map<RuleKey, nat>)
    requires RulesSound(db, byKey)
    ensures OwnRows(db, ImportRules(db, doc, byKey), doc, byKey)
  {
    if doc != [] {
      hide OwnRows, RuleStep, IsLatest, Fresh;
      var init, r := doc[..|doc| - 1], doc[|doc| - 1];
      EachFreshEntryIsARow(db, init, byKey);
      var s := ImportRules(db, init, byKey);
      if KeyOf(r) in byKey {
        TargetStored(db, byKey, KeyOf(r));
        UpdateOwns(db, s, doc, byKey);
      } else {
        CreateOwns(db, s, doc, byKey);
      }
    }
  }

  /** Main: an import overwrites each stored row with the document's last word on its identity, turns each
      entry of a new identity into a row of its own, duplicates included, and counts both. */
  lemma {:induction false} ImportMerges(db: Db, doc: seq<Rule>, byKey: map<RuleKey, nat>)
    requires RulesSound(db, byKey)
    ensures Merged(db, ImportRules(db, doc, byKey).db, doc, byKey)
    ensures forall id | id in ImportRules(db, doc, byKey).db.rules :: id < ImportRules(db, doc, byKey).db.nextRule
    ensures OwnRows(db, ImportRules(db, doc, byKey), doc, byKey)
  {
    hide Merged, IsLatest, OwnRows;
    EachFreshEntryIsARow(db, doc, byKey);
    if doc == [] {
      NothingMerged(db, byKey);
    } else {
      var init, r := doc[..|doc| - 1], doc[|doc| - 1];
      ImportMerges(db, init, byKey);
      var d := ImportRules(db, init, byKey).db;
      if KeyOf(r) in byKey {
        UpdateMerges(db, d, doc, byKey);
      } else {
        CreateMerges(db, d, doc, byKey);
      }
    }
  }

  lemma NothingMerged(db: Db, byKey: map<RuleKey, nat>)
    requires RulesSound(db, byKey)
    ensures Merged(db, db, [], byKey)
  {
  }

  // ---- the same, in the fields' own terms ----

  ghost predicate SameIdentity(a: Rule, b: Rule) {
    a.port == b.port && a.service == b.service && a.versionBelow == b.versionBelow
  }

  ghost predicate IsStored(rules: map<nat, Rule>, r: Rule) {
    exists id | id in rules :: SameIdentity(rules[id], r)
  }

  /** The entries that are about a stored rule, and the others. */
  ghost function Known(rules: map<nat, Rule>, doc: seq<Rule>): set<nat> {
    set i: nat | i < |doc| && IsStored(rules, doc[i])
  }

  ghost function Unknown(rules: map<nat, Rule>, doc: seq<Rule>): set<nat> {
    set i: nat | i < |doc| && !IsStored(rules, doc[i])
  }

  /** The last of the entries about a stored rule, and only if no newer rule is the same. */
  ghost predicate Speaks(rules: map<nat, Rule>, doc: seq<Rule>, id: nat, i: nat)
    requires id in rules && i < |doc|
  {
    && SameIdentity(rules[id], doc[i])
    && (forall j | i < j < |doc| :: !SameIdentity(rules[id], doc[j]))
    && (forall other | other in rules && SameIdentity(rules[other], doc[i]) :: other <= id)
  }

  /** Every stored rule is still there and only entries about it change it, the last one the newest such rule. */
  ghost predicate StoredRules(rules: map<nat, Rule>, rules': map<nat, Rule>, doc: seq<Rule>) {
    && (forall id | id in rules ::
          && id in rules' && SameIdentity(rules'[id], rules[id])
          && ((forall i | 0 <= i < |doc| :: !SameIdentity(rules[id], doc[i])) ==> rules'[id] == rules[id]))
    && (forall id, i | id in rules && 0 <= i < |doc| && Speaks(rules, doc, id, i) ::
          id in rules' && rules'[id] ==
            rules[id].(caption := doc[i].caption, severity := doc[i].severity, enabled := doc[i].enabled))
  }

  /** The row of an entry that is about no stored rule, the id telling how many such entries came before. */
  ghost predicate OwnRow(rules: map<nat, Rule>, rules': map<nat, Rule>, next: nat, doc: seq<Rule>, i: nat) {
    && i < |doc|
    && var id := next + |Unknown(rules, doc[..i])|;
      && id in rules' && id !in rules
      && rules'[id] == doc[i].(severity := if doc[i].severity == "" then "warning" else doc[i].severity)
  }

  /** Every other entry is a row of its own, in document order, and there are no more. */
  ghost predicate NewRules(rules: map<nat, Rule>, rules': map<nat, Rule>, next: nat, doc: seq<Rule>) {
    && (forall i | i in Unknown(rules, doc) :: OwnRow(rules, rules', next, doc, i))
    && (forall id | id in rules' && id !in rules :: next <= id < next + |Unknown(rules, doc)|)
  }

  /** Entries about a stored rule are counted as updates, the others as creations. */
  ghost predicate Restored(db: Db, db': Db, doc: seq<Rule>, created: nat, updated: nat) {
    && updated == |Known(db.rules, doc)| && created == |Unknown(db.rules, doc)| && created + updated == |doc|
    && StoredRules(db.rules, db'.rules, doc) && NewRules(db.rules, db'.rules, db.nextRule, doc)
  }

  lemma KeyedIffStored(rules: map<nat, Rule>, byKey: map<RuleKey, nat>, r: Rule)
    requires IsLatest(rules, byKey)
    ensures KeyOf(r) in byKey <==> IsStored(rules, r)
  {
    if KeyOf(r) in byKey {
      assert byKey[KeyOf(r)] in rules && SameIdentity(rules[byKey[KeyOf(r)]], r);
    }
    if id :| id in rules && SameIdentity(rules[id], r) {
      assert KeyOf(rules[id]) == KeyOf(r);
    }
  }

  lemma OneMoreEntry(rules: map<nat, Rule>, init: seq<Rule>, r: Rule)
    ensures Known(rules, init + [r]) == Known(rules, init) + if IsStored(rules, r) then {|init|} else {}
    ensures Unknown(rules, init + [r]) == Unknown(rules, init) + if IsStored(rules, r) then {} else {|init|}
    ensures |init| !in Known(rules, init) && |init| !in Unknown(rules, init)
  {
    hide IsStored;
  }

  lemma {:induction false} EntryCount(rules: map<nat, Rule>, doc: seq<Rule>)
    ensures |Unknown(rules, doc)| + |Known(rules, doc)| == |doc|
  {
    if doc == [] {
      assert Unknown(rules, doc) == {} && Known(rules, doc) == {};
    } else {
      hide Known, Unknown, IsStored;
      var init, r := doc[..|doc| - 1], doc[|doc| - 1];
      assert doc == init + [r];
      EntryCount(rules, init);
      OneMoreEntry(rules, init, r);
    }
  }

  lemma {:induction false} FreshCount(rules: map<nat, Rule>, doc: seq<Rule>, byKey: map<RuleKey, nat>)
    requires IsLatest(rules, byKey)
    ensures |Fresh(doc, byKey)| == |Unknown(rules, doc)|
  {
    if doc == [] {
      assert Unknown(rules, doc) == {};
    } else {
      hide Known, Unknown, IsStored, IsLatest;
      var init, r := doc[..|doc| - 1], doc[|doc| - 1];
      assert doc == init + [r];
      FreshCount(rules, init, byKey);
      KeyedIffStored(rules, byKey, r);
      OneMoreEntry(rules, init, r);
    }
  }

  lemma {:induction false} FreshPlace(doc: seq<Rule>, byKey: map<RuleKey, nat>, i: nat)
    requires i < |doc| && KeyOf(doc[i]) !in byKey
    ensures |Fresh(doc[..i], byKey)| < |Fresh(doc, byKey)| && Fresh(doc, byKey)[|Fresh(doc[..i], byKey)|] == doc[i]
  {
    var init := doc[..|doc| - 1];
    if i < |doc| - 1 {
      FreshPlace(init, byKey, i);
      assert init[..i] == doc[..i];
    }
  }

  lemma UnknownRestored(db: Db, doc: seq<Rule>, byKey: map<RuleKey, nat>, s: RuleImport, i: nat)
    requires RulesSound(db, byKey) && OwnRows(db, s, doc, byKey) && i in Unknown(db.rules, doc)
    ensures OwnRow(db.rules, s.db.rules, db.nextRule, doc, i)
  {
    KeyedIffStored(db.rules, byKey, doc[i]);
    FreshCount(db.rules, doc[..i], byKey);
    hide IsLatest, IsStored, KeyOf;
    FreshPlace(doc, byKey, i);
  }

  lemma StoredRestored(db: Db, db': Db, doc: seq<Rule>, byKey: map<RuleKey, nat>, id: nat)
    requires IsLatest(db.rules, byKey) && RowsKept(db, db', doc, byKey) && id in db.rules
    ensures id in db'.rules && SameIdentity(db'.rules[id], db.rules[id])
    ensures (forall i | 0 <= i < |doc| :: !SameIdentity(db.rules[id], doc[i])) ==> db'.rules[id] == db.rules[id]
  {
    LastAtKey(doc, KeyOf(db.rules[id]));
    if LastAt(doc, KeyOf(db.rules[id])).Some? {
      LastInDoc(doc, KeyOf(db.rules[id]));
    }
  }

  lemma {:induction false} LastIs(doc: seq<Rule>, k: RuleKey, i: nat)
    requires i < |doc| && KeyOf(doc[i]) == k && forall j | i < j < |doc| :: KeyOf(doc[j]) != k
    ensures LastAt(doc, k) == Some(doc[i])
  {
    if i < |doc| - 1 {
      LastIs(doc[..|doc| - 1], k, i);
    }
  }

  lemma SpeakerRestored(db: Db, db': Db, doc: seq<Rule>, byKey: map<RuleKey, nat>, id: nat, i: nat)
    requires IsLatest(db.rules, byKey) && RowsKept(db, db', doc, byKey)
    requires id in db.rules && i < |doc| && Speaks(db.rules, doc, id, i)
    ensures id in db'.rules && db'.rules[id] ==
              db.rules[id].(caption := doc[i].caption, severity := doc[i].severity, enabled := doc[i].enabled)
  {
    var k := KeyOf(db.rules[id]);
    assert KeyOf(doc[i]) == k;
    LastIs(doc, k, i);
    assert byKey[k] == id;
    hide LastAt;
  }

  lemma StoredAll(db: Db, db': Db, doc: seq<Rule>, byKey: map<RuleKey, nat>)
    requires IsLatest(db.rules, byKey) && RowsKept(db, db', doc, byKey)
    ensures StoredRules(db.rules, db'.rules, doc)
  {
    hide IsLatest, SameIdentity, RowsKept;
    forall id | id in db.rules
      ensures id in db'.rules && SameIdentity(db'.rules[id], db.rules[id])
      ensures (forall i | 0 <= i < |doc| :: !SameIdentity(db.rules[id], doc[i])) ==> db'.rules[id] == db.rules[id]
    {
      StoredRestored(db, db', doc, byKey, id);
    }
    hide Speaks;
    forall id, i | id in db.rules && 0 <= i < |doc| && Speaks(db.rules, doc, id, i)
      ensures id in db'.rules && db'.rules[id] ==
                db.rules[id].(caption := doc[i].caption, severity := doc[i].severity, enabled := doc[i].enabled)
    {
      SpeakerRestored(db, db', doc, byKey, id, i);
    }
  }

  lemma NewAll(db: Db, doc: seq<Rule>, byKey: map<RuleKey, nat>, s: RuleImport)
    requires RulesSound(db, byKey) && OwnRows(db, s, doc, byKey)
    ensures NewRules(db.rules, s.db.rules, db.nextRule, doc)
  {
    FreshCount(db.rules, doc, byKey);
    assert forall id | id in s.db.rules && id !in db.rules :: db.nextRule <= id < db.nextRule + |Fresh(doc, byKey)|;
    hide OwnRows, RulesSound, Unknown, Fresh, OwnRow;
    forall i | i in Unknown(db.rules, doc) ensures OwnRow(db.rules, s.db.rules, db.nextRule, doc, i) {
      UnknownRestored(db, doc, byKey, s, i);
    }
  }

  lemma CountsOutright(db: Db, doc: seq<Rule>, byKey: map<RuleKey, nat>, s: RuleImport)
    requires IsLatest(db.rules, byKey) && OwnRows(db, s, doc, byKey)
    ensures s.created == |Unknown(db.rules, doc)| && s.updated == |Known(db.rules, doc)|
    ensures s.created + s.updated == |doc|
  {
    hide Known, Unknown, Fresh, IsLatest, Born;
    FreshCount(db.rules, doc, byKey);
    EntryCount(db.rules, doc);
  }

  lemma RestoredOutright(db: Db, doc: seq<Rule>, byKey: map<RuleKey, nat>)
    requires RulesSound(db, byKey)
    ensures var s := ImportRules(db, doc, byKey); Restored(db, s.db, doc, s.created, s.updated)
  {
    hide RowsKept, ImportRules, IsLatest, Fresh, LastBornNewest, RowsBorn, StoredRules, NewRules, Known, Unknown;
    var s := ImportRules(db, doc, byKey);
    ImportMerges(db, doc, byKey);
    StoredAll(db, s.db, doc, byKey);
    NewAll(db, doc, byKey, s);
    CountsOutright(db, doc, byKey, s);
    hide OwnRows, Merged;
  }

  /** Main: the import itself. `existing` is the SELECT's answer, `ORDER BY port, id`; what the two counters and
      every row come out as is said of ports, services and thresholds directly. */
  method RunImportRules(st: Store, existing: seq<nat>, doc: seq<Rule>)
    returns (created: nat, updated: nat, ghost table: map<RuleKey, nat>)
    requires Ordered(st.rules, existing)
    modifies st
    ensures IsLatest(old(st.rules), table)
    ensures RuleImport(st.Snapshot(), created, updated) == ImportRules(old(st.Snapshot()), doc, table)
    ensures (forall id | id in old(st.rules) :: id < old(st.nextRule)) ==>
              Restored(old(st.Snapshot()), st.Snapshot(), doc, created, updated)
  {
    hide IsLatest, Ordered, UpdateRule, CreateRule, Restored;
    ListedRulesStored(st.rules, existing);
    ghost var start := st.Snapshot();
    var byKey: map<RuleKey, nat> := map[];
    for i := 0 to |existing|
      invariant st.Snapshot() == start && st.rules == start.rules
      invariant Tabled(st.rules, existing, i, byKey)
    {
      TabledOneMore(st.rules, existing, i, byKey);
      byKey := byKey[KeyOf(st.rules[existing[i]]) := existing[i]];
    }
    TabledIsLatest(st.rules, existing, byKey);
    hide Tabled;
    table := byKey;
    created, updated := 0, 0;
    for i := 0 to |doc|
      invariant RuleImport(st.Snapshot(), created, updated) == ImportRules(start, doc[..i], byKey)
    {
      assert doc[..i + 1][..i] == doc[..i];
      var r := doc[i];
      if KeyOf(r) in byKey {
        st.UpdateRiskRule(byKey[KeyOf(r)], ImportEdit(r));
        updated := updated + 1;
        continue;
      }
      var _ := st.CreateRiskRule(r);
      created := created + 1;
    }
    assert doc[..|doc|] == doc;
    if forall id | id in start.rules :: id < start.nextRule {
      RestoredOutright(start, doc, byKey);
    }
  }

  // ---- importing twice ----

  /** No identity that is new to the store has an empty severity as the document's last word on it. */
  predicate Settled(doc: seq<Rule>, byKey: map<RuleKey, nat>) {
    forall r | r in doc :: KeyOf(r) !in byKey && LastAt(doc, KeyOf(r)) == Some(r) ==> r.severity != ""
  }

  lemma KeptKeys(db: Db, db': Db, doc: seq<Rule>, byKey: map<RuleKey, nat>, id: nat)
    requires RowsKept(db, db', doc, byKey) && id in db.rules
    ensures id in db'.rules && KeyOf(db'.rules[id]) == KeyOf(db.rules[id])
  {
    LastAtKey(doc, KeyOf(db.rules[id]));
  }

  lemma OldKeyLatest(db: Db, db': Db, doc: seq<Rule>, byKey: map<RuleKey, nat>, byKey': map<RuleKey, nat>, k: RuleKey)
    requires RulesSound(db, byKey) && Merged(db, db', doc, byKey) && RulesSound(db', byKey')
    requires k in byKey
    ensures k in byKey' && byKey'[k] == byKey[k]
  {
    hide RowsKept, LastBornNewest, LastAt;
    var id := byKey[k];
    assert id in db.rules && KeyOf(db.rules[id]) == k;
    KeptKeys(db, db', doc, byKey, id);
    var id' := byKey'[k];
    assert id <= id' && KeyOf(db'.rules[id']) == k;
    assert id' in db.rules;
    KeptKeys(db, db', doc, byKey, id');
  }

  lemma NewKeyLatest(db: Db, db': Db, doc: seq<Rule>, byKey: map<RuleKey, nat>, byKey': map<RuleKey, nat>, k: RuleKey)
    requires LastBornNewest(db', doc, byKey) && IsLatest(db'.rules, byKey')
    requires k !in byKey && LastAt(doc, k).Some?
    ensures k in byKey' && byKey'[k] in db'.rules && db'.rules[byKey'[k]] == Born(LastAt(doc, k).value)
  {
    LastAtKey(doc, k);
    var row := Born(LastAt(doc, k).value);
    assert NewestIs(db', k, row);
    var id :| id in db'.rules && db'.rules[id] == row && IsNewest(db', k, id);
    assert KeyOf(db'.rules[id]) == k;
    assert KeyOf(db'.rules[byKey'[k]]) == k;
  }

  lemma DocKeysStored(db: Db, db': Db, doc: seq<Rule>, byKey: map<RuleKey, nat>, byKey': map<RuleKey, nat>)
    requires RulesSound(db, byKey) && Merged(db, db', doc, byKey) && RulesSound(db', byKey')
    ensures forall r | r in doc :: KeyOf(r) in byKey'
  {
    hide RulesSound, LastAt;
    forall r | r in doc ensures KeyOf(r) in byKey' {
      LastAtKey(doc, KeyOf(r));
      if KeyOf(r) in byKey {
        OldKeyLatest(db, db', doc, byKey, byKey', KeyOf(r));
      } else {
        assert IsLatest(db'.rules, byKey') by { SoundLatest(db', byKey'); }
        NewKeyLatest(db, db', doc, byKey, byKey', KeyOf(r));
      }
    }
  }

  lemma SoundLatest(db: Db, byKey: map<RuleKey, nat>)
    requires RulesSound(db, byKey)
    ensures IsLatest(db.rules, byKey)
  {
  }

  /** Main: a second import never creates a rule, and it leaves the rules as they are iff no identity
      new to the store ends in an empty severity, which creation turned into "warning" and the update does not. */
  lemma RulesTwiceIsOnce(db: Db, doc: seq<Rule>, byKey: map<RuleKey, nat>, byKey': map<RuleKey, nat>)
    requires RulesSound(db, byKey)
    requires IsLatest(ImportRules(db, doc, byKey).db.rules, byKey')
    ensures var once := ImportRules(db, doc, byKey);
            var twice := ImportRules(once.db, doc, byKey');
            twice.created == 0 && (twice.db == once.db <==> Settled(doc, byKey))
  {
    hide ImportRules, IsLatest, RowsKept, RowsBorn, LastBornNewest, Settled;
    var once := ImportRules(db, doc, byKey).db;
    ImportMerges(db, doc, byKey);
    DocKeysStored(db, once, doc, byKey, byKey');
    ImportMerges(once, doc, byKey');
    NothingCreated(once, doc, byKey');
    var twice := ImportRules(once, doc, byKey').db;
    if Settled(doc, byKey) {
      SettledUnchanged(db, once, twice, doc, byKey, byKey');
    } else {
      UnsettledChanged(db, once, twice, doc, byKey, byKey');
    }
  }

  lemma {:induction false} NothingCreated(db: Db, doc: seq<Rule>, byKey: map<RuleKey, nat>)
    requires forall r | r in doc :: KeyOf(r) in byKey
    ensures ImportRules(db, doc, byKey).created == 0
    ensures ImportRules(db, doc, byKey).db == db.(rules := ImportRules(db, doc, byKey).db.rules)
  {
    if doc != [] {
      NothingCreated(db, doc[..|doc| - 1], byKey);
      assert doc[|doc| - 1] in doc;
    }
  }

  /** A document whose second import changes the rule its first one made. */
  lemma RulesTwiceCanDiffer()
    ensures var r := Rule(22, "", "", "x", true, "");
            var byKey := map[KeyOf(r) := Empty.nextRule];
            var once := ImportRules(Empty, [r], map[]).db;
            && RulesSound(Empty, map[]) && IsLatest(once.rules, byKey) && !Settled([r], map[])
            && once.rules == map[1 := r.(severity := "warning")]
            && ImportRules(once, [r], byKey).db.rules == map[1 := r]
  {
  }

  lemma SettledRow(db: Db, once: Db, doc: seq<Rule>, byKey: map<RuleKey, nat>, byKey': map<RuleKey, nat>, id: nat)
    requires RulesSound(db, byKey) && Merged(db, once, doc, byKey) && RulesSound(once, byKey')
    requires Settled(doc, byKey) && id in once.rules
    ensures After(once.rules[id], id, doc, byKey') == once.rules[id]
  {
    hide RowsBorn, LastBornNewest, RowsKept, LastAt, Settled;
    var k := KeyOf(once.rules[id]);
    LastAtKey(doc, k);
    if LastAt(doc, k).Some? && k in byKey' && byKey'[k] == id {
      LastInDoc(doc, k);
      var last := LastAt(doc, k).value;
      if k in byKey {
        OldKeyLatest(db, once, doc, byKey, byKey', k);
        assert id in db.rules;
        KeptRow(db, once, doc, byKey, id);
      } else {
        NewKeyLatest(db, once, doc, byKey, byKey', k);
        assert once.rules[id] == Born(last);
        assert last.severity != "" by { SettledAt(doc, byKey, last); }
      }
    }
  }

  lemma SettledAt(doc: seq<Rule>, byKey: map<RuleKey, nat>, r: Rule)
    requires Settled(doc, byKey) && r in doc && KeyOf(r) !in byKey && LastAt(doc, KeyOf(r)) == Some(r)
    ensures r.severity != ""
  {
  }

  lemma KeptRow(db: Db, once: Db, doc: seq<Rule>, byKey: map<RuleKey, nat>, id: nat)
    requires RowsKept(db, once, doc, byKey) && id in db.rules
    ensures id in once.rules && once.rules[id] == After(db.rules[id], id, doc, byKey)
    ensures KeyOf(once.rules[id]) == KeyOf(db.rules[id])
  {
    LastAtKey(doc, KeyOf(db.rules[id]));
  }

  lemma SettledUnchanged(db: Db, once: Db, twice: Db, doc: seq<Rule>, byKey: map<RuleKey, nat>,
                         byKey': map<RuleKey, nat>)
    requires RulesSound(db, byKey) && Merged(db, once, doc, byKey)
    requires RulesSound(once, byKey') && Merged(once, twice, doc, byKey')
    requires forall r | r in doc :: KeyOf(r) in byKey'
    requires Settled(doc, byKey)
    ensures twice.rules == once.rules
  {
    hide RulesSound, After, LastAt, LastBornNewest, Settled;
    forall id | id in twice.rules ensures id in once.rules {
      if id !in once.rules {
        LastAtKey(doc, KeyOf(twice.rules[id]));
      }
    }
    forall id | id in once.rules ensures twice.rules[id] == once.rules[id] {
      SettledRow(db, once, doc, byKey, byKey', id);
    }
  }

  lemma UnsettledChanged(db: Db, once: Db, twice: Db, doc: seq<Rule>, byKey: map<RuleKey, nat>,
                         byKey': map<RuleKey, nat>)
    requires RulesSound(db, byKey) && Merged(db, once, doc, byKey)
    requires RulesSound(once, byKey') && Merged(once, twice, doc, byKey')
    requires !Settled(doc, byKey)
    ensures twice.rules != once.rules
  {
    hide RowsBorn, RowsKept, LastBornNewest, LastAt;
    var r :| r in doc && KeyOf(r) !in byKey && LastAt(doc, KeyOf(r)) == Some(r) && r.severity == "";
    NewKeyLatest(db, once, doc, byKey, byKey', KeyOf(r));
    var id := byKey'[KeyOf(r)];
    KeptRow(once, twice, doc, byKey', id);
    assert once.rules[id].severity == "warning" && KeyOf(once.rules[id]) == KeyOf(r);
    assert twice.rules[id].severity == "";
  }

  lemma {:induction false} LastInDoc(doc: seq<Rule>, k: RuleKey)
    requires LastAt(doc, k).Some?
    ensures LastAt(doc, k).value in doc
  {
    if KeyOf(doc[|doc| - 1]) != k {
      LastInDoc(doc[..|doc| - 1], k);
    }
  }

  /** Main: from the second import on, the rules are a fixed point whatever the document holds. */
  lemma RulesSettleBySecondImport(
    db: Db, doc: seq<Rule>, byKey: map<RuleKey, nat>, byKey': map<RuleKey, nat>, byKey'': map<RuleKey, nat>)
    requires RulesSound(db, byKey)
    requires IsLatest(ImportRules(db, doc, byKey).db.rules, byKey')
    requires IsLatest(ImportRules(ImportRules(db, doc, byKey).db, doc, byKey').db.rules, byKey'')
    ensures var twice := ImportRules(ImportRules(db, doc, byKey).db, doc, byKey').db;
            ImportRules(twice, doc, byKey'').db == twice
  {
    hide ImportRules, IsLatest, Merged, Settled;
    var once := ImportRules(db, doc, byKey).db;
    ImportMerges(db, doc, byKey);
    DocKeysStored(db, once, doc, byKey, byKey');
    AllStoredSettled(doc, byKey');
    RulesTwiceIsOnce(once, doc, byKey', byKey'');
  }

  lemma AllStoredSettled(doc: seq<Rule>, byKey: map<RuleKey, nat>)
    requires forall r | r in doc :: KeyOf(r) in byKey
    ensures Settled(doc, byKey)
  {
  }
}
