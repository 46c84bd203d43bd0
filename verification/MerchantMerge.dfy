/**
 Merging one merchant into another inside a workspace: every table that can name the source is
 redirected, stored rules are rewritten, and the source row goes away.  Alias resolution before and
 after is compared key by key.
 */
module MerchantMerge {
  import opened Outcomes
  import opened BoundedText
  import opened JsonText
  import opened RuleLanguage
  import opened RuleEvaluation
  import opened MerchantRewrite
  import U = UserState
  import M = ContinuityModel

  datatype Merchant = Merchant(normalizedKey: Text, cnpj: Option<Text>)

  datatype MatchType = Exact | Prefix | Containing | Pattern

  datatype Alias = Alias(merchantId: Text, matchType: MatchType, byUser: bool, active: bool, confirmed: bool)

  datatype DecisionSource = ByRule | ByMerchant | ByHeuristic | ByProvider | ByModel | ByUser

  datatype Decision = Decision(
    transaction: nat, source: DecisionSource, reference: Text, fingerprint: Text, merchantId: Option<Text>)

  datatype AuditEntry = AuditEntry(actorId: string, targetId: Text, sourceId: Text)

  /** The tables of one workspace that the merge reads or writes; aliases are unique per key. */
  datatype Tables = Tables(
    merchants: map<Text, Merchant>,
    aliases: map<Text, Alias>,
    transactions: map<nat, Option<Text>>,
    states: map<nat, U.State>,
    decisions: map<nat, Decision>,
    installments: map<nat, Option<Text>>,
    recurring: map<nat, Option<Text>>,
    rules: seq<Rule>,
    audit: seq<AuditEntry>)

  datatype MergeError =
    | BadActor | SameMerchant | MerchantNotFound | KeyOwnedByOther | DecisionsCollide | RuleRefused

  /** Unique indexes on merchant keys and tax numbers. */
  ghost predicate UniqueMerchants(merchants: map<Text, Merchant>) {
    && (forall a, b ::
          a in merchants && b in merchants && merchants[a].normalizedKey == merchants[b].normalizedKey ==> a == b)
    && (forall a, b :: a in merchants && b in merchants && a != b && merchants[a].cnpj.Some? ==>
          merchants[a].cnpj != merchants[b].cnpj)
  }

  ghost predicate ColumnRefers(column: map<nat, Option<Text>>, merchants: set<Text>) {
    forall k :: k in column && column[k].Some? ==> column[k].value in merchants
  }

  ghost predicate StatesRefer(states: map<nat, U.State>, merchants: set<Text>) {
    forall k :: k in states && states[k].merchant.value.Some? ==> states[k].merchant.value.value in merchants
  }

  ghost predicate DecisionsRefer(decisions: map<nat, Decision>, merchants: set<Text>) {
    forall k :: k in decisions && decisions[k].merchantId.Some? ==> decisions[k].merchantId.value in merchants
  }

  ghost predicate AliasesRefer(aliases: map<Text, Alias>, merchants: set<Text>) {
    forall k :: k in aliases ==> aliases[k].merchantId in merchants
  }

  /** The columns of the unique key on decisions. */
  predicate SameEvaluation(a: Decision, b: Decision) {
    && a.transaction == b.transaction && a.source == b.source
    && a.reference == b.reference && a.fingerprint == b.fingerprint
  }

  predicate UniqueDecisions(decisions: map<nat, Decision>) {
    forall a, b :: a in decisions && b in decisions && SameEvaluation(decisions[a], decisions[b]) ==> a == b
  }

  /** The unique indexes, and every foreign key that points to a merchant. */
  ghost predicate Referential(t: Tables) {
    && UniqueMerchants(t.merchants) && UniqueDecisions(t.decisions)
    && AliasesRefer(t.aliases, t.merchants.Keys)
    && ColumnRefers(t.transactions, t.merchants.Keys)
    && StatesRefer(t.states, t.merchants.Keys)
    && DecisionsRefer(t.decisions, t.merchants.Keys)
    && ColumnRefers(t.installments, t.merchants.Keys)
    && ColumnRefers(t.recurring, t.merchants.Keys)
  }

  ghost predicate UuidKeys(formats: Formats, t: Tables) {
    forall id :: id in t.merchants ==> IsUuid(formats, id)
  }

  // ---- the redirections ----

  function Renamed(id: Text, source: Text, target: Text): Text {
    if id == source then target else id
  }

  function RenamedOption(id: Option<Text>, source: Text, target: Text): Option<Text> {
    if id == Some(source) then Some(target) else id
  }

  function RedirectColumn(column: map<nat, Option<Text>>, source: Text, target: Text): map<nat, Option<Text>> {
    map k | k in column :: RenamedOption(column[k], source, target)
  }

  function RedirectDecisions(decisions: map<nat, Decision>, source: Text, target: Text): map<nat, Decision> {
    map k | k in decisions ::
      decisions[k].(merchantId := RenamedOption(decisions[k].merchantId, source, target),
                    reference := RedirectReference(decisions[k], source, target))
  }

  /** The first of the two updates. */
  function RedirectDecisionMerchants(decisions: map<nat, Decision>, source: Text, target: Text): map<nat, Decision> {
    map k | k in decisions :: decisions[k].(merchantId := RenamedOption(decisions[k].merchantId, source, target))
  }

  function RedirectReference(decision: Decision, source: Text, target: Text): Text {
    if decision.source.ByMerchant? then Renamed(decision.reference, source, target) else decision.reference
  }

  /** The alias that the source's key gets: an existing one keeps only its match type. */
  function KeyAlias(aliases: map<Text, Alias>, key: Text, target: Text): Alias {
    Alias(target, if key in aliases then aliases[key].matchType else Exact, true, true, true)
  }

  function RedirectAliases(aliases: map<Text, Alias>, key: Text, source: Text, target: Text): map<Text, Alias> {
    var upserted := aliases[key := KeyAlias(aliases, key, target)];
    map k | k in upserted :: upserted[k].(merchantId := Renamed(upserted[k].merchantId, source, target))
  }

  predicate RuleValid(formats: Formats, rule: Rule) {
    && rule.conditions.Some? && ConditionsValid(formats, rule.conditions.value)
    && rule.actions.Some? && ActionsValid(formats, rule.actions.value)
  }

  function RewriteRule(rule: Rule, source: Text, target: Text): Rule
    requires rule.conditions.Some? && rule.actions.Some?
  {
    rule.(conditions := Some(RewriteNode(rule.conditions.value, source, target)),
          actions := Some(RewriteActions(rule.actions.value, source, target)))
  }

  function RewriteIfParsed(rule: Rule, source: Text, target: Text): Rule {
    if rule.conditions.Some? && rule.actions.Some? then RewriteRule(rule, source, target) else rule
  }

  /** The trigger on rules: every category a rule sets is active and visible. */
  predicate CategoriesVisible(checks: Checks, rule: Rule) {
    rule.actions.Some? ==>
      forall i :: 0 <= i < |rule.actions.value| && rule.actions.value[i].SetCategory? ==>
        checks.visible(rule.actions.value[i].categoryId)
  }

  /** The rule parses before and after the rewriting, and if it changes the trigger lets the update pass. */
  predicate Writable(checks: Checks, source: Text, target: Text, rule: Rule) {
    var next := RewriteIfParsed(rule, source, target);
    && RuleValid(checks.formats, rule) && RuleValid(checks.formats, next)
    && (next != rule ==> CategoriesVisible(checks, next))
  }

  function Gate(checks: Checks, source: Text, target: Text): Rule -> bool {
    (rule: Rule) => Writable(checks, source, target, rule)
  }

  /** The rules with the first `n` rewritten; None when one of them cannot be. */
  function RewriteRules(gate: Rule -> bool, rules: seq<Rule>, source: Text, target: Text,
                        n: nat): (r: Option<seq<Rule>>)
    requires n <= |rules|
    ensures r.Some? ==> |r.value| == |rules| && r.value[n..] == rules[n..]
  {
    if n == 0 then Some(rules)
    else
      match RewriteRules(gate, rules, source, target, n - 1)
      case None => None
      case Some(done) =>
        if gate(rules[n - 1]) then Some(done[n - 1 := RewriteIfParsed(rules[n - 1], source, target)]) else None
  }

  /** A tax number only the source has moves to the target. */
  function MergedMerchants(merchants: map<Text, Merchant>, source: Text, target: Text): map<Text, Merchant>
    requires source in merchants && target in merchants
  {
    var moved := if merchants[target].cnpj.None? && merchants[source].cnpj.Some?
                 then merchants[target := merchants[target].(cnpj := merchants[source].cnpj)] else merchants;
    moved - {source}
  }

  /**
   Rule checks; whether a text is free of Unicode control and format characters; and whether a category is
   active and visible in the workspace.
   */
  datatype Checks = Checks(formats: Formats, textual: string -> bool, visible: Text -> bool)

  /** 1 to 200 trimmed characters. */
  predicate ActorValid(checks: Checks, actorId: string) {
    TrimmedWithin(actorId, 200) && checks.textual(actorId)
  }

  /** The refusals before anything is written. */
  function Refusal(checks: Checks, t: Tables, source: Text, target: Text, actorId: string): Option<MergeError> {
    if !ActorValid(checks, actorId) then Some(BadActor)
    else if source == target then Some(SameMerchant)
    else if source !in t.merchants || target !in t.merchants then Some(MerchantNotFound)
    else
      var key := t.merchants[source].normalizedKey;
      if key in t.aliases && t.aliases[key].merchantId != source && t.aliases[key].merchantId != target
      then Some(KeyOwnedByOther)
      else None
  }

  /** What a merge commits. */
  function Merged(checks: Checks, t: Tables, source: Text, target: Text, actorId: string): Result<Tables, MergeError> {
    var refusal := Refusal(checks, t, source, target, actorId);
    if refusal.Some? then Err(refusal.value) else Redirected(checks, t, source, target, actorId)
  }

  /** The redirection of every table, unless the unique key on decisions or a stored rule stops it. */
  function Redirected(checks: Checks, t: Tables, source: Text, target: Text,
                      actorId: string): Result<Tables, MergeError>
    requires source in t.merchants && target in t.merchants
  {
    if !UniqueDecisions(RedirectDecisions(t.decisions, source, target)) then Err(DecisionsCollide)
    else
      match RewriteRules(Gate(checks, source, target), t.rules, source, target, |t.rules|)
      case None => Err(RuleRefused)
      case Some(rules) =>
        Ok(Tables(
          MergedMerchants(t.merchants, source, target),
          RedirectAliases(t.aliases, t.merchants[source].normalizedKey, source, target),
          RedirectColumn(t.transactions, source, target),
          M.RedirectAll(t.states, source, target),
          RedirectDecisions(t.decisions, source, target),
          RedirectColumn(t.installments, source, target),
          RedirectColumn(t.recurring, source, target),
          rules,
          t.audit + [AuditEntry(actorId, target, source)]))
  }

  class MerchantRepository {
    const checks: Checks
    var merchants: map<Text, Merchant>
    var aliases: map<Text, Alias>
    var transactions: map<nat, Option<Text>>
    var states: map<nat, U.State>
    var decisions: map<nat, Decision>
    var installments: map<nat, Option<Text>>
    var recurring: map<nat, Option<Text>>
    var rules: seq<Rule>
    var audit: seq<AuditEntry>

    function Contents(): Tables
      reads this
    {
      Tables(merchants, aliases, transactions, states, decisions, installments, recurring, rules, audit)
    }

    method Rollback(saved: Tables)
      modifies this
      ensures Contents() == saved
    {
      merchants, aliases, transactions := saved.merchants, saved.aliases, saved.transactions;
      states, decisions := saved.states, saved.decisions;
      installments, recurring, rules, audit := saved.installments, saved.recurring, saved.rules, saved.audit;
    }

    /** The upsert of the source's key and the redirection of its other aliases. */
    method MoveAliases(key: Text, source: Text, target: Text)
      requires key in aliases ==> aliases[key].merchantId == source || aliases[key].merchantId == target
      modifies this`aliases
      ensures aliases == RedirectAliases(old(aliases), key, source, target)
    {
      if key in aliases {
        aliases := aliases[key := Alias(target, aliases[key].matchType, true, true, true)];
      } else {
        aliases := aliases[key := Alias(target, Exact, true, true, true)];
      }
      aliases := map k | k in aliases ::
        if aliases[k].merchantId == source then aliases[k].(merchantId := target) else aliases[k];
    }

    /** One turn of the loop over the rules: both parses, and the update of a rule that changes. */
    method MoveRule(i: nat, source: Text, target: Text) returns (ok: bool)
      requires i < |rules|
      modifies this`rules
      ensures ok <==> Gate(checks, source, target)(old(rules)[i])
      ensures rules == if ok then old(rules)[i := RewriteIfParsed(old(rules)[i], source, target)] else old(rules)
    {
      var current := rules[i];
      if !RuleValid(checks.formats, current) {
        return false;
      }
      var next := RewriteIfParsed(current, source, target);
      if !RuleValid(checks.formats, next) {
        return false;
      }
      if next != current {
        if !CategoriesVisible(checks, next) {
          return false;
        }
        rules := rules[i := next];
      }
      ok := true;
    }

    /** The loop over the stored rules. */
    method MoveRules(source: Text, target: Text) returns (ok: bool)
      modifies this`rules
      ensures ok <==> RewriteRules(Gate(checks, source, target), old(rules), source, target, |old(rules)|).Some?
      ensures ok ==>
                rules == RewriteRules(Gate(checks, source, target), old(rules), source, target, |old(rules)|).value
    {
      ghost var before, gate := rules, Gate(checks, source, target);
      for i := 0 to |rules|
        invariant |rules| == |before| && RewriteRules(gate, before, source, target, i) == Some(rules)
      {
        assert rules[i] == before[i] by {
          assert rules[i..][0] == before[i..][0];
        }
        ok := MoveRule(i, source, target);
        if !ok {
          RefusalStays(gate, before, source, target, i + 1, |before|);
          return;
        }
      }
      ok := true;
    }

    /** The updates of the merchant columns. */
    method MoveColumns(source: Text, target: Text)
      modifies this`transactions, this`states, this`decisions, this`installments, this`recurring
      ensures transactions == RedirectColumn(old(transactions), source, target)
      ensures states == M.RedirectAll(old(states), source, target)
      ensures decisions == RedirectDecisionMerchants(old(decisions), source, target)
      ensures installments == RedirectColumn(old(installments), source, target)
      ensures recurring == RedirectColumn(old(recurring), source, target)
    {
      transactions := RedirectColumn(transactions, source, target);
      states := map t | t in states :: U.Redirected(states[t], source, target);
      decisions := map k | k in decisions ::
          decisions[k].(merchantId := RenamedOption(decisions[k].merchantId, source, target));
      installments := RedirectColumn(installments, source, target);
      recurring := RedirectColumn(recurring, source, target);
    }

    /** The update of references, which aborts when it would break the unique key on decisions. */
    method MoveReferences(source: Text, target: Text, ghost before: map<nat, Decision>) returns (ok: bool)
      requires decisions == RedirectDecisionMerchants(before, source, target)
      modifies this`decisions
      ensures ok <==> UniqueDecisions(RedirectDecisions(before, source, target))
      ensures ok ==> decisions == RedirectDecisions(before, source, target)
    {
      var redirected := map k | k in decisions ::
        if decisions[k].source.ByMerchant? && decisions[k].reference == source
        then decisions[k].(reference := target) else decisions[k];
      assert redirected == RedirectDecisions(before, source, target);
      ok := UniqueDecisions(redirected);
      if ok {
        decisions := redirected;
      }
    }

    /** The tax number moves if only the source has one; then the source row is deleted. */
    method RemoveSource(source: Text, target: Text)
      requires source in merchants && target in merchants && source != target
      modifies this`merchants
      ensures merchants == MergedMerchants(old(merchants), source, target)
    {
      var sourceRow, targetRow := merchants[source], merchants[target];
      if targetRow.cnpj.None? && sourceRow.cnpj.Some? {
        merchants := merchants[source := sourceRow.(cnpj := None)];
        merchants := merchants[target := targetRow.(cnpj := sourceRow.cnpj)];
      }
      merchants := merchants - {source};
    }

    /** The statements up to the loop over the rules. */
    method MoveTables(key: Text, source: Text, target: Text) returns (unique: bool)
      requires key in aliases ==> aliases[key].merchantId == source || aliases[key].merchantId == target
      modifies this`aliases, this`transactions, this`states, this`decisions, this`installments, this`recurring
      ensures unique <==> UniqueDecisions(RedirectDecisions(old(decisions), source, target))
      ensures unique ==> decisions == RedirectDecisions(old(decisions), source, target)
      ensures aliases == RedirectAliases(old(aliases), key, source, target)
      ensures transactions == RedirectColumn(old(transactions), source, target)
      ensures states == M.RedirectAll(old(states), source, target)
      ensures installments == RedirectColumn(old(installments), source, target)
      ensures recurring == RedirectColumn(old(recurring), source, target)
    {
      MoveAliases(key, source, target);
      MoveColumns(source, target);
      unique := MoveReferences(source, target, old(decisions));
    }

    /** The statements after the guards; an abort leaves them for the rollback. */
    method Redirect(key: Text, source: Text, target: Text, actorId: string) returns (r: Result<(), MergeError>)
      requires source in merchants && target in merchants && source != target && key == merchants[source].normalizedKey
      requires key in aliases ==> aliases[key].merchantId == source || aliases[key].merchantId == target
      modifies this
      ensures match Redirected(checks, old(Contents()), source, target, actorId)
              case Ok(after) => r == Ok(()) && Contents() == after
              case Err(error) => r == Err(error)
    {
      var unique := MoveTables(key, source, target);
      if !unique {
        return Err(DecisionsCollide);
      }
      var written := MoveRules(source, target);
      if !written {
        return Err(RuleRefused);
      }
      RemoveSource(source, target);
      audit := audit + [AuditEntry(actorId, target, source)];
      r := Ok(());
    }

    method MergeMerchants(source: Text, target: Text, actorId: string) returns (r: Result<(), MergeError>)
      modifies this
      ensures match Merged(checks, old(Contents()), source, target, actorId)
              case Ok(after) => r == Ok(()) && Contents() == after
              case Err(error) => r == Err(error) && Contents() == old(Contents())
    {
      if !ActorValid(checks, actorId) {
        return Err(BadActor);
      }
      if source == target {
        return Err(SameMerchant);
      }
      if source !in merchants || target !in merchants {
        return Err(MerchantNotFound);
      }
      var saved := Contents();
      var key := merchants[source].normalizedKey;
      if key in aliases && aliases[key].merchantId != source && aliases[key].merchantId != target {
        return Err(KeyOwnedByOther);
      }
      r := Redirect(key, source, target, actorId);
      if r.Err? {
        Rollback(saved);
      }
    }

    /** The exact-alias and exact-key stages of resolve, over candidate keys in order. */
    method ResolveExact(keys: seq<Text>) returns (match': Option<Text>)
      ensures match' == Resolved(Contents(), keys)
    {
      for i := 0 to |keys|
        invariant FirstAlias(Contents(), keys) == FirstAlias(Contents(), keys[i..])
      {
        assert keys[i..][0] == keys[i] && keys[i..][1..] == keys[i + 1..];
        if LiveAlias(Contents(), keys[i]) {
          return Some(aliases[keys[i]].merchantId);
        }
      }
      assert keys[|keys|..] == [];
      for i := 0 to |keys|
        invariant FirstAlias(Contents(), keys).None? && FirstKey(Contents(), keys) == FirstKey(Contents(), keys[i..])
      {
        assert keys[i..][0] == keys[i] && keys[i..][1..] == keys[i + 1..];
        var row := KeyOwner(Contents(), keys[i]);
        if row.Some? {
          return row;
        }
      }
      match' := None;
    }
  }

  lemma {:induction false} RefusalStays(gate: Rule -> bool, rules: seq<Rule>, source: Text, target: Text, n: nat,
                                        m: nat)
    requires n <= m <= |rules| && RewriteRules(gate, rules, source, target, n).None?
    ensures RewriteRules(gate, rules, source, target, m).None?
  {
    if n < m {
      RefusalStays(gate, rules, source, target, n, m - 1);
    }
  }

  // ---- resolution ----

  /** A confirmed active alias. */
  predicate LiveAlias(t: Tables, key: Text) {
    key in t.aliases && t.aliases[key].active && t.aliases[key].confirmed
  }

  function FirstAlias(t: Tables, keys: seq<Text>): Option<Text> {
    if keys == [] then None
    else if LiveAlias(t, keys[0]) then Some(t.aliases[keys[0]].merchantId)
    else FirstAlias(t, keys[1..])
  }

  function OwnersIn(merchants: map<Text, Merchant>, key: Text): set<Text> {
    set id | id in merchants && merchants[id].normalizedKey == key
  }

  /** The merchant with a normalised key; the unique index leaves no choice. */
  function KeyOwner(t: Tables, key: Text): Option<Text> {
    TheOne(OwnersIn(t.merchants, key))
  }

  function TheOne(ids: set<Text>): (r: Option<Text>)
    ensures forall id :: ids == {id} ==> r == Some(id)
    ensures ids == {} ==> r == None
  {
    if exists id :: id in ids && ids == {id} then
      var id :| id in ids && ids == {id};
      Some(id)
    else None
  }

  function FirstKey(t: Tables, keys: seq<Text>): Option<Text> {
    if keys == [] then None
    else
      var owner := KeyOwner(t, keys[0]);
      if owner.Some? then owner else FirstKey(t, keys[1..])
  }

  function Resolved(t: Tables, keys: seq<Text>): Option<Text> {
    var alias := FirstAlias(t, keys);
    if alias.Some? then alias else FirstKey(t, keys)
  }
}
