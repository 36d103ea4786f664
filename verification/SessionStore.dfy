/** Sessions, their rules and their results (packages/core/src/session-store.ts). */
module SessionStore {
  import opened Reasons
  import opened Headers
  import opened Matching

  const SESSION_NOT_FOUND: nat := 404
  const OPERATION_NOT_ALLOWED: nat := 405
  const RULE_NOT_FOUND: nat := 406
  const RULE_CONFLICT: nat := 409
  const INVALID_SCENARIO: nat := 422
  const INTERNAL_SERVER_ERROR: nat := 500
  const SERVER_UNAVAILABLE: nat := 503

  /** Either a value or the status the client receives. */
  datatype Reply<+T> = Done(value: T) | Refused(status: nat)

  /** One stored test result; only its identity matters here. */
  type Result = string

  datatype Record = Record(active: bool, rules: seq<MockRule>, results: seq<Result>, nextSequence: nat)

  datatype RuleInput = RuleInput(
    id: Option<string>, name: string, enabled: Option<bool>, priority: Option<int>,
    condition: RuleMatch, response: RuleResponse)

  datatype RulePatch = RulePatch(
    id: string, name: Option<string>, enabled: Option<bool>, priority: Option<int>,
    condition: Option<RuleMatch>, response: Option<RuleResponse>)

  function Or<T>(given: Option<T>, otherwise: T): T {
    match given
    case Some(value) => value
    case None => otherwise
  }

  const EMPTY: Record := Record(true, [], [], 1)

  // ---------------------------------------------------------------- what the store guarantees

  /** Two enabled rules the matcher could only tell apart by insertion order. */
  predicate Clash(a: MockRule, b: MockRule) {
    a.enabled && b.enabled && a.priority == b.priority && Equivalent(a.condition, b.condition)
  }

  /** With case-insensitively distinct header names, that is: enabled, of one priority, and the same conditions. */
  lemma ClashIff(a: MockRule, b: MockRule)
    requires DistinctFolded(a.condition.headers) && DistinctFolded(b.condition.headers)
    ensures Clash(a, b) <==>
              && a.enabled && b.enabled && a.priority == b.priority
              && a.condition.operation == b.condition.operation && a.condition.body == b.condition.body
              && FoldedMap(a.condition.headers) == FoldedMap(b.condition.headers)
  {
    EquivalentIff(a.condition, b.condition);
  }

  ghost predicate RulesSound(rules: seq<MockRule>, nextSequence: nat) {
    && (forall i, j | 0 <= i < j < |rules| ::
          && rules[i].id != rules[j].id
          && rules[i].name != rules[j].name
          && rules[i].sequence < rules[j].sequence
          && !Clash(rules[i], rules[j]))
    && forall i | 0 <= i < |rules| :: rules[i].sequence < nextSequence
  }

  ghost predicate RecordSound(rec: Record, maxRules: nat, maxResults: nat) {
    RulesSound(rec.rules, rec.nextSequence) && |rec.rules| <= maxRules && |rec.results| <= maxResults
  }

  // ---------------------------------------------------------------- the operations on one record

  /** The position of the rule with this id, or the length. */
  function IndexOfRule(rules: seq<MockRule>, id: string): (n: nat)
    ensures n <= |rules|
    ensures n < |rules| ==> rules[n].id == id
    ensures forall i | 0 <= i < n :: rules[i].id != id
  {
    if rules == [] || rules[0].id == id then 0 else 1 + IndexOfRule(rules[1..], id)
  }

  function NewRule(id: string, input: RuleInput, sequence: nat): MockRule {
    MockRule(id, input.name, Or(input.enabled, true), Or(input.priority, 0),
             input.condition, input.response, sequence, 0)
  }

  /** A rule may join when its id and name are new and it clashes with no rule. */
  predicate MayJoin(rules: seq<MockRule>, rule: MockRule) {
    forall i | 0 <= i < |rules| ::
      rules[i].id != rule.id && rules[i].name != rule.name && !Clash(rules[i], rule)
  }

  function Patched(was: MockRule, patch: RulePatch): MockRule {
    was.(name := Or(patch.name, was.name),
          enabled := Or(patch.enabled, was.enabled),
          priority := Or(patch.priority, was.priority),
          condition := Or(patch.condition, was.condition),
          response := Or(patch.response, was.response))
  }

  /** The update takes no other rule's name, if it names one, and clashes with no other rule. */
  predicate MayReplace(rules: seq<MockRule>, patch: RulePatch, updated: MockRule) {
    forall i | 0 <= i < |rules| && rules[i].id != updated.id ::
      (patch.name.Some? ==> rules[i].name != updated.name) && !Clash(rules[i], updated)
  }

  function CountHit(rules: seq<MockRule>, id: string): seq<MockRule> {
    var n := IndexOfRule(rules, id);
    if n == |rules| then rules else rules[n := rules[n].(hitCount := rules[n].hitCount + 1)]
  }

  /** The last `cap` elements. */
  function LastOf<T>(s: seq<T>, cap: nat): seq<T> {
    if |s| > cap then s[|s| - cap..] else s
  }

  datatype Operation =
    | Add(id: string, input: RuleInput)
    | Update(patch: RulePatch)
    | Remove(ruleId: string)
    | Hit(hitId: string)
    | Store(result: Result)
    | Close

  /** The status with which an operation on an existing session fails, if it does. */
  function Failure(rec: Record, op: Operation, maxRules: nat): Option<nat> {
    match op
    case Add(id, input) =>
      if !rec.active then Some(OPERATION_NOT_ALLOWED)
      else if |rec.rules| >= maxRules then Some(INVALID_SCENARIO)
      else if !MayJoin(rec.rules, NewRule(id, input, rec.nextSequence)) then Some(RULE_CONFLICT)
      else None
    case Update(patch) =>
      var n := IndexOfRule(rec.rules, patch.id);
      if !rec.active then Some(OPERATION_NOT_ALLOWED)
      else if n == |rec.rules| then Some(RULE_NOT_FOUND)
      else if !MayReplace(rec.rules, patch, Patched(rec.rules[n], patch)) then Some(RULE_CONFLICT)
      else None
    case Remove(id) =>
      if !rec.active then Some(OPERATION_NOT_ALLOWED)
      else if IndexOfRule(rec.rules, id) == |rec.rules| then Some(RULE_NOT_FOUND)
      else None
    case Close => if !rec.active then Some(OPERATION_NOT_ALLOWED) else None
    case _ => None
  }

  /** The record after an operation; a failing one leaves it as it was. */
  function After(rec: Record, op: Operation, maxRules: nat, maxResults: nat): Record {
    if Failure(rec, op, maxRules).Some? then rec
    else
      match op
      case Add(id, input) =>
        rec.(rules := rec.rules + [NewRule(id, input, rec.nextSequence)], nextSequence := rec.nextSequence + 1)
      case Update(patch) =>
        var n := IndexOfRule(rec.rules, patch.id);
        rec.(rules := rec.rules[n := Patched(rec.rules[n], patch)])
      case Remove(id) =>
        var n := IndexOfRule(rec.rules, id);
        rec.(rules := rec.rules[..n] + rec.rules[n + 1..])
      case Hit(id) => rec.(rules := CountHit(rec.rules, id))
      case Store(result) => rec.(results := LastOf(rec.results + [result], maxResults))
      case Close => rec.(active := false)
  }

  function Run(rec: Record, ops: seq<Operation>, maxRules: nat, maxResults: nat): Record
    decreases |ops|
  {
    if ops == [] then rec else Run(After(rec, ops[0], maxRules, maxResults), ops[1..], maxRules, maxResults)
  }

  // ---------------------------------------------------------------- over all runs

  lemma OperationKeepsSound(rec: Record, op: Operation, maxRules: nat, maxResults: nat)
    requires RecordSound(rec, maxRules, maxResults)
    ensures RecordSound(After(rec, op, maxRules, maxResults), maxRules, maxResults)
    ensures Failure(rec, op, maxRules).Some? ==> After(rec, op, maxRules, maxResults) == rec
  {
    if Failure(rec, op, maxRules).None? {
      match op
      case Add(id, input) => AddKeepsSound(rec, NewRule(id, input, rec.nextSequence));
      case Update(patch) => UpdateKeepsSound(rec, patch);
      case Remove(id) => RemoveKeepsSound(rec, IndexOfRule(rec.rules, id));
      case Hit(id) => HitKeepsSound(rec, id);
      case _ =>
    }
  }

  /** A new rule is refused as a conflict exactly when storing it would break the rule set. */
  lemma AddKeepsSound(rec: Record, rule: MockRule)
    requires RulesSound(rec.rules, rec.nextSequence) && rule.sequence == rec.nextSequence
    ensures MayJoin(rec.rules, rule) <==> RulesSound(rec.rules + [rule], rec.nextSequence + 1)
  {
    var joined := rec.rules + [rule];
    if RulesSound(joined, rec.nextSequence + 1) {
      forall i | 0 <= i < |rec.rules|
        ensures rec.rules[i].id != rule.id && rec.rules[i].name != rule.name && !Clash(rec.rules[i], rule)
      {
        assert joined[i] == rec.rules[i] && joined[|rec.rules|] == rule;
      }
    }
  }

  lemma RemoveKeepsSound(rec: Record, n: nat)
    requires RulesSound(rec.rules, rec.nextSequence) && n < |rec.rules|
    ensures RulesSound(rec.rules[..n] + rec.rules[n + 1..], rec.nextSequence)
  {}

  lemma HitKeepsSound(rec: Record, id: string)
    requires RulesSound(rec.rules, rec.nextSequence)
    ensures RulesSound(CountHit(rec.rules, id), rec.nextSequence) && |CountHit(rec.rules, id)| == |rec.rules|
  {}

  /** An update is refused as a conflict exactly when making it would break the rule set. */
  lemma UpdateKeepsSound(rec: Record, patch: RulePatch)
    requires RulesSound(rec.rules, rec.nextSequence)
    requires IndexOfRule(rec.rules, patch.id) < |rec.rules|
    ensures var n := IndexOfRule(rec.rules, patch.id);
            MayReplace(rec.rules, patch, Patched(rec.rules[n], patch))
            <==> RulesSound(rec.rules[n := Patched(rec.rules[n], patch)], rec.nextSequence)
  {
    var n := IndexOfRule(rec.rules, patch.id);
    var updated := Patched(rec.rules[n], patch);
    var replaced := rec.rules[n := updated];
    forall i | 0 <= i < |rec.rules| && i != n ensures rec.rules[i].id != rec.rules[n].id {}
    if RulesSound(replaced, rec.nextSequence) {
      forall i | 0 <= i < |rec.rules| && rec.rules[i].id != updated.id
        ensures (patch.name.Some? ==> rec.rules[i].name != updated.name) && !Clash(rec.rules[i], updated)
      {
        assert replaced[i] == rec.rules[i] && replaced[n] == updated;
      }
    }
  }

  // ---------------------------------------------------------------- what each operation does

  /** A rule is added behind the others, with what was asked and the defaults for what was not. */
  lemma AddIsExact(rec: Record, id: string, input: RuleInput, maxRules: nat, maxResults: nat)
    requires Failure(rec, Add(id, input), maxRules) == None
    ensures var t, n := After(rec, Add(id, input), maxRules, maxResults), |rec.rules|;
            && |t.rules| == n + 1 && t.rules[..n] == rec.rules
            && t.nextSequence == rec.nextSequence + 1 && t.results == rec.results && t.active == rec.active
            && var rule := t.rules[n];
            && rule.id == id && rule.name == input.name
            && rule.condition == input.condition && rule.response == input.response
            && rule.enabled == (if input.enabled.Some? then input.enabled.value else true)
            && rule.priority == (if input.priority.Some? then input.priority.value else 0)
            && rule.sequence == rec.nextSequence && rule.hitCount == 0
  {}

  /** Each patched field of the rule has the patch's value, every other field and rule is as it was. */
  lemma UpdateIsExact(rec: Record, patch: RulePatch, n: nat, maxRules: nat, maxResults: nat)
    requires Failure(rec, Update(patch), maxRules) == None
    requires n < |rec.rules| && rec.rules[n].id == patch.id && forall i | 0 <= i < n :: rec.rules[i].id != patch.id
    ensures var t := After(rec, Update(patch), maxRules, maxResults);
            && |t.rules| == |rec.rules| && (forall i | 0 <= i < |rec.rules| && i != n :: t.rules[i] == rec.rules[i])
            && t.nextSequence == rec.nextSequence && t.results == rec.results && t.active == rec.active
            && var was, now := rec.rules[n], t.rules[n];
            && now.id == was.id && now.sequence == was.sequence && now.hitCount == was.hitCount
            && now.name == (if patch.name.Some? then patch.name.value else was.name)
            && now.enabled == (if patch.enabled.Some? then patch.enabled.value else was.enabled)
            && now.priority == (if patch.priority.Some? then patch.priority.value else was.priority)
            && now.condition == (if patch.condition.Some? then patch.condition.value else was.condition)
            && now.response == (if patch.response.Some? then patch.response.value else was.response)
  {
    FirstWithId(rec.rules, patch.id, n);
  }

  lemma FirstWithId(rules: seq<MockRule>, id: string, n: nat)
    requires n < |rules| && rules[n].id == id && forall i | 0 <= i < n :: rules[i].id != id
    ensures IndexOfRule(rules, id) == n
  {}

  /** Just the rule with that id is gone. */
  lemma RemoveIsExact(rec: Record, id: string, maxRules: nat, maxResults: nat)
    requires RulesSound(rec.rules, rec.nextSequence) && Failure(rec, Remove(id), maxRules) == None
    ensures var t := After(rec, Remove(id), maxRules, maxResults);
            && |t.rules| == |rec.rules| - 1
            && (forall rule :: rule in t.rules <==> rule in rec.rules && rule.id != id)
            && t.nextSequence == rec.nextSequence && t.results == rec.results && t.active == rec.active
  {
    var n := IndexOfRule(rec.rules, id);
    var left := rec.rules[..n] + rec.rules[n + 1..];
    forall rule ensures rule in left <==> rule in rec.rules && rule.id != id {
      LeftOver(rec.rules, n, rule);
      OneWithId(rec.rules, rec.nextSequence, n, rule);
    }
  }

  lemma LeftOver<T>(s: seq<T>, n: nat, x: T)
    requires n < |s|
    ensures x in s[..n] + s[n + 1..] <==> exists i :: 0 <= i < |s| && i != n && s[i] == x
  {
    var left := s[..n] + s[n + 1..];
    if x in left {
      var i :| 0 <= i < |left| && left[i] == x;
      assert s[if i < n then i else i + 1] == x;
    }
    if i :| 0 <= i < |s| && i != n && s[i] == x {
      assert left[if i < n then i else i - 1] == x;
    }
  }

  lemma OneWithId(rules: seq<MockRule>, nextSequence: nat, n: nat, rule: MockRule)
    requires RulesSound(rules, nextSequence) && n < |rules|
    ensures (exists i :: 0 <= i < |rules| && i != n && rules[i] == rule) <==> rule in rules && rule.id != rules[n].id
  {}

  /** A hit counts on the rule with that id and nowhere else. */
  lemma HitIsExact(rec: Record, id: string, maxRules: nat, maxResults: nat)
    requires RulesSound(rec.rules, rec.nextSequence)
    ensures var t := After(rec, Hit(id), maxRules, maxResults);
            && t == rec.(rules := t.rules) && |t.rules| == |rec.rules|
            && forall i | 0 <= i < |rec.rules| ::
                 t.rules[i] == if rec.rules[i].id != id then rec.rules[i]
                               else rec.rules[i].(hitCount := rec.rules[i].hitCount + 1)
  {}

  /** Closing only closes. */
  lemma CloseIsExact(rec: Record, maxRules: nat, maxResults: nat)
    ensures After(rec, Close, maxRules, maxResults) == Record(false, rec.rules, rec.results, rec.nextSequence)
  {}

  /**
   Which status an operation fails with: 405 on a closed session, before anything else is looked
   at; 422 on a full one; 406 for an unknown rule; 409 exactly if the rule set would break.
   */
  lemma StatusIff(rec: Record, op: Operation, maxRules: nat)
    requires RulesSound(rec.rules, rec.nextSequence)
    ensures var failure := Failure(rec, op, maxRules);
            if op.Hit? || op.Store? then failure == None
            else if !rec.active then failure == Some(405)
            else if op.Close? then failure == None
            else if op.Add? then
              if |rec.rules| >= maxRules then failure == Some(422)
              else if RulesSound(rec.rules + [NewRule(op.id, op.input, rec.nextSequence)], rec.nextSequence + 1)
              then failure == None else failure == Some(409)
            else if op.Remove? then
              failure == if exists i | 0 <= i < |rec.rules| :: rec.rules[i].id == op.ruleId then None else Some(406)
            else
              if forall i | 0 <= i < |rec.rules| :: rec.rules[i].id != op.patch.id then failure == Some(406)
              else
                var n := IndexOfRule(rec.rules, op.patch.id);
                failure == if RulesSound(rec.rules[n := Patched(rec.rules[n], op.patch)], rec.nextSequence) then None
                           else Some(409)
  {
    if op.Add? { AddKeepsSound(rec, NewRule(op.id, op.input, rec.nextSequence)); }
    if op.Update? && IndexOfRule(rec.rules, op.patch.id) < |rec.rules| { UpdateKeepsSound(rec, op.patch); }
  }

  // ---------------------------------------------------------------- runs

  /** Every reachable record is sound: unique ids and names, ascending sequences, no clash, bounded. */
  lemma {:induction false} RunsKeepSound(rec: Record, ops: seq<Operation>, maxRules: nat, maxResults: nat)
    requires RecordSound(rec, maxRules, maxResults)
    ensures RecordSound(Run(rec, ops, maxRules, maxResults), maxRules, maxResults)
    decreases |ops|
  {
    if ops != [] {
      OperationKeepsSound(rec, ops[0], maxRules, maxResults);
      RunsKeepSound(After(rec, ops[0], maxRules, maxResults), ops[1..], maxRules, maxResults);
    }
  }

  /** So the matcher's order on a reachable rule set is total: insertion order never has to guess. */
  lemma ReachableRulesDeterministic(ops: seq<Operation>, maxRules: nat, maxResults: nat)
    ensures DistinctSequences(Run(EMPTY, ops, maxRules, maxResults).rules)
  {
    RunsKeepSound(EMPTY, ops, maxRules, maxResults);
  }

  /** The rules with their hit counts left out. */
  function Unhit(rules: seq<MockRule>): (r: seq<MockRule>)
    ensures |r| == |rules| && forall i | 0 <= i < |r| :: r[i] == rules[i].(hitCount := 0)
  {
    seq(|rules|, i requires 0 <= i < |rules| => rules[i].(hitCount := 0))
  }

  /** A closed session is read-only: no run reopens it or changes a rule beyond its hit count. */
  lemma {:induction false} ClosedIsReadOnly(rec: Record, ops: seq<Operation>, maxRules: nat, maxResults: nat)
    requires !rec.active
    ensures var end := Run(rec, ops, maxRules, maxResults);
            !end.active && Unhit(end.rules) == Unhit(rec.rules) && end.nextSequence == rec.nextSequence
    decreases |ops|
  {
    if ops != [] {
      ClosedIsReadOnly(After(rec, ops[0], maxRules, maxResults), ops[1..], maxRules, maxResults);
    }
  }

  /** The results a run adds, in order. */
  function ResultsOf(ops: seq<Operation>): seq<Result> {
    if ops == [] then []
    else (if ops[0].Store? then [ops[0].result] else []) + ResultsOf(ops[1..])
  }

  /** Dropping the oldest one by one drops what dropping them at once drops. */
  lemma LastOfSnoc<T>(s: seq<T>, x: T, cap: nat)
    ensures LastOf(LastOf(s, cap) + [x], cap) == LastOf(s + [x], cap)
  {}

  /** Whatever else happens, a session holds the last results added, oldest first, up to the cap. */
  lemma {:induction false} ResultsAreTheLast(
    rec: Record, added: seq<Result>, ops: seq<Operation>, maxRules: nat, maxResults: nat)
    requires rec.results == LastOf(added, maxResults)
    ensures Run(rec, ops, maxRules, maxResults).results == LastOf(added + ResultsOf(ops), maxResults)
    decreases |ops|
  {
    if ops == [] {
      assert added + [] == added;
    } else {
      var next := After(rec, ops[0], maxRules, maxResults);
      StoredResults(rec, ops[0], maxRules, maxResults);
      ResultsStep(added, ops);
      if ops[0].Store? {
        LastOfSnoc(added, ops[0].result, maxResults);
        ResultsAreTheLast(next, added + [ops[0].result], ops[1..], maxRules, maxResults);
      } else {
        ResultsAreTheLast(next, added, ops[1..], maxRules, maxResults);
      }
    }
  }

  lemma ResultsStep(added: seq<Result>, ops: seq<Operation>)
    requires ops != []
    ensures added + ResultsOf(ops) == (if ops[0].Store? then added + [ops[0].result] else added) + ResultsOf(ops[1..])
  {}

  /** From an empty session: the last results added, as many as there are up to the cap, oldest first. */
  lemma StoredAreTheLast(ops: seq<Operation>, maxRules: nat, maxResults: nat)
    ensures var stored, all := Run(EMPTY, ops, maxRules, maxResults).results, ResultsOf(ops);
            && |stored| == (if |all| < maxResults then |all| else maxResults)
            && stored == all[|all| - |stored|..]
  {
    ResultsAreTheLast(EMPTY, [], ops, maxRules, maxResults);
    assert [] + ResultsOf(ops) == ResultsOf(ops);
  }

  lemma StoredResults(rec: Record, op: Operation, maxRules: nat, maxResults: nat)
    ensures After(rec, op, maxRules, maxResults).results ==
            if op.Store? then LastOf(rec.results + [op.result], maxResults) else rec.results
  {}

  // ---------------------------------------------------------------- the store

  /** The id a new rule gets: the given one, or the next generated one. */
  function RuleId(input: RuleInput, counter: nat): string { Or(input.id, "rule-" + Decimal(counter + 1)) }

  function SessionId(n: nat): string { "ses-" + Decimal(n) }

  lemma SessionIdsDiffer(m: nat, n: nat)
    requires m != n
    ensures SessionId(m) != SessionId(n)
  {
    DecimalRoundTrip(m);
    DecimalRoundTrip(n);
    assert SessionId(m)[4..] == Decimal(m) && SessionId(n)[4..] == Decimal(n);
  }

  /** The three conflict checks of `addRule`: id, name, equivalent enabled match. */
  predicate ConflictsOnAdd(rules: seq<MockRule>, rule: MockRule)
    ensures ConflictsOnAdd(rules, rule) <==> !MayJoin(rules, rule)
  {
    || (exists i | 0 <= i < |rules| :: rules[i].id == rule.id)
    || (exists i | 0 <= i < |rules| :: rules[i].name == rule.name)
    || (rule.enabled && exists i | 0 <= i < |rules| :: Clash(rules[i], rule))
  }

  /** The two conflict checks of `updateRule`, against the other rules. */
  predicate ConflictsOnUpdate(rules: seq<MockRule>, patch: RulePatch, updated: MockRule)
    ensures ConflictsOnUpdate(rules, patch, updated) <==> !MayReplace(rules, patch, updated)
  {
    || (patch.name.Some? && exists i | 0 <= i < |rules| :: rules[i].id != updated.id && rules[i].name == updated.name)
    || (updated.enabled && exists i | 0 <= i < |rules| :: rules[i].id != updated.id && Clash(rules[i], updated))
  }

  /** Shifts the oldest out while over the cap. */
  method ShiftOldest(all: seq<Result>, cap: nat) returns (results: seq<Result>)
    ensures results == LastOf(all, cap)
  {
    results := all;
    while |results| > cap
      invariant |results| >= cap || results == all
      invariant |results| <= |all| && results == all[|all| - |results|..]
    {
      assert results[1..] == all[|all| - |results| + 1..];
      results := results[1..];
    }
  }

  /** Counts one hit on the rule with this id, if there is one. */
  method Bump(rules: seq<MockRule>, id: string) returns (bumped: seq<MockRule>)
    ensures bumped == CountHit(rules, id)
  {
    var index := IndexOfRule(rules, id);
    if index == |rules| {
      return rules;
    }
    var rule := rules[index];
    return rules[index := rule.(hitCount := rule.hitCount + 1)];
  }

  class SessionStore {
    var sessions: map<string, Record>
    /** Process-wide counters behind `newSessionId` and `newRuleId`. */
    var sessionCounter: nat
    var ruleCounter: nat
    const maxSessions: nat
    const maxRules: nat
    const maxResults: nat
    /** The ids whose endpoint is being started. */
    ghost var starting: set<string>

    ghost predicate Valid()
      reads this
    {
      && (forall id | id in sessions :: RecordSound(sessions[id], maxRules, maxResults))
      && (forall n | n > sessionCounter :: SessionId(n) !in sessions && SessionId(n) !in starting)
      && starting !! sessions.Keys
    }

    constructor (maxSessions: nat, maxRules: nat, maxResults: nat)
      ensures Valid() && sessions == map[] && starting == {}
      ensures this.maxSessions == maxSessions && this.maxRules == maxRules && this.maxResults == maxResults
    {
      sessions, sessionCounter, ruleCounter, starting := map[], 0, 0, {};
      this.maxSessions, this.maxRules, this.maxResults := maxSessions, maxRules, maxResults;
    }

    function Active(): set<string>
      reads this
    {
      set id | id in sessions && sessions[id].active
    }

    /** Every store step: one record moves as `After` says, or nothing does. */
    twostate predicate Moved(sessionId: string, op: Operation)
      reads this
    {
      sessions ==
      if sessionId in old(sessions)
      then old(sessions)[sessionId := After(old(sessions)[sessionId], op, maxRules, maxResults)]
      else old(sessions)
    }

    /** `requireActive`. */
    function RequireActive(sessionId: string): Reply<Record>
      reads this
    {
      if sessionId !in sessions then Refused(SESSION_NOT_FOUND)
      else if !sessions[sessionId].active then Refused(OPERATION_NOT_ALLOWED)
      else Done(sessions[sessionId])
    }

    /** `createSession` up to the start of its mock endpoint: the cap is checked here only. */
    method BeginCreate() returns (r: Reply<string>)
      requires Valid()
      modifies `sessionCounter, `starting
      ensures Valid()
      ensures |Active()| >= maxSessions ==> r == Refused(SERVER_UNAVAILABLE) && starting == old(starting)
      ensures |Active()| < maxSessions ==>
                r.Done? && r.value !in sessions && r.value !in old(starting) && starting == old(starting) + {r.value}
    {
      if |Active()| >= maxSessions {
        return Refused(SERVER_UNAVAILABLE);
      }
      sessionCounter := sessionCounter + 1;
      var id := SessionId(sessionCounter);
      forall n | n > sessionCounter ensures SessionId(n) != id { SessionIdsDiffer(n, sessionCounter); }
      starting := starting + {id};
      return Done(id);
    }

    /** The rest of `createSession`, once the endpoint listens or has failed to. */
    method FinishCreate(id: string, listening: bool) returns (r: Reply<string>)
      requires Valid() && id in starting
      modifies `sessions, `starting
      ensures Valid() && starting == old(starting) - {id}
      ensures r == if listening then Done(id) else Refused(INTERNAL_SERVER_ERROR)
      ensures sessions == if listening then old(sessions)[id := EMPTY] else old(sessions)
      ensures Active() == if listening then old(Active()) + {id} else old(Active())
    {
      starting := starting - {id};
      if !listening {
        return Refused(INTERNAL_SERVER_ERROR);
      }
      sessions := sessions[id := EMPTY];
      return Done(id);
    }

    /** `closeSession` up to the close of its mock endpoint. */
    method BeginClose(sessionId: string) returns (r: Reply<Record>)
      requires Valid()
      ensures r == RequireActive(sessionId)
      ensures r.Refused? <==> sessionId !in Active()
    {
      r := RequireActive(sessionId);
    }

    /** The rest of `closeSession`. Another call may have closed the session meanwhile. */
    method FinishClose(sessionId: string)
      requires Valid() && sessionId in sessions
      modifies `sessions
      ensures Valid() && Moved(sessionId, Close) && Active() == old(Active()) - {sessionId}
    {
      sessions := sessions[sessionId := sessions[sessionId].(active := false)];
    }

    /** Writes one record back. */
    method Put(sessionId: string, rec: Record)
      requires Valid() && sessionId in sessions && RecordSound(rec, maxRules, maxResults)
      modifies `sessions
      ensures Valid() && sessions == old(sessions)[sessionId := rec]
    {
      sessions := sessions[sessionId := rec];
    }

    method AddRule(sessionId: string, input: RuleInput) returns (r: Reply<MockRule>)
      requires Valid()
      modifies this
      ensures Valid()
      ensures Moved(sessionId, Add(RuleId(input, old(ruleCounter)), input))
      ensures sessionId !in old(sessions) ==> r == Refused(SESSION_NOT_FOUND)
      ensures sessionId in old(sessions) ==>
                var rec := old(sessions)[sessionId];
                match Failure(rec, Add(RuleId(input, old(ruleCounter)), input), maxRules)
                case Some(status) => r == Refused(status)
                case None => r == Done(NewRule(RuleId(input, old(ruleCounter)), input, rec.nextSequence))
    {
      var found := RequireActive(sessionId);
      if found.Refused? {
        return Refused(found.status);
      }
      var rec := found.value;
      if |rec.rules| >= maxRules {
        return Refused(INVALID_SCENARIO);
      }
      var id := RuleId(input, ruleCounter);
      if input.id == None {
        ruleCounter := ruleCounter + 1;
      }
      var rule := NewRule(id, input, rec.nextSequence);
      if ConflictsOnAdd(rec.rules, rule) {
        return Refused(RULE_CONFLICT);
      }
      OperationKeepsSound(rec, Add(id, input), maxRules, maxResults);
      Put(sessionId, rec.(rules := rec.rules + [rule], nextSequence := rec.nextSequence + 1));
      return Done(rule);
    }

    method UpdateRule(sessionId: string, patch: RulePatch) returns (r: Reply<MockRule>)
      requires Valid()
      modifies `sessions
      ensures Valid() && Moved(sessionId, Update(patch))
      ensures sessionId in old(sessions) ==>
                var rec := old(sessions)[sessionId];
                match Failure(rec, Update(patch), maxRules)
                case Some(status) => r == Refused(status)
                case None => r == Done(Patched(rec.rules[IndexOfRule(rec.rules, patch.id)], patch))
      ensures sessionId !in old(sessions) ==> r == Refused(SESSION_NOT_FOUND)
    {
      var found := RequireActive(sessionId);
      if found.Refused? {
        return Refused(found.status);
      }
      var rec := found.value;
      var index := IndexOfRule(rec.rules, patch.id);
      if index == |rec.rules| {
        return Refused(RULE_NOT_FOUND);
      }
      var updated := Patched(rec.rules[index], patch);
      if ConflictsOnUpdate(rec.rules, patch, updated) {
        return Refused(RULE_CONFLICT);
      }
      OperationKeepsSound(rec, Update(patch), maxRules, maxResults);
      Put(sessionId, rec.(rules := rec.rules[index := updated]));
      return Done(updated);
    }

    method DeleteRule(sessionId: string, ruleId: string) returns (r: Reply<MockRule>)
      requires Valid()
      modifies `sessions
      ensures Valid() && Moved(sessionId, Remove(ruleId))
      ensures sessionId !in old(sessions) ==> r == Refused(SESSION_NOT_FOUND)
      ensures sessionId in old(sessions) ==>
                var rec := old(sessions)[sessionId];
                match Failure(rec, Remove(ruleId), maxRules)
                case Some(status) => r == Refused(status)
                case None => r.Done? && r.value in rec.rules && r.value.id == ruleId
    {
      var found := RequireActive(sessionId);
      if found.Refused? {
        return Refused(found.status);
      }
      var rec := found.value;
      var index := IndexOfRule(rec.rules, ruleId);
      if index == |rec.rules| {
        return Refused(RULE_NOT_FOUND);
      }
      var removed := rec.rules[index];
      OperationKeepsSound(rec, Remove(ruleId), maxRules, maxResults);
      Put(sessionId, rec.(rules := rec.rules[..index] + rec.rules[index + 1..]));
      return Done(removed);
    }

    method RecordRuleHit(sessionId: string, ruleId: string)
      requires Valid()
      modifies `sessions
      ensures Valid() && Moved(sessionId, Hit(ruleId))
    {
      if sessionId !in sessions {
        return;
      }
      var rec := sessions[sessionId];
      HitKeepsSound(rec, ruleId);
      var rules := Bump(rec.rules, ruleId);
      Put(sessionId, rec.(rules := rules));
    }

    /** Appends, then shifts the oldest out while over the cap. */
    method AddResult(sessionId: string, result: Result) returns (r: Reply<Result>)
      requires Valid()
      modifies `sessions
      ensures Valid() && Moved(sessionId, Store(result))
      ensures r == if sessionId in old(sessions) then Done(result) else Refused(SESSION_NOT_FOUND)
    {
      if sessionId !in sessions {
        return Refused(SESSION_NOT_FOUND);
      }
      var rec := sessions[sessionId];
      var results := ShiftOldest(rec.results + [result], maxResults);
      Put(sessionId, rec.(results := results));
      return Done(result);
    }
  }
}
