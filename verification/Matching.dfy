/** Mock rule matching (packages/core/src/matching.ts). */
module Matching {
  import opened Reasons
  import opened Headers
  import opened Json
  import opened Sorting

  datatype BodyMode = Exact | Contains | JsonSubset | Regex

  datatype BodyMatch = BodyMatch(mode: BodyMode, value: string)

  /** `headers` lists the entries of the rule's header record; no headers is the empty list. */
  datatype RuleMatch = RuleMatch(operation: string, headers: seq<Field>, body: Option<BodyMatch>)

  datatype Fragment = Fragment(sizes: seq<nat>, delayMs: nat)

  datatype RuleResponse = RuleResponse(
    statusCode: nat, statusPhrase: string, headers: seq<Field>, body: string,
    delayMs: nat, fragment: Option<Fragment>, disconnectAfterBytes: Option<nat>)

  datatype MockRule = MockRule(
    id: string, name: string, enabled: bool, priority: int,
    condition: RuleMatch, response: RuleResponse, sequence: nat, hitCount: nat)

  datatype Request = Request(operation: string, headers: seq<Field>, body: string)

  /** `JSON.parse` and `RegExp.test`; `None` is the exception they throw. */
  datatype Library = Library(parseJson: string -> Option<Value>, testRegex: (string, string) -> Option<bool>)

  // ---------------------------------------------------------------- one rule

  datatype Mismatch =
    | OperationDiffers
    | HeaderAbsent(name: string)
    | HeaderDiffers(name: string, actual: string)
    | BodyDiffers
    | SubstringMissing
    | RuleBodyNotJson
    | RequestBodyNotJson
    | NotASuperset
    | RuleRegexInvalid
    | RegexFails

  predicate Includes(text: string, part: string) {
    part <= text || (text != [] && Includes(text[1..], part))
  }

  lemma {:induction false} IncludesAt(text: string, i: nat, j: nat)
    requires i <= j <= |text|
    ensures Includes(text, text[i..j])
    decreases i
  {
    if i > 0 {
      assert text[1..][i - 1..j - 1] == text[i..j];
      IncludesAt(text[1..], i - 1, j - 1);
    }
  }

  lemma {:induction false} WhereIncluded(text: string, part: string) returns (i: nat)
    requires Includes(text, part)
    ensures i + |part| <= |text| && text[i..i + |part|] == part
    decreases |text|
  {
    if part <= text { return 0; }
    var k := WhereIncluded(text[1..], part);
    assert text[k + 1..k + 1 + |part|] == text[1..][k..k + |part|];
    return k + 1;
  }

  /** The text has the part somewhere. */
  lemma IncludesIff(text: string, part: string)
    ensures Includes(text, part) <==> exists i, j | 0 <= i <= j <= |text| :: text[i..j] == part
  {
    if Includes(text, part) {
      var i := WhereIncluded(text, part);
      assert text[i..i + |part|] == part;
    }
    if i, j :| 0 <= i <= j <= |text| && text[i..j] == part {
      IncludesAt(text, i, j);
    }
  }

  function ExplainHeaders(request: Request, entries: seq<Field>): Option<Mismatch> {
    if entries == [] then None
    else
      match GetHeader(request.headers, entries[0].name)
      case None => Some(HeaderAbsent(entries[0].name))
      case Some(actual) =>
        if actual != entries[0].value then Some(HeaderDiffers(entries[0].name, actual))
        else ExplainHeaders(request, entries[1..])
  }

  function ExplainBody(lib: Library, text: string, body: BodyMatch): Option<Mismatch> {
    match body.mode
    case Exact => if text != body.value then Some(BodyDiffers) else None
    case Contains => if !Includes(text, body.value) then Some(SubstringMissing) else None
    case JsonSubset =>
      var wanted, actual := lib.parseJson(body.value), lib.parseJson(text);
      if wanted == None then Some(RuleBodyNotJson)
      else if actual == None then Some(RequestBodyNotJson)
      else if !IsSubset(wanted.value, actual.value) then Some(NotASuperset)
      else None
    case Regex =>
      var tested := lib.testRegex(body.value, text);
      if tested == None then Some(RuleRegexInvalid)
      else if !tested.value then Some(RegexFails)
      else None
  }

  /** `None` when the request satisfies the match, else the first reason it does not. */
  function Explain(lib: Library, request: Request, m: RuleMatch): Option<Mismatch> {
    if m.operation != "*" && m.operation != request.operation then Some(OperationDiffers)
    else
      var headers := ExplainHeaders(request, m.headers);
      if headers != None then headers
      else if m.body == None then None
      else ExplainBody(lib, request.body, m.body.value)
  }

  /** `explainMatch`, with its early-return loop over the headers. */
  method ExplainMatch(lib: Library, request: Request, m: RuleMatch) returns (r: Option<Mismatch>)
    ensures r == Explain(lib, request, m)
  {
    if m.operation != "*" && m.operation != request.operation {
      return Some(OperationDiffers);
    }
    for i := 0 to |m.headers|
      invariant ExplainHeaders(request, m.headers) == ExplainHeaders(request, m.headers[i..])
    {
      var actual := GetHeader(request.headers, m.headers[i].name);
      if actual == None {
        return Some(HeaderAbsent(m.headers[i].name));
      }
      if actual.value != m.headers[i].value {
        return Some(HeaderDiffers(m.headers[i].name, actual.value));
      }
    }
    if m.body.Some? {
      return ExplainBody(lib, request.body, m.body.value);
    }
    return None;
  }

  /** What it takes to satisfy the body condition, mode by mode. */
  ghost predicate BodyHolds(lib: Library, text: string, body: BodyMatch) {
    match body.mode
    case Exact => text == body.value
    case Contains => exists i, j | 0 <= i <= j <= |text| :: text[i..j] == body.value
    case JsonSubset =>
      && lib.parseJson(body.value).Some? && lib.parseJson(text).Some?
      && IsSubset(lib.parseJson(body.value).value, lib.parseJson(text).value)
    case Regex => lib.testRegex(body.value, text) == Some(true)
  }

  /**
   A request satisfies a match exactly when the operation is the one named, or any is, every header
   named is there with its value, and the body condition holds, if there is one.
   */
  lemma SatisfiesIff(lib: Library, request: Request, m: RuleMatch)
    ensures Explain(lib, request, m) == None <==>
              && (m.operation == "*" || m.operation == request.operation)
              && (forall h | h in m.headers :: GetHeader(request.headers, h.name) == Some(h.value))
              && (m.body.Some? ==> BodyHolds(lib, request.body, m.body.value))
  {
    HeadersSatisfiedIff(request, m.headers);
    if m.body.Some? { IncludesIff(request.body, m.body.value.value); }
  }

  lemma {:induction false} HeadersSatisfiedIff(request: Request, entries: seq<Field>)
    ensures ExplainHeaders(request, entries) == None <==>
              forall h | h in entries :: GetHeader(request.headers, h.name) == Some(h.value)
    decreases |entries|
  {
    if entries != [] {
      HeadersSatisfiedIff(request, entries[1..]);
      assert entries == [entries[0]] + entries[1..];
    }
  }

  /** A mismatch names the condition that fails: the operation, or a header of the match with what came. */
  lemma MismatchNamed(lib: Library, request: Request, m: RuleMatch)
    ensures var r := Explain(lib, request, m);
            && (r == Some(OperationDiffers) <==> m.operation != "*" && m.operation != request.operation)
            && (r.Some? && r.value.HeaderAbsent? ==>
                  && GetHeader(request.headers, r.value.name) == None
                  && exists h :: h in m.headers && h.name == r.value.name)
            && (r.Some? && r.value.HeaderDiffers? ==>
                  && GetHeader(request.headers, r.value.name) == Some(r.value.actual)
                  && exists h :: h in m.headers && h.name == r.value.name && h.value != r.value.actual)
  {
    HeaderNamed(request, m.headers);
  }

  lemma {:induction false} HeaderNamed(request: Request, entries: seq<Field>)
    ensures var r := ExplainHeaders(request, entries);
            && (r.Some? ==> r.value.HeaderAbsent? || r.value.HeaderDiffers?)
            && (r.Some? && r.value.HeaderAbsent? ==>
                  && GetHeader(request.headers, r.value.name) == None
                  && exists h :: h in entries && h.name == r.value.name)
            && (r.Some? && r.value.HeaderDiffers? ==>
                  && GetHeader(request.headers, r.value.name) == Some(r.value.actual)
                  && exists h :: h in entries && h.name == r.value.name && h.value != r.value.actual)
    decreases |entries|
  {
    if entries != [] {
      HeaderNamed(request, entries[1..]);
      assert entries[0] in entries;
      assert forall h | h in entries[1..] :: h in entries;
    }
  }

  // ---------------------------------------------------------------- evaluation order

  /** Higher priority first, then earlier insertion. */
  predicate Before(a: MockRule, b: MockRule) {
    a.priority > b.priority || (a.priority == b.priority && a.sequence < b.sequence)
  }

  function OrderRules(rules: seq<MockRule>): seq<MockRule> { Sort(rules, Before) }

  ghost predicate DistinctSequences(rules: seq<MockRule>) {
    forall i, j | 0 <= i < j < |rules| :: rules[i].sequence != rules[j].sequence
  }

  lemma BeforeIsStrict(rules: seq<MockRule>)
    requires DistinctSequences(rules)
    ensures StrictOrder(Before) && Comparable(rules, Before)
  {}

  /** Rules of one priority and sequence, if there ever were any, would keep their stored order. */
  lemma TiesKeepOrder(rules: seq<MockRule>, rule: MockRule)
    ensures Ties(OrderRules(rules), rule, Before) == Ties(rules, rule, Before)
  {
    SortStable(rules, rule, Before);
  }

  datatype Step = Disabled | Matched | Failed(mismatch: Mismatch)

  datatype TraceEntry = TraceEntry(ruleId: string, step: Step)

  datatype MatchOutcome = MatchOutcome(rule: Option<MockRule>, trace: seq<TraceEntry>)

  predicate Fires(lib: Library, request: Request, rule: MockRule) {
    rule.enabled && Explain(lib, request, rule.condition) == None
  }

  /** What considering one rule records. */
  function Consider(lib: Library, request: Request, rule: MockRule): TraceEntry {
    var mismatch := Explain(lib, request, rule.condition);
    TraceEntry(rule.id,
               if !rule.enabled then Disabled else if mismatch == None then Matched else Failed(mismatch.value))
  }

  /** The position of the first rule that fires, or the length. */
  function FirstFiring(lib: Library, request: Request, rules: seq<MockRule>): (n: nat)
    ensures n <= |rules|
    ensures forall i | 0 <= i < n :: !Fires(lib, request, rules[i])
    ensures n < |rules| ==> Fires(lib, request, rules[n])
  {
    if rules == [] || Fires(lib, request, rules[0]) then 0 else 1 + FirstFiring(lib, request, rules[1..])
  }

  /** One entry for each rule of the evaluation order up to and including the one that fires. */
  ghost predicate IsTrace(lib: Library, request: Request, ordered: seq<MockRule>, trace: seq<TraceEntry>) {
    && |trace| <= |ordered|
    && forall i | 0 <= i < |trace| :: trace[i] == Consider(lib, request, ordered[i])
  }

  /** The rule that answers and its trace, given the evaluation order. */
  ghost predicate IsOutcome(lib: Library, request: Request, ordered: seq<MockRule>, r: MatchOutcome) {
    var n := FirstFiring(lib, request, ordered);
    && IsTrace(lib, request, ordered, r.trace)
    && |r.trace| == (if n < |ordered| then n + 1 else n)
    && r.rule == if n < |ordered| then Some(ordered[n]) else None
  }

  /** `matchRule` */
  method MatchRule(lib: Library, request: Request, rules: seq<MockRule>) returns (r: MatchOutcome)
    ensures IsOutcome(lib, request, OrderRules(rules), r)
  {
    var ordered := OrderRules(rules);
    r := WalkRules(lib, request, ordered);
  }

  /** The loop of `matchRule`: walks the evaluation order, growing `trace`. */
  method WalkRules(lib: Library, request: Request, ordered: seq<MockRule>) returns (r: MatchOutcome)
    ensures IsOutcome(lib, request, ordered, r)
  {
    ghost var n := FirstFiring(lib, request, ordered);
    var trace: seq<TraceEntry> := [];
    for i := 0 to |ordered|
      invariant |trace| == i <= n && IsTrace(lib, request, ordered, trace)
    {
      var rule := ordered[i];
      var step := Disabled;
      if rule.enabled {
        var mismatch := ExplainMatch(lib, request, rule.condition);
        step := if mismatch == None then Matched else Failed(mismatch.value);
      }
      trace := trace + [TraceEntry(rule.id, step)];
      if step == Matched {
        return MatchOutcome(Some(rule), trace);
      }
    }
    return MatchOutcome(None, trace);
  }

  /** The rule that answers comes before every other rule that fires; none answers iff none fires. */
  lemma WinnerIsBest(lib: Library, request: Request, rules: seq<MockRule>)
    requires DistinctSequences(rules)
    ensures var ordered := OrderRules(rules);
            var n := FirstFiring(lib, request, ordered);
            && (n == |ordered| <==> forall rule | rule in rules :: !Fires(lib, request, rule))
            && (n < |ordered| ==>
                  && ordered[n] in rules && ordered[n].enabled && Fires(lib, request, ordered[n])
                  && forall rule | rule in rules && Fires(lib, request, rule) && rule != ordered[n] ::
                       || ordered[n].priority > rule.priority
                       || (ordered[n].priority == rule.priority && ordered[n].sequence < rule.sequence))
  {
    var ordered := OrderRules(rules);
    var n := FirstFiring(lib, request, ordered);
    BeforeIsStrict(rules);
    SortAscending(rules, Before);
    SameMembers(ordered, rules);
    forall rule | rule in rules && Fires(lib, request, rule)
      ensures n < |ordered| && (rule == ordered[n] || Before(ordered[n], rule))
    {
      FirstIsBefore(lib, request, ordered, rule);
    }
    if n < |ordered| { assert ordered[n] in ordered; }
  }

  lemma FirstIsBefore(lib: Library, request: Request, ordered: seq<MockRule>, rule: MockRule)
    requires Ascending(ordered, Before) && rule in ordered && Fires(lib, request, rule)
    ensures var n := FirstFiring(lib, request, ordered);
            n < |ordered| && (rule == ordered[n] || Before(ordered[n], rule))
  {
    var i :| 0 <= i < |ordered| && ordered[i] == rule;
  }

  /**
   The trace names the rules considered in order: before the last no rule matched, and the last did
   exactly when a rule answers; disabled rules are said to be, and a failure names its mismatch.
   */
  lemma TraceShape(lib: Library, request: Request, ordered: seq<MockRule>, r: MatchOutcome)
    requires IsOutcome(lib, request, ordered, r)
    ensures |r.trace| <= |ordered| && forall i | 0 <= i < |r.trace| ::
              && r.trace[i].ruleId == ordered[i].id
              && (r.trace[i].step == Disabled <==> !ordered[i].enabled)
              && (r.trace[i].step == Matched <==> r.rule.Some? && i == |r.trace| - 1)
              && (r.trace[i].step.Failed? ==>
                    Explain(lib, request, ordered[i].condition) == Some(r.trace[i].step.mismatch))
    ensures r.rule.Some? ==> r.trace != [] && r.rule.value == ordered[|r.trace| - 1]
  {}

  lemma SameMembers<T>(a: seq<T>, b: seq<T>)
    requires multiset(a) == multiset(b)
    ensures forall x :: x in a <==> x in b
  {
    forall x ensures x in a <==> x in b {
      assert x in a <==> x in multiset(a);
      assert x in b <==> x in multiset(b);
    }
  }

  /** The order rules are stored in is irrelevant: same evaluation order, outcome and trace. */
  lemma OrderIrrelevant(rules: seq<MockRule>, shuffled: seq<MockRule>)
    requires DistinctSequences(rules) && multiset(shuffled) == multiset(rules)
    ensures OrderRules(shuffled) == OrderRules(rules)
  {
    BeforeIsStrict(rules);
    SortCanonical(rules, shuffled, Before);
  }

  // ---------------------------------------------------------------- canonical keys

  /** The canonical form: names folded, entries sorted by folded name. */
  datatype Key = Key(operation: string, headers: seq<Field>, body: Option<BodyMatch>)

  /** The comparison of strings by code units. */
  predicate Less(a: string, b: string) {
    b != [] && (a == [] || a[0] < b[0] || (a[0] == b[0] && Less(a[1..], b[1..])))
  }

  predicate NameLess(a: Field, b: Field) { Less(a.name, b.name) }

  function Folded(entries: seq<Field>): (r: seq<Field>)
    ensures |r| == |entries|
    ensures forall i | 0 <= i < |r| :: r[i] == Field(Lower(entries[i].name), entries[i].value)
  {
    seq(|entries|, i requires 0 <= i < |entries| => Field(Lower(entries[i].name), entries[i].value))
  }

  function CanonicalKey(m: RuleMatch): Key { Key(m.operation, Sort(Folded(m.headers), NameLess), m.body) }

  predicate Equivalent(a: RuleMatch, b: RuleMatch) { CanonicalKey(a) == CanonicalKey(b) }

  lemma {:induction false} LessStrict(a: string, b: string, c: string)
    ensures !Less(a, a)
    ensures Less(a, b) && Less(b, c) ==> Less(a, c)
    ensures Less(a, b) || a == b || Less(b, a)
  {
    if a != [] && b != [] {
      assert a == [a[0]] + a[1..] && b == [b[0]] + b[1..];
      LessStrict(a[1..], b[1..], if c == [] then [] else c[1..]);
    } else if a != [] {
      LessStrict(a[1..], [], []);
    }
  }

  lemma NameLessStrict()
    ensures StrictOrder(NameLess)
  {
    forall x: Field ensures !NameLess(x, x) { LessStrict(x.name, x.name, x.name); }
    forall x, y, z: Field | NameLess(x, y) && NameLess(y, z) ensures NameLess(x, z) {
      LessStrict(x.name, y.name, z.name);
    }
  }

  /** The header conditions hold as a set: order and casing do not matter. */
  lemma {:induction false} HeadersHold(request: Request, entries: seq<Field>)
    ensures ExplainHeaders(request, entries) == None <==>
              forall h | h in Folded(entries) :: GetHeader(request.headers, h.name) == Some(h.value)
    decreases |entries|
  {
    if entries != [] {
      var h := entries[0];
      HeadersHold(request, entries[1..]);
      GetHeaderFolds(request.headers, h.name);
      assert Folded(entries) == [Field(Lower(h.name), h.value)] + Folded(entries[1..]);
    }
  }

  lemma {:induction false} GetHeaderFolds(headers: seq<Field>, name: string)
    ensures GetHeader(headers, Lower(name)) == GetHeader(headers, name)
  {
    LowerIdempotent(name);
    if headers != [] { GetHeaderFolds(headers[1..], name); }
  }

  /** Rules with equal keys fire on exactly the same requests. */
  lemma {:induction false} EqualKeysSameRequests(lib: Library, request: Request, a: RuleMatch, b: RuleMatch)
    requires Equivalent(a, b)
    ensures Explain(lib, request, a) == None <==> Explain(lib, request, b) == None
  {
    HeadersHold(request, a.headers);
    HeadersHold(request, b.headers);
    assert multiset(Folded(a.headers)) == multiset(CanonicalKey(a).headers) == multiset(Folded(b.headers));
    SameMembers(Folded(a.headers), Folded(b.headers));
  }

  // ---------------------------------------------------------------- exactness of the key

  /** No two names agree up to case. */
  ghost predicate DistinctFolded(entries: seq<Field>) {
    forall i, j | 0 <= i < |entries| && 0 <= j < |entries| && i != j ::
      Lower(entries[i].name) != Lower(entries[j].name)
  }

  /** The header record as a map from folded names. */
  function FoldedMap(entries: seq<Field>): map<string, string> {
    if entries == [] then map[]
    else FoldedMap(entries[1..])[Lower(entries[0].name) := entries[0].value]
  }

  lemma {:induction false} FoldedMapMembers(entries: seq<Field>)
    requires DistinctFolded(entries)
    ensures forall name, value :: (name in FoldedMap(entries) && FoldedMap(entries)[name] == value)
                                  <==> Field(name, value) in Folded(entries)
    decreases |entries|
  {
    if entries != [] {
      var h, rest := entries[0], entries[1..];
      forall i, j | 0 <= i < |rest| && 0 <= j < |rest| && i != j
        ensures Lower(rest[i].name) != Lower(rest[j].name)
      {
        assert rest[i] == entries[i + 1] && rest[j] == entries[j + 1];
      }
      FoldedMapMembers(rest);
      assert Folded(entries) == [Field(Lower(h.name), h.value)] + Folded(rest);
      forall i | 0 <= i < |rest| ensures Folded(rest)[i].name != Lower(h.name) {
        assert rest[i] == entries[i + 1];
      }
    }
  }

  /**
   With case-insensitively distinct names, two matches have the same key exactly when operation,
   header map up to case, and body condition agree.
   */
  lemma EquivalentIff(a: RuleMatch, b: RuleMatch)
    requires DistinctFolded(a.headers) && DistinctFolded(b.headers)
    ensures Equivalent(a, b) <==>
              a.operation == b.operation && a.body == b.body && FoldedMap(a.headers) == FoldedMap(b.headers)
  {
    FoldedMapMembers(a.headers);
    FoldedMapMembers(b.headers);
    var fa, fb := Folded(a.headers), Folded(b.headers);
    if Equivalent(a, b) {
      assert multiset(fa) == multiset(CanonicalKey(a).headers) == multiset(fb);
      SameMembers(fa, fb);
      SameMap(a.headers, b.headers);
    }
    if FoldedMap(a.headers) == FoldedMap(b.headers) {
      forall h ensures h in fa <==> h in fb {
        assert h == Field(h.name, h.value);
      }
      FoldedComparable(a.headers);
      FoldedComparable(b.headers);
      NameLessStrict();
      SameBag(fa, fb);
      SortCanonical(fa, fb, NameLess);
    }
  }

  lemma SameMap(a: seq<Field>, b: seq<Field>)
    requires DistinctFolded(a) && DistinctFolded(b)
    requires forall h :: h in Folded(a) <==> h in Folded(b)
    ensures FoldedMap(a) == FoldedMap(b)
  {
    FoldedMapMembers(a);
    FoldedMapMembers(b);
    var x, y := FoldedMap(a), FoldedMap(b);
    forall name | name in x ensures name in y && y[name] == x[name] {
      assert Field(name, x[name]) in Folded(a);
    }
    forall name | name in y ensures name in x {
      assert Field(name, y[name]) in Folded(b);
    }
  }

  lemma FoldedComparable(entries: seq<Field>)
    requires DistinctFolded(entries)
    ensures Comparable(Folded(entries), NameLess)
    ensures forall i, j | 0 <= i < j < |entries| :: Folded(entries)[i] != Folded(entries)[j]
  {
    var f := Folded(entries);
    forall i, j | 0 <= i < |f| && 0 <= j < |f| && i != j ensures NameLess(f[i], f[j]) || NameLess(f[j], f[i]) {
      LessStrict(f[i].name, f[j].name, f[i].name);
    }
  }

  /** Lists without repetition and with the same members are permutations of each other. */
  lemma SameBag<T>(a: seq<T>, b: seq<T>)
    requires forall i, j | 0 <= i < j < |a| :: a[i] != a[j]
    requires forall i, j | 0 <= i < j < |b| :: b[i] != b[j]
    requires forall x :: x in a <==> x in b
    ensures multiset(a) == multiset(b)
  {
    forall x ensures multiset(a)[x] == multiset(b)[x] {
      AtMostOnce(a, x);
      AtMostOnce(b, x);
    }
  }

  lemma {:induction false} AtMostOnce<T>(a: seq<T>, x: T)
    requires forall i, j | 0 <= i < j < |a| :: a[i] != a[j]
    ensures multiset(a)[x] == if x in a then 1 else 0
  {
    if a != [] {
      AtMostOnce(a[1..], x);
      assert a == [a[0]] + a[1..];
    }
  }

  // ---------------------------------------------------------------- JSON rules

  /** A rule wanting less JSON fires on every body a rule wanting more fires on. */
  lemma WeakerJsonRule(lib: Library, text: string, weak: string, strong: string)
    requires lib.parseJson(weak).Some? && lib.parseJson(strong).Some?
    requires IsSubset(lib.parseJson(weak).value, lib.parseJson(strong).value)
    requires ExplainBody(lib, text, BodyMatch(JsonSubset, strong)) == None
    ensures ExplainBody(lib, text, BodyMatch(JsonSubset, weak)) == None
  {
    SubsetTransitive(lib.parseJson(weak).value, lib.parseJson(strong).value, lib.parseJson(text).value);
  }
}
