/** Evaluating one condition, one rule's conditions, and one node's table of rules. */
module Conditions {
  import opened Wrappers
  import opened Values
  import opened Dsl

  type Facts = map<string, Value>

  datatype Entry = Entry(ruleId: string, ruleName: string, nodeId: string, matched: bool)

  /** Panic stands for a failed type assertion, which the program does not turn into an error. */
  datatype EvalError =
    | NodeNotFound(node: string)
    | UnknownFieldType(node: string, rule: string)
    | FactMismatch(field: string, fact: Value)
    | OperandMismatch(field: string)
    | UnsupportedOp(field: string, op: Op)
    | Panic

  /** An absent fact reads as nil. */
  function Fact(facts: Facts, field: string): Value {
    if field in facts then facts[field] else Null
  }

  /** A null fact fits every type, as it reads as the type's zero value. */
  predicate Fits(kind: FieldType, v: Value) {
    v.Null? ||
    match kind
    case NumberField => v.Number?
    case StringField => v.Text?
    case EnumField => v.Text?
    case BooleanField => v.Bool?
    case OtherField(_) => true
  }

  /** What a condition sees of a fact: an absent or null one counts as the type's zero value. */
  function Read(kind: FieldType, v: Value): Value {
    if !v.Null? then v
    else
      match kind
      case NumberField => Number(0.0)
      case StringField => Text("")
      case EnumField => Text("")
      case BooleanField => Bool(false)
      case OtherField(_) => Null
  }

  function Kind(schema: Schema, field: string): FieldType {
    if field in schema then schema[field].kind else OtherField("")
  }

  // ---------- One condition ----------

  function ToNumber(v: Value): Option<real> {
    match v
    case Number(n) => Some(n)
    case Null => Some(0.0)
    case _ => None
  }

  function EvalNumber(cond: Condition, raw: Value): Result<bool, EvalError> {
    match (ToNumber(raw), ToNumber(cond.value))
    case (None, _) => Err(FactMismatch(cond.field, raw))
    case (_, None) => Err(OperandMismatch(cond.field))
    case (Some(fv), Some(cv)) =>
      match cond.op
      case Eq => Ok(fv == cv)
      case Ne => Ok(fv != cv)
      case Gt => Ok(fv > cv)
      case Gte => Ok(fv >= cv)
      case Lt => Ok(fv < cv)
      case Lte => Ok(fv <= cv)
      case _ => Err(UnsupportedOp(cond.field, cond.op))
  }

  predicate PartAt(s: string, part: string, i: nat) {
    i + |part| <= |s| && s[i..i + |part|] == part
  }

  predicate HasPart(s: string, part: string) {
    exists i | 0 <= i <= |s| :: PartAt(s, part, i)
  }

  predicate HasSuffix(s: string, suffix: string) {
    |suffix| <= |s| && s[|s| - |suffix|..] == suffix
  }

  function EvalString(cond: Condition, raw: Value): Result<bool, EvalError> {
    if !raw.Text? && !raw.Null? then Err(FactMismatch(cond.field, raw))
    else if !cond.value.Text? then Err(OperandMismatch(cond.field))
    else
      var fv, cv := if raw.Text? then raw.text else "", cond.value.text;
      match cond.op
      case Eq => Ok(fv == cv)
      case Ne => Ok(fv != cv)
      case Contains => Ok(HasPart(fv, cv))
      case StartsWith => Ok(cv <= fv)
      case EndsWith => Ok(HasSuffix(fv, cv))
      case _ => Err(UnsupportedOp(cond.field, cond.op))
  }

  function EvalBool(cond: Condition, raw: Value): Result<bool, EvalError> {
    if !raw.Bool? && !raw.Null? then Err(FactMismatch(cond.field, raw))
    else if !cond.value.Bool? then Err(OperandMismatch(cond.field))
    else
      var fv := raw.Bool? && raw.flag;
      match cond.op
      case Eq => Ok(fv == cond.value.flag)
      case Ne => Ok(fv != cond.value.flag)
      case _ => Err(UnsupportedOp(cond.field, cond.op))
  }

  /** The `in` scan: it stops at the first match, and a non-string met before that panics. */
  function EvalIn(fv: string, items: seq<Value>): Result<bool, EvalError> {
    if items == [] then Ok(false)
    else if !items[0].Text? then Err(Panic)
    else if fv == items[0].text then Ok(true)
    else EvalIn(fv, items[1..])
  }

  function EvalEnum(cond: Condition, raw: Value): Result<bool, EvalError> {
    if !raw.Text? && !raw.Null? then Err(FactMismatch(cond.field, raw))
    else
      var fv := if raw.Text? then raw.text else "";
      match cond.op
      case Eq => if cond.value.Text? then Ok(fv == cond.value.text) else Err(Panic)
      case Ne => if cond.value.Text? then Ok(fv != cond.value.text) else Err(Panic)
      case In => if cond.value.List? then EvalIn(fv, cond.value.items) else Err(Panic)
      case _ => Err(UnsupportedOp(cond.field, cond.op))
  }

  function EvalCondition(cond: Condition, node: string, rule: string, schema: Schema, facts: Facts): Result<bool, EvalError> {
    match Kind(schema, cond.field)
    case NumberField => EvalNumber(cond, Fact(facts, cond.field))
    case StringField => EvalString(cond, Fact(facts, cond.field))
    case BooleanField => EvalBool(cond, Fact(facts, cond.field))
    case EnumField => EvalEnum(cond, Fact(facts, cond.field))
    case OtherField(_) => Err(UnknownFieldType(node, rule))
  }

  // ---------- One rule ----------

  function EvalConditions(conds: seq<Condition>, node: string, rule: string, schema: Schema, facts: Facts): Result<bool, EvalError> {
    if conds == [] then Ok(true)
    else
      match EvalCondition(conds[0], node, rule, schema, facts)
      case Err(e) => Err(e)
      case Ok(holds) => if holds then EvalConditions(conds[1..], node, rule, schema, facts) else Ok(false)
  }

  /** A rule matches exactly when each of its conditions holds. */
  lemma {:induction false} MatchIsConjunction(conds: seq<Condition>, node: string, rule: string, schema: Schema, facts: Facts)
    ensures EvalConditions(conds, node, rule, schema, facts) == Ok(true)
       <==> forall i | 0 <= i < |conds| :: EvalCondition(conds[i], node, rule, schema, facts) == Ok(true)
  {
    if conds != [] {
      MatchIsConjunction(conds[1..], node, rule, schema, facts);
      assert forall i | 1 <= i < |conds| :: conds[i] == conds[1..][i - 1];
    }
  }

  /** The i-th condition decides: all before it hold, and it does not hold or fails. */
  ghost predicate DecidesAt(conds: seq<Condition>, node: string, rule: string, schema: Schema, facts: Facts, i: int, r: Result<bool, EvalError>) {
    && 0 <= i < |conds| && r != Ok(true)
    && EvalCondition(conds[i], node, rule, schema, facts) == r
    && forall j | 0 <= j < i :: EvalCondition(conds[j], node, rule, schema, facts) == Ok(true)
  }

  /** A rule misses, or fails with an error, exactly when the first condition that does not hold does. */
  lemma {:induction false} FirstConditionDecides(conds: seq<Condition>, node: string, rule: string, schema: Schema, facts: Facts, r: Result<bool, EvalError>)
    requires r != Ok(true)
    ensures EvalConditions(conds, node, rule, schema, facts) == r <==> exists i :: DecidesAt(conds, node, rule, schema, facts, i, r)
  {
    if conds != [] {
      var rest := conds[1..];
      FirstConditionDecides(rest, node, rule, schema, facts, r);
      assert forall j | 1 <= j < |conds| :: conds[j] == rest[j - 1];
      if EvalCondition(conds[0], node, rule, schema, facts) == Ok(true) {
        if i :| DecidesAt(rest, node, rule, schema, facts, i, r) {
          assert DecidesAt(conds, node, rule, schema, facts, i + 1, r);
        }
        if i :| DecidesAt(conds, node, rule, schema, facts, i, r) {
          assert DecidesAt(rest, node, rule, schema, facts, i - 1, r);
        }
      } else {
        assert EvalConditions(conds, node, rule, schema, facts) == r ==> DecidesAt(conds, node, rule, schema, facts, 0, r);
      }
    }
  }

  // ---------- One node ----------

  datatype NodeResult = NodeResult(output: Facts, trace: seq<Entry>)

  datatype Firing = Firing(matched: bool, output: Facts, trace: seq<Entry>)

  function RuleEntry(node: string, rule: Rule, matched: bool): Entry {
    Entry(rule.id, rule.name, node, matched)
  }

  /** What one rule adds, followed by what the remaining rules add. */
  function Then(before: Firing, rest: Result<Firing, EvalError>): Result<Firing, EvalError> {
    match rest
    case Err(e) => Err(e)
    case Ok(f) => Ok(Firing(before.matched || f.matched, before.output + f.output, before.trace + f.trace))
  }

  function FireRule(node: string, rule: Rule, matched: bool): Firing {
    Firing(matched, if matched then rule.outputs else map[], [RuleEntry(node, rule, matched)])
  }

  const NOTHING := Firing(false, map[], [])

  function FirstMatching(node: string, rules: seq<Rule>, schema: Schema, facts: Facts): Result<Firing, EvalError> {
    if rules == [] then Ok(NOTHING)
    else
      match EvalConditions(rules[0].conditions, node, rules[0].id, schema, facts)
      case Err(e) => Err(e)
      case Ok(matched) =>
        if matched then Ok(FireRule(node, rules[0], true))
        else Then(FireRule(node, rules[0], false), FirstMatching(node, rules[1..], schema, facts))
  }

  function AllMatching(node: string, rules: seq<Rule>, schema: Schema, facts: Facts): Result<Firing, EvalError> {
    if rules == [] then Ok(NOTHING)
    else
      match EvalConditions(rules[0].conditions, node, rules[0].id, schema, facts)
      case Err(e) => Err(e)
      case Ok(matched) => Then(FireRule(node, rules[0], matched), AllMatching(node, rules[1..], schema, facts))
  }

  lemma ThenUnit(r: Result<Firing, EvalError>)
    ensures Then(NOTHING, r) == r
  {
    if r.Ok? {
      assert [] + r.value.trace == r.value.trace;
      assert map[] + r.value.output == r.value.output;
    }
  }

  lemma ThenAssociative(a: Firing, b: Firing, r: Result<Firing, EvalError>)
    ensures Then(a, Ok(b)).Ok?
    ensures Then(a, Then(b, r)) == Then(Then(a, Ok(b)).value, r)
  {
    if r.Ok? {
      assert a.output + (b.output + r.value.output) == (a.output + b.output) + r.value.output;
      assert a.trace + (b.trace + r.value.trace) == (a.trace + b.trace) + r.value.trace;
    }
  }

  function Fire(node: RuleNode, schema: Schema, facts: Facts): Result<Firing, EvalError> {
    match node.strategy
    case FirstMatch => FirstMatching(node.id, node.rules, schema, facts)
    case AllMatches => AllMatching(node.id, node.rules, schema, facts)
    case OtherStrategy(_) => Ok(Firing(false, map[], []))
  }

  function NodeOutcome(node: RuleNode, schema: Schema, facts: Facts): Result<NodeResult, EvalError> {
    match Fire(node, schema, facts)
    case Err(e) => Err(e)
    case Ok(f) => Ok(NodeResult(if f.matched then f.output else node.default, f.trace))
  }

  // ---------- Where a node's output comes from ----------

  ghost predicate Matches(rule: Rule, node: string, schema: Schema, facts: Facts) {
    EvalConditions(rule.conditions, node, rule.id, schema, facts) == Ok(true)
  }

  ghost predicate Misses(rule: Rule, node: string, schema: Schema, facts: Facts) {
    EvalConditions(rule.conditions, node, rule.id, schema, facts) == Ok(false)
  }

  /** The entry gives the rule's id and name, the node's id, and whether all the rule's conditions hold. */
  ghost predicate Records(e: Entry, node: string, rule: Rule, schema: Schema, facts: Facts) {
    && e.ruleId == rule.id && e.ruleName == rule.name && e.nodeId == node
    && (e.matched <==> forall i | 0 <= i < |rule.conditions| :: EvalCondition(rule.conditions[i], node, rule.id, schema, facts) == Ok(true))
  }

  lemma RuleEntryRecords(node: string, rule: Rule, schema: Schema, facts: Facts)
    ensures Records(RuleEntry(node, rule, Matches(rule, node, schema, facts)), node, rule, schema, facts)
  {
    MatchIsConjunction(rule.conditions, node, rule.id, schema, facts);
  }

  /** The first rule that matches supplies the whole output, and the trace stops there. */
  ghost predicate FirstMatchReport(node: RuleNode, schema: Schema, facts: Facts, r: NodeResult) {
    && |r.trace| <= |node.rules|
    && (forall i | 0 <= i < |r.trace| :: Records(r.trace[i], node.id, node.rules[i], schema, facts))
    && (forall i | 0 <= i < |r.trace| - 1 :: Misses(node.rules[i], node.id, schema, facts))
    && if r.trace != [] && r.trace[|r.trace| - 1].matched then r.output == node.rules[|r.trace| - 1].outputs
       else |r.trace| == |node.rules| && r.output == node.default
  }

  /** The value under a key is the one the last matching rule that writes the key gives it. */
  ghost predicate LastWriter(rules: seq<Rule>, node: string, schema: Schema, facts: Facts, key: string, i: int) {
    && 0 <= i < |rules|
    && Matches(rules[i], node, schema, facts) && key in rules[i].outputs
    && (forall j | i < j < |rules| && Matches(rules[j], node, schema, facts) :: key !in rules[j].outputs)
  }

  ghost predicate AllMatchesReport(node: RuleNode, schema: Schema, facts: Facts, r: NodeResult) {
    && |r.trace| == |node.rules|
    && (forall i | 0 <= i < |r.trace| :: Records(r.trace[i], node.id, node.rules[i], schema, facts))
    && (forall i | 0 <= i < |node.rules| :: Matches(node.rules[i], node.id, schema, facts) || Misses(node.rules[i], node.id, schema, facts))
    && if exists i | 0 <= i < |node.rules| :: Matches(node.rules[i], node.id, schema, facts) then
         && (forall k | k in r.output :: exists i :: LastWriter(node.rules, node.id, schema, facts, k, i) && r.output[k] == node.rules[i].outputs[k])
         && (forall i, k | 0 <= i < |node.rules| && Matches(node.rules[i], node.id, schema, facts) && k in node.rules[i].outputs :: k in r.output)
       else r.output == node.default
  }

  ghost predicate NodeReport(node: RuleNode, schema: Schema, facts: Facts, r: NodeResult) {
    match node.strategy
    case FirstMatch => FirstMatchReport(node, schema, facts, r)
    case AllMatches => AllMatchesReport(node, schema, facts, r)
    case OtherStrategy(_) => r == NodeResult(node.default, [])
  }

  lemma {:induction false} FirstMatchingReport(node: string, rules: seq<Rule>, schema: Schema, facts: Facts)
    requires FirstMatching(node, rules, schema, facts).Ok?
    ensures var f := FirstMatching(node, rules, schema, facts).value;
      && |f.trace| <= |rules|
      && (forall i | 0 <= i < |f.trace| :: f.trace[i] == RuleEntry(node, rules[i], Matches(rules[i], node, schema, facts)))
      && (forall i | 0 <= i < |f.trace| - 1 :: Misses(rules[i], node, schema, facts))
      && (f.matched <==> f.trace != [] && f.trace[|f.trace| - 1].matched)
      && (f.matched ==> f.output == rules[|f.trace| - 1].outputs)
      && (!f.matched ==> |f.trace| == |rules|)
  {
    if rules != [] && Misses(rules[0], node, schema, facts) {
      FirstMatchingReport(node, rules[1..], schema, facts);
      var f, rest := FirstMatching(node, rules, schema, facts).value, FirstMatching(node, rules[1..], schema, facts).value;
      assert f.trace == [RuleEntry(node, rules[0], false)] + rest.trace;
      forall i | 1 <= i < |f.trace| ensures f.trace[i] == rest.trace[i - 1] && rules[i] == rules[1..][i - 1] {
      }
    }
  }

  lemma {:induction false} AllMatchingTrace(node: string, rules: seq<Rule>, schema: Schema, facts: Facts)
    requires AllMatching(node, rules, schema, facts).Ok?
    ensures var f := AllMatching(node, rules, schema, facts).value;
      && |f.trace| == |rules|
      && (forall i | 0 <= i < |f.trace| :: f.trace[i] == RuleEntry(node, rules[i], Matches(rules[i], node, schema, facts)))
      && (forall i | 0 <= i < |rules| :: Matches(rules[i], node, schema, facts) || Misses(rules[i], node, schema, facts))
      && (f.matched <==> exists i | 0 <= i < |rules| :: Matches(rules[i], node, schema, facts))
  {
    if rules != [] {
      AllMatchingTrace(node, rules[1..], schema, facts);
      assert forall i | 1 <= i < |rules| :: rules[i] == rules[1..][i - 1];
    }
  }

  lemma {:induction false} AllMatchingWriter(node: string, rules: seq<Rule>, schema: Schema, facts: Facts, k: string)
    requires AllMatching(node, rules, schema, facts).Ok?
    requires k in AllMatching(node, rules, schema, facts).value.output
    ensures exists i :: LastWriter(rules, node, schema, facts, k, i)
                     && AllMatching(node, rules, schema, facts).value.output[k] == rules[i].outputs[k]
  {
    var g := AllMatching(node, rules[1..], schema, facts);
    if k in g.value.output {
      AllMatchingWriter(node, rules[1..], schema, facts, k);
      var i :| LastWriter(rules[1..], node, schema, facts, k, i) && g.value.output[k] == rules[1..][i].outputs[k];
      assert forall j | 1 <= j < |rules| :: rules[j] == rules[1..][j - 1];
      assert LastWriter(rules, node, schema, facts, k, i + 1);
    } else {
      forall j | 0 < j < |rules| && Matches(rules[j], node, schema, facts) ensures k !in rules[j].outputs {
        assert rules[j] == rules[1..][j - 1];
        if k in rules[j].outputs {
          AllMatchingKeys(node, rules[1..], schema, facts, j - 1, k);
        }
      }
      assert LastWriter(rules, node, schema, facts, k, 0);
    }
  }

  lemma {:induction false} AllMatchingKeys(node: string, rules: seq<Rule>, schema: Schema, facts: Facts, i: nat, k: string)
    requires AllMatching(node, rules, schema, facts).Ok?
    requires i < |rules| && Matches(rules[i], node, schema, facts) && k in rules[i].outputs
    ensures k in AllMatching(node, rules, schema, facts).value.output
  {
    if i > 0 {
      AllMatchingKeys(node, rules[1..], schema, facts, i - 1, k);
    }
  }

  /** Every node evaluated without error reports as its strategy says. */
  lemma NodeOutcomeReport(node: RuleNode, schema: Schema, facts: Facts)
    requires NodeOutcome(node, schema, facts).Ok?
    ensures NodeReport(node, schema, facts, NodeOutcome(node, schema, facts).value)
  {
    forall i | 0 <= i < |node.rules|
      ensures Records(RuleEntry(node.id, node.rules[i], Matches(node.rules[i], node.id, schema, facts)), node.id, node.rules[i], schema, facts)
    {
      RuleEntryRecords(node.id, node.rules[i], schema, facts);
    }
    match node.strategy
    case FirstMatch => FirstMatchingReport(node.id, node.rules, schema, facts);
    case AllMatches =>
      AllMatchingTrace(node.id, node.rules, schema, facts);
      var r := NodeOutcome(node, schema, facts).value;
      if exists i | 0 <= i < |node.rules| :: Matches(node.rules[i], node.id, schema, facts) {
        forall k | k in r.output
          ensures exists i :: LastWriter(node.rules, node.id, schema, facts, k, i) && r.output[k] == node.rules[i].outputs[k]
        {
          AllMatchingWriter(node.id, node.rules, schema, facts, k);
        }
        forall i, k | 0 <= i < |node.rules| && Matches(node.rules[i], node.id, schema, facts) && k in node.rules[i].outputs
          ensures k in r.output
        {
          AllMatchingKeys(node.id, node.rules, schema, facts, i, k);
        }
      }
    case OtherStrategy(_) =>
  }

  /** The i-th rule fails: under first_match no rule before it matches, under all_matches none before it fails. */
  ghost predicate RuleFailsAt(strategy: Strategy, node: string, rules: seq<Rule>, schema: Schema, facts: Facts, i: int, e: EvalError) {
    && 0 <= i < |rules| && !strategy.OtherStrategy?
    && EvalConditions(rules[i].conditions, node, rules[i].id, schema, facts) == Err(e)
    && forall j | 0 <= j < i :: Misses(rules[j], node, schema, facts) || (strategy.AllMatches? && Matches(rules[j], node, schema, facts))
  }

  lemma {:induction false} FirstMatchingFails(node: string, rules: seq<Rule>, schema: Schema, facts: Facts, e: EvalError)
    ensures FirstMatching(node, rules, schema, facts) == Err(e) <==> exists i :: RuleFailsAt(FirstMatch, node, rules, schema, facts, i, e)
  {
    if rules != [] {
      FirstMatchingFails(node, rules[1..], schema, facts, e);
      RuleFailsNext(FirstMatch, node, rules, schema, facts, e);
    }
  }

  lemma {:induction false} AllMatchingFails(node: string, rules: seq<Rule>, schema: Schema, facts: Facts, e: EvalError)
    ensures AllMatching(node, rules, schema, facts) == Err(e) <==> exists i :: RuleFailsAt(AllMatches, node, rules, schema, facts, i, e)
  {
    if rules != [] {
      AllMatchingFails(node, rules[1..], schema, facts, e);
      RuleFailsNext(AllMatches, node, rules, schema, facts, e);
    }
  }

  lemma RuleFailsNext(strategy: Strategy, node: string, rules: seq<Rule>, schema: Schema, facts: Facts, e: EvalError)
    requires rules != [] && !strategy.OtherStrategy?
    ensures (exists i :: RuleFailsAt(strategy, node, rules, schema, facts, i, e))
       <==> || EvalConditions(rules[0].conditions, node, rules[0].id, schema, facts) == Err(e)
            || (&& (Misses(rules[0], node, schema, facts) || (strategy.AllMatches? && Matches(rules[0], node, schema, facts)))
                && exists i :: RuleFailsAt(strategy, node, rules[1..], schema, facts, i, e))
  {
    var rest := rules[1..];
    assert forall j | 1 <= j < |rules| :: rules[j] == rest[j - 1];
    if i :| RuleFailsAt(strategy, node, rules, schema, facts, i, e) {
      if i > 0 {
        assert RuleFailsAt(strategy, node, rest, schema, facts, i - 1, e);
      }
    }
    if EvalConditions(rules[0].conditions, node, rules[0].id, schema, facts) == Err(e) {
      assert RuleFailsAt(strategy, node, rules, schema, facts, 0, e);
    }
    if Misses(rules[0], node, schema, facts) || (strategy.AllMatches? && Matches(rules[0], node, schema, facts)) {
      if i :| RuleFailsAt(strategy, node, rest, schema, facts, i, e) {
        assert RuleFailsAt(strategy, node, rules, schema, facts, i + 1, e);
      }
    }
  }

  /** A node fails exactly when a rule it comes to fails, and with that rule's error. */
  lemma NodeFailsIff(node: RuleNode, schema: Schema, facts: Facts, e: EvalError)
    ensures NodeOutcome(node, schema, facts) == Err(e) <==> exists i :: RuleFailsAt(node.strategy, node.id, node.rules, schema, facts, i, e)
  {
    match node.strategy
    case FirstMatch => FirstMatchingFails(node.id, node.rules, schema, facts, e);
    case AllMatches => AllMatchingFails(node.id, node.rules, schema, facts, e);
    case OtherStrategy(_) =>
  }

  // ---------- The loops of evalNode ----------

  /** Copying one map's entries over another, in whatever order the runtime yields them. */
  method CopyInto(dst: Facts, src: Facts) returns (r: Facts)
    ensures r == dst + src
  {
    r := dst;
    var rest := src.Keys;
    while rest != {}
      invariant rest <= src.Keys
      invariant r == dst + map k | k in src && k !in rest :: src[k]
      decreases rest
    {
      var k :| k in rest;
      r := r[k := src[k]];
      rest := rest - {k};
    }
  }

  method EvalFirstMatch(node: RuleNode, schema: Schema, facts: Facts) returns (r: Result<Firing, EvalError>)
    ensures r == FirstMatching(node.id, node.rules, schema, facts)
  {
    var before := NOTHING;
    ThenUnit(FirstMatching(node.id, node.rules, schema, facts));
    assert node.rules[0..] == node.rules;
    for i := 0 to |node.rules|
      invariant FirstMatching(node.id, node.rules, schema, facts) == Then(before, FirstMatching(node.id, node.rules[i..], schema, facts))
      invariant !before.matched && before.output == map[]
    {
      var rule := node.rules[i];
      assert node.rules[i..][0] == rule && node.rules[i..][1..] == node.rules[i + 1..];
      match EvalConditions(rule.conditions, node.id, rule.id, schema, facts)
      case Err(e) => return Err(e);
      case Ok(matched) =>
        ThenAssociative(before, FireRule(node.id, rule, matched), FirstMatching(node.id, node.rules[i + 1..], schema, facts));
        var trace := before.trace + [RuleEntry(node.id, rule, matched)];
        if matched {
          var output := CopyInto(map[], rule.outputs);
          return Ok(Firing(true, output, trace));
        }
        assert map[] + map[] == before.output;
        before := Firing(false, map[], trace);
    }
    assert before.output + map[] == before.output && before.trace + [] == before.trace;
    return Ok(before);
  }

  method EvalAllMatches(node: RuleNode, schema: Schema, facts: Facts) returns (r: Result<Firing, EvalError>)
    ensures r == AllMatching(node.id, node.rules, schema, facts)
  {
    var before := NOTHING;
    ThenUnit(AllMatching(node.id, node.rules, schema, facts));
    assert node.rules[0..] == node.rules;
    for i := 0 to |node.rules|
      invariant AllMatching(node.id, node.rules, schema, facts) == Then(before, AllMatching(node.id, node.rules[i..], schema, facts))
    {
      var rule := node.rules[i];
      assert node.rules[i..][0] == rule && node.rules[i..][1..] == node.rules[i + 1..];
      match EvalConditions(rule.conditions, node.id, rule.id, schema, facts)
      case Err(e) => return Err(e);
      case Ok(matched) =>
        ThenAssociative(before, FireRule(node.id, rule, matched), AllMatching(node.id, node.rules[i + 1..], schema, facts));
        var output := before.output;
        if matched {
          output := CopyInto(output, rule.outputs);
        }
        assert before.output + map[] == before.output;
        before := Firing(before.matched || matched, output, before.trace + [RuleEntry(node.id, rule, matched)]);
    }
    assert before.output + map[] == before.output && before.trace + [] == before.trace;
    return Ok(before);
  }

  method EvalNode(node: RuleNode, schema: Schema, facts: Facts) returns (r: Result<NodeResult, EvalError>)
    ensures r == NodeOutcome(node, schema, facts)
  {
    var fired;
    match node.strategy {
      case FirstMatch => fired := EvalFirstMatch(node, schema, facts);
      case AllMatches => fired := EvalAllMatches(node, schema, facts);
      case OtherStrategy(_) => fired := Ok(Firing(false, map[], []));
    }
    match fired
    case Err(e) => return Err(e);
    case Ok(f) =>
      if f.matched {
        return Ok(NodeResult(f.output, f.trace));
      }
      var output := CopyInto(map[], node.default);
      assert map[] + node.default == node.default;
      return Ok(NodeResult(output, f.trace));
  }
}
