/** What the operators of the rule language mean, whatever the code's branches look like. */
module Operators {
  import opened Wrappers
  import opened Values
  import opened Dsl
  import opened Conditions

  /** Whether a test of a fact against an operand holds. */
  predicate StringTest(op: Op, fact: string, operand: string) {
    EvalString(Condition("", op, Text(operand)), Text(fact)) == Ok(true)
  }

  predicate EnumTest(op: Op, fact: string, operand: Value) {
    EvalEnum(Condition("", op, operand), Text(fact)) == Ok(true)
  }

  ghost predicate Splits(s: string, before: string, part: string, after: string) {
    s == before + part + after
  }

  ghost predicate CutAnywhere(s: string, part: string) {
    exists before, after :: Splits(s, before, part, after)
  }

  ghost predicate CutAtStart(s: string, part: string) {
    exists after :: Splits(s, "", part, after)
  }

  ghost predicate CutAtEnd(s: string, part: string) {
    exists before :: Splits(s, before, part, "")
  }

  /** The substring tests say where the operand can be cut out of the fact. */
  lemma ContainsCuts(fact: string, operand: string)
    ensures StringTest(Contains, fact, operand) <==> CutAnywhere(fact, operand)
  {
    if before, after :| Splits(fact, before, operand, after) {
      assert fact[|before|..|before| + |operand|] == operand;
      assert PartAt(fact, operand, |before|);
    }
    if i :| 0 <= i <= |fact| && PartAt(fact, operand, i) {
      assert Splits(fact, fact[..i], operand, fact[i + |operand|..]);
    }
  }

  lemma StartsWithCuts(fact: string, operand: string)
    ensures StringTest(StartsWith, fact, operand) <==> CutAtStart(fact, operand)
  {
    if operand <= fact {
      assert Splits(fact, "", operand, fact[|operand|..]);
    }
  }

  lemma EndsWithCuts(fact: string, operand: string)
    ensures StringTest(EndsWith, fact, operand) <==> CutAtEnd(fact, operand)
  {
    if HasSuffix(fact, operand) {
      assert Splits(fact, fact[..|fact| - |operand|], operand, "");
    }
    if before :| Splits(fact, before, operand, "") {
      assert fact == before + operand && fact[|before|..] == operand;
    }
  }

  lemma {:induction false} InScans(fact: string, items: seq<Value>)
    requires forall v | v in items :: v.Text?
    ensures EvalIn(fact, items) == Ok(Text(fact) in items)
  {
    if items != [] {
      InScans(fact, items[1..]);
      assert items == [items[0]] + items[1..];
    }
  }

  /** On a list of strings `in` holds exactly when `eq` holds of one of them. */
  lemma InIsSomeEq(fact: string, items: seq<Value>)
    requires forall v | v in items :: v.Text?
    ensures EnumTest(In, fact, List(items)) <==> exists v :: v in items && EnumTest(Eq, fact, v)
    ensures EvalEnum(Condition("", In, List(items)), Text(fact)).Ok?
  {
    InScans(fact, items);
    assert EvalEnum(Condition("", In, List(items)), Text(fact)) == EvalIn(fact, items);
    forall v | v in items ensures EnumTest(Eq, fact, v) <==> v == Text(fact) {
    }
  }

  /** A boolean is tested by comparing flags, and an absent or null one counts as false. */
  lemma BoolTestsCompare(flag: bool, operand: bool)
    ensures EvalBool(Condition("", Eq, Bool(operand)), Bool(flag)) == Ok(flag == operand)
    ensures EvalBool(Condition("", Ne, Bool(operand)), Bool(flag)) == Ok(flag != operand)
    ensures forall op :: EvalBool(Condition("", op, Bool(operand)), Null) == EvalBool(Condition("", op, Bool(operand)), Bool(false))
  {
  }

  /** An enum's `ne` is the negation of its `eq`. */
  lemma EnumNeNegatesEq(fact: string, operand: string)
    ensures EnumTest(Eq, fact, Text(operand)) <==> fact == operand
    ensures EnumTest(Ne, fact, Text(operand)) <==> !EnumTest(Eq, fact, Text(operand))
    ensures EvalEnum(Condition("", Ne, Text(operand)), Text(fact)).Ok?
  {
  }

  // ---------- One meaning for all types ----------

  /** What an operator says of a fact and an operand, without regard to the field's type. */
  ghost predicate Holds(op: Op, fact: Value, operand: Value) {
    match op
    case Eq => fact == operand
    case Ne => fact != operand
    case Gt => fact.Number? && operand.Number? && fact.number > operand.number
    case Gte => fact.Number? && operand.Number? && fact.number >= operand.number
    case Lt => fact.Number? && operand.Number? && fact.number < operand.number
    case Lte => fact.Number? && operand.Number? && fact.number <= operand.number
    case Contains => fact.Text? && operand.Text? && CutAnywhere(fact.text, operand.text)
    case StartsWith => fact.Text? && operand.Text? && CutAtStart(fact.text, operand.text)
    case EndsWith => fact.Text? && operand.Text? && CutAtEnd(fact.text, operand.text)
    case In => operand.List? && fact in operand.items
    case OtherOp(_) => false
  }

  lemma StringMeaning(cond: Condition, fact: string)
    requires cond.value.Text? && OpAllowed(StringField, cond.op)
    ensures EvalString(cond, Text(fact)) == Ok(Holds(cond.op, Text(fact), cond.value))
  {
    ContainsCuts(fact, cond.value.text);
    StartsWithCuts(fact, cond.value.text);
    EndsWithCuts(fact, cond.value.text);
    assert EvalString(cond, Text(fact)) == EvalString(Condition("", cond.op, cond.value), Text(fact));
  }

  lemma EnumMeaning(cond: Condition, fact: string, options: seq<string>)
    requires OpAllowed(EnumField, cond.op)
    requires if cond.op.In? then cond.value.List? && forall v | v in cond.value.items :: IsOption(v, options) else cond.value.Text?
    ensures EvalEnum(cond, Text(fact)) == Ok(Holds(cond.op, Text(fact), cond.value))
  {
    if cond.op.In? {
      InScans(fact, cond.value.items);
    }
  }

  /**
    Any accepted condition, tested on a fact of the field's type or an absent one, evaluates to
    what its operator says of the fact as read and the operand.
    */
  lemma ConditionMeaning(cond: Condition, node: string, rule: string, schema: Schema, extra: set<string>, facts: Facts)
    requires ConditionOk(cond, schema, extra)
    requires Fits(schema[cond.field].kind, if cond.field in facts then facts[cond.field] else Null)
    ensures var raw := if cond.field in facts then facts[cond.field] else Null;
      EvalCondition(cond, node, rule, schema, facts) == Ok(Holds(cond.op, Read(schema[cond.field].kind, raw), cond.value))
  {
    var fd := schema[cond.field];
    var raw := if cond.field in facts then facts[cond.field] else Null;
    match fd.kind
    case NumberField =>
    case BooleanField =>
    case StringField => StringMeaning(cond, Read(StringField, raw).text);
    case EnumField => EnumMeaning(cond, Read(EnumField, raw).text, fd.options);
  }
}
