/** Aggregators: a relational variable paired with the way a data store
    summarises the values it reaches. Equality looks only at the class and the
    variable. A case aggregator wraps another aggregator and a list of
    (operator, compare value, return value) statements. */
module Aggregators {
  import opened Wrappers
  import opened RelVars
  import ParserUtil

  /** A value held in a table cell or written in a case statement. Python's
      ints and floats are both numbers here. */
  datatype Value = NoneVal | Num(x: real) | Str(s: string)

  /** The classes built from a variable alone; `Plain` is the base class. */
  datatype Kind = Plain | NoneKind | Identity | NonRandomChoice | Average | Count | Max

  datatype Class = Of(kind: Kind) | CaseClass

  /** The operator slot of a case statement: an int, a bool (which Python
      also counts as an int, True being 1), or anything else. */
  datatype Operand = IntOp(n: int) | BoolOp(b: bool) | OtherOp

  datatype CaseStatement = CaseStatement(op: Operand, compareVal: Value, returnVal: Value)

  datatype Aggregator =
    | Simple(kind: Kind, relVar: RelVar)
    | Case(agg: Aggregator, cases: seq<CaseStatement>, elseValue: Value)

  // The operator codes, in the order the class enumerates them.
  const EqualsOp := 0
  const NotEqualsOp := 1
  const LessThanOp := 2
  const LessThanOrEqualOp := 3
  const GreaterThanOp := 4
  const GreaterThanOrEqualOp := 5

  const NoCases := "CaseAggregator requires at least one case statement"
  const UnknownOperator := "Unknown operator in case statement"

  function ClassOf(a: Aggregator): Class {
    match a
    case Simple(k, _) => Of(k)
    case Case(_, _, _) => CaseClass
  }

  /** A case aggregator carries the variable of the aggregator it wraps. */
  function VariableOf(a: Aggregator): RelVar {
    match a
    case Simple(_, v) => v
    case Case(inner, _, _) => VariableOf(inner)
  }

  /** `Aggregator.__init__`: the variable is parsed from its argument. */
  function MakeAggregator(k: Kind, o: Obj): (r: Result<Aggregator>)
    ensures r.Ok? <==> ParserUtil.ParseRelVar(o).Ok?
    ensures r.Ok? ==> ClassOf(r.value) == Of(k) && VariableOf(r.value) == ParserUtil.ParseRelVar(o).value
    ensures r.Err? ==> r.msg == ParserUtil.ParseRelVar(o).msg
  {
    var v :- ParserUtil.ParseRelVar(o);
    Ok(Simple(k, v))
  }

  /** `isinstance(x, c)`: every aggregator is an instance of the base class. */
  predicate IsInstance(x: Aggregator, c: Class) {
    ClassOf(x) == c || c == Of(Plain)
  }

  /** `a == b`: `b` is an instance of `a`'s class and the variables agree. */
  predicate Equal(a: Aggregator, b: Aggregator) {
    IsInstance(b, ClassOf(a)) && VariableOf(a) == VariableOf(b)
  }

  /** Between two aggregators neither of which is the base class, equality is
      exactly same class and same variable, and so it is symmetric. */
  lemma EqualIff(a: Aggregator, b: Aggregator)
    requires ClassOf(a) != Of(Plain) && ClassOf(b) != Of(Plain)
    ensures Equal(a, b) <==> ClassOf(a) == ClassOf(b) && VariableOf(a) == VariableOf(b)
    ensures Equal(a, b) <==> Equal(b, a)
  {
  }

  /** A base-class aggregator equals every aggregator on its variable, but a
      subclass instance never equals a base-class one: equality is not
      symmetric once the base class is involved. */
  lemma PlainEqualityOneSided(v: RelVar, k: Kind)
    requires k != Plain
    ensures Equal(Simple(Plain, v), Simple(k, v))
    ensures !Equal(Simple(k, v), Simple(Plain, v))
  {
  }

  /** Two case aggregators over the same variable are equal whatever their
      statements and default values. */
  lemma CaseEqualityIgnoresStatements(a: Aggregator, b: Aggregator)
    requires a.Case? && b.Case? && VariableOf(a.agg) == VariableOf(b.agg)
    ensures Equal(a, b)
  {
  }

  predicate KnownOperator(op: Operand) {
    match op
    case IntOp(n) => EqualsOp <= n <= GreaterThanOrEqualOp
    case BoolOp(_) => true
    case OtherOp => false
  }

  /** The integer a known operator stands for. */
  function OperatorCode(op: Operand): (c: int)
    requires KnownOperator(op)
    ensures EqualsOp <= c <= GreaterThanOrEqualOp
    ensures op.BoolOp? ==> (c == NotEqualsOp <==> op.b)
  {
    match op
    case IntOp(n) => n
    case BoolOp(b) => if b then NotEqualsOp else EqualsOp
  }

  /** `CaseAggregator.__init__`: at least one statement, and every operator
      known, checked in order. */
  function MakeCase(agg: Aggregator, cases: seq<CaseStatement>, elseValue: Value): (r: Result<Aggregator>)
    ensures |cases| == 0 ==> r == Err(NoCases)
    ensures r.Ok? <==> |cases| > 0 && forall i :: 0 <= i < |cases| ==> KnownOperator(cases[i].op)
    ensures r.Err? ==> r.msg == NoCases || r.msg == UnknownOperator
    ensures r.Ok? ==> ClassOf(r.value) == CaseClass && VariableOf(r.value) == VariableOf(agg)
                      && r.value.cases == cases && r.value.elseValue == elseValue
  {
    if |cases| == 0 then Err(NoCases)
    else if exists i :: 0 <= i < |cases| && !KnownOperator(cases[i].op) then Err(UnknownOperator)
    else Ok(Case(agg, cases, elseValue))
  }
}
