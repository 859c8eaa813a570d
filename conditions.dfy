/**
 * The dynamic-masking rule (`ApprovalCondition`) and its `evaluate`: a
 * whitelisted comparison between a requestable's condition value and the
 * rule's threshold. Operands that PHP's `is_numeric` accepts are held as
 * integers and compared numerically; any other operand is compared as text,
 * the way PHP 8 compares a non-numeric string with a string or an integer.
 */
module Conditions {
  import opened Base

  /** A condition operand: numeric (`is_numeric`) or a non-numeric string. */
  datatype Value = Num(n: int) | Text(s: string)

  /** A row of the conditions table. */
  datatype ApprovalCondition = ApprovalCondition(
    approvalId: nat,
    field: string,
    operator: string,
    threshold: Value,
    maxStep: int,
    priority: int)

  /** The only operators `evaluate` interprets. */
  const Operators: set<string> := {"<", ">", "<=", ">=", "==", "!="}

  /** Byte-wise string comparison (`strcmp` sign), shorter prefix first. */
  function LexCompare(a: string, b: string): (r: int)
    ensures -1 <= r <= 1
    ensures r == 0 <==> a == b
    decreases |a|
  {
    if |a| == 0 then (if |b| == 0 then 0 else -1)
    else if |b| == 0 then 1
    else if a[0] < b[0] then -1
    else if a[0] > b[0] then 1
    else
      var r := LexCompare(a[1..], b[1..]);
      assert r == 0 ==> a == [a[0]] + a[1..] == [b[0]] + b[1..] == b;
      assert a == b ==> a[1..] == b[1..];
      r
  }

  /** The text PHP compares when at least one operand is not numeric. */
  function TextOf(v: Value): string {
    match v
    case Num(n) => DecimalString(n)
    case Text(s) => s
  }

  /** Three-way comparison of a value against a threshold. */
  function Compare(a: Value, b: Value): (r: int)
    ensures -1 <= r <= 1
    ensures a.Num? && b.Num? ==> (r < 0 <==> a.n < b.n) && (r == 0 <==> a.n == b.n)
    ensures a.Text? && b.Text? ==> (r == 0 <==> a.s == b.s)
  {
    if a.Num? && b.Num? then
      (if a.n < b.n then -1 else if a.n == b.n then 0 else 1)
    else LexCompare(TextOf(a), TextOf(b))
  }

  /** What each whitelisted operator means on two integers. */
  predicate NumericHolds(op: string, x: int, y: int) {
    (op == "<" && x < y) || (op == ">" && x > y) ||
    (op == "<=" && x <= y) || (op == ">=" && x >= y) ||
    (op == "==" && x == y) || (op == "!=" && x != y)
  }

  /**
   * `ApprovalCondition::evaluate`: does `value` satisfy the rule's operator
   * against its threshold? Unknown operators are false.
   */
  function Evaluate(c: ApprovalCondition, value: Value): (r: bool)
    ensures r ==> c.operator in Operators
    ensures value.Num? && c.threshold.Num? ==>
              (r <==> NumericHolds(c.operator, value.n, c.threshold.n))
  {
    var ord := Compare(value, c.threshold);
    if c.operator == "<" then ord < 0
    else if c.operator == ">" then ord > 0
    else if c.operator == "<=" then ord <= 0
    else if c.operator == ">=" then ord >= 0
    else if c.operator == "==" then ord == 0
    else if c.operator == "!=" then ord != 0
    else false
  }

  /** `!=` is the negation of `==`, and `<`/`>=`, `>`/`<=` are complements. */
  lemma ComplementaryOperators(c: ApprovalCondition, value: Value)
    ensures Evaluate(c.(operator := "!="), value) == !Evaluate(c.(operator := "=="), value)
    ensures Evaluate(c.(operator := ">="), value) == !Evaluate(c.(operator := "<"), value)
    ensures Evaluate(c.(operator := "<="), value) == !Evaluate(c.(operator := ">"), value)
  {
  }

  /** Swapping the two strings flips the comparison. */
  lemma {:induction false} LexCompareAntisymmetric(a: string, b: string)
    ensures LexCompare(a, b) == -LexCompare(b, a)
    decreases |a|
  {
    if |a| > 0 && |b| > 0 && a[0] == b[0] {
      LexCompareAntisymmetric(a[1..], b[1..]);
    }
  }

  /**
   * `<` of a value against a threshold is `>` of the threshold against the
   * value, for text and numbers alike: the comparison is a proper order.
   */
  lemma ConverseOperators(c: ApprovalCondition, value: Value)
    ensures Evaluate(c.(operator := "<"), value)
            == Evaluate(c.(operator := ">", threshold := value), c.threshold)
    ensures Evaluate(c.(operator := "<="), value)
            == Evaluate(c.(operator := ">=", threshold := value), c.threshold)
  {
    if !(value.Num? && c.threshold.Num?) {
      LexCompareAntisymmetric(TextOf(value), TextOf(c.threshold));
    }
  }
}
