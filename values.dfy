/** Cell and literal values, their type names and the comparison operators of `__opMap`. */
module Values {

  /** A cell or literal value; the constructor plays the part of Python's runtime type. */
  datatype Value = Int(i: int) | Str(s: string) | Bool(b: bool)

  /** The name Python's `type(v).__name__` gives the value. */
  function TypeName(v: Value): string
  {
    match v
    case Int(_) => "int"
    case Str(_) => "str"
    case Bool(_) => "bool"
  }

  /** Two values of the same runtime type. */
  predicate SameType(a: Value, b: Value)
  {
    TypeName(a) == TypeName(b)
  }

  /** Python's `<` on strings: lexicographic on code points, a proper prefix being smaller. */
  predicate StrLess(a: string, b: string)
    decreases |a|
  {
    if a == [] then b != []
    else b != [] && (a[0] < b[0] || (a[0] == b[0] && StrLess(a[1..], b[1..])))
  }

  /** Python's `bool` is a subtype of `int`: False counts as 0 and True as 1. */
  predicate Numeric(v: Value)
  {
    v.Int? || v.Bool?
  }

  function Num(v: Value): int
    requires Numeric(v)
  {
    if v.Int? then v.i else if v.b then 1 else 0
  }

  /** Two values Python orders: two strings, or two numbers (an int or a bool each). */
  predicate Comparable(a: Value, b: Value)
  {
    (a.Str? && b.Str?) || (Numeric(a) && Numeric(b))
  }

  /** Python's `==`: numbers compare by value (so True == 1), strings by content, and a string
      never equals a number. */
  predicate Equal(a: Value, b: Value)
  {
    if a.Str? || b.Str? then a == b else Num(a) == Num(b)
  }

  /** Python's `<` on two comparable values (False < True, and 0 < True). Python raises
      TypeError for a string against a number; here that case is false. */
  predicate Less(a: Value, b: Value)
  {
    if a.Str? && b.Str? then StrLess(a.s, b.s)
    else Numeric(a) && Numeric(b) && Num(a) < Num(b)
  }

  /** The six comparison operators of a WHERE clause. */
  datatype Op = Eq | Ne | Gt | Ge | Lt | Le

  /** The operator as it is written in the query and in error messages. */
  function OpSymbol(op: Op): string
  {
    match op
    case Eq => "="
    case Ne => "!="
    case Gt => ">"
    case Ge => ">="
    case Lt => "<"
    case Le => "<="
  }

  /** `__opMap(op, left, right)`: `left op right` with Python's operator semantics. */
  function OpMap(op: Op, left: Value, right: Value): bool
  {
    match op
    case Eq => Equal(left, right)
    case Ne => !Equal(left, right)
    case Gt => Less(right, left)
    case Ge => Less(right, left) || Equal(left, right)
    case Lt => Less(left, right)
    case Le => Less(left, right) || Equal(left, right)
  }

  /** The row test a pushed-down clause applies to the cells of one column:
      `opMap(op, literal, x)` when the literal is written on the left, `opMap(op, x, literal)` otherwise. */
  datatype Test = Test(op: Op, literal: Value, literalOnLeft: bool)

  predicate Passes(t: Test, x: Value)
  {
    if t.literalOnLeft then OpMap(t.op, t.literal, x) else OpMap(t.op, x, t.literal)
  }

  /** String order is a strict total order: exactly one of a < b, a == b, b < a. */
  lemma {:induction false} StrLessTrichotomy(a: string, b: string)
    ensures StrLess(a, b) || a == b || StrLess(b, a)
    ensures !(StrLess(a, b) && StrLess(b, a))
    ensures !StrLess(a, a)
    decreases |a|
  {
    if a != [] && b != [] {
      StrLessTrichotomy(a[1..], b[1..]);
      StrLessTrichotomy(a[1..], a[1..]);
      if a[0] == b[0] && a[1..] == b[1..] {
        assert a == [a[0]] + a[1..] && b == [b[0]] + b[1..];
      }
    } else if a != [] {
      StrLessTrichotomy(a[1..], a[1..]);
    }
  }

  /** String order is transitive. */
  lemma {:induction false} StrLessTransitive(a: string, b: string, c: string)
    requires StrLess(a, b) && StrLess(b, c)
    ensures StrLess(a, c)
    decreases |a|
  {
    if a != [] && a[0] == b[0] && b[0] == c[0] {
      StrLessTransitive(a[1..], b[1..], c[1..]);
    }
  }

  /** On two strings or two numbers the six operators pair up as complements:
      `!=` is not `=`, `>=` is not `<`, `<=` is not `>`, and exactly one of `<`, `=`, `>` holds. */
  lemma OpMapComplements(a: Value, b: Value)
    requires Comparable(a, b)
    ensures OpMap(Ne, a, b) == !OpMap(Eq, a, b)
    ensures OpMap(Ge, a, b) == !OpMap(Lt, a, b)
    ensures OpMap(Le, a, b) == !OpMap(Gt, a, b)
    ensures OpMap(Lt, a, b) || OpMap(Eq, a, b) || OpMap(Gt, a, b)
    ensures !(OpMap(Lt, a, b) && OpMap(Gt, a, b))
  {
    if a.Str? {
      StrLessTrichotomy(a.s, b.s);
    }
  }

  /** On two values of one runtime type, `==` is equality of the values themselves. */
  lemma EqualOnOneType(a: Value, b: Value)
    requires SameType(a, b)
    ensures Comparable(a, b)
    ensures Equal(a, b) <==> a == b
  {
  }

  /** Across `int` and `bool` Python compares numbers: `True == 1`, `False < 1`, `True != 2`;
      a string equals no number. */
  lemma BoolIsNumber()
    ensures OpMap(Eq, Bool(true), Int(1)) && OpMap(Eq, Int(0), Bool(false))
    ensures OpMap(Lt, Bool(false), Int(1)) && OpMap(Ne, Bool(true), Int(2))
    ensures !OpMap(Eq, Str("1"), Int(1)) && !OpMap(Lt, Str("1"), Int(2))
  {
  }
}
