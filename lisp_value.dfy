/** The data of the SICP Lisp interpreter (rust/sicp-lisp/src/sexp.rs and
    value.rs): the expressions the reader produces, the values evaluation
    produces, and the `Debug` printer `display` uses. */
module LispValue {
  /** `Sexp`: what the reader produces. Integers are `i64` in the source;
      here they are unbounded. */
  datatype Sexp =
    | Nil
    | Integer(n: int)
    | Symbol(name: string)
    | Pair(car: Sexp, cdr: Sexp)

  /** The closures `Environment::new` installs, one tag per name. */
  datatype Primitive =
    | Add | Subtract | Multiply | Divide
    | Cons | Car | Cdr | Display
    | Less | Greater | Equal | LessEqual | GreaterEqual
    | IsNull

  /** `Value`. A compound procedure refers to the environment it captured
      by its index in the arena of frames (see LispEnvironment). */
  datatype Value =
    | Nil
    | Symbol(name: string)
    | Integer(n: int)
    | Pair(car: Value, cdr: Value)
    | PrimitiveProcedure(primitive: Primitive)
    | CompoundProcedure(body: seq<Sexp>, parameters: seq<string>, environment: nat)

  /** `Value::ok`, `Value::t` and `Value::f`. */
  function Ok(): (r: Value)
    ensures r.Symbol? && r.name == "ok"
  {
    Value.Symbol("ok")
  }

  function True(): (r: Value)
    ensures r.Symbol? && r.name == "true"
  {
    Value.Symbol("true")
  }

  function False(): (r: Value)
    ensures r.Symbol? && r.name == "false"
  {
    Value.Symbol("false")
  }

  // ---------------------------------------------------------------------------
  // The printer
  // ---------------------------------------------------------------------------

  function Digit(d: nat): (c: char)
    requires d < 10
    ensures '0' <= c <= '9' && c as int - '0' as int == d
  {
    ('0' as int + d) as char
  }

  /** The decimal digits of `n`, without leading zeros. */
  function Natural(n: nat): (s: string)
    ensures s != []
    ensures forall i :: 0 <= i < |s| ==> '0' <= s[i] <= '9'
    ensures s[0] == '0' ==> n == 0
  {
    if n < 10 then [Digit(n)] else Natural(n / 10) + [Digit(n % 10)]
  }

  /** `{}` on an integer: an optional minus sign, then the digits. */
  function Decimal(n: int): (s: string)
    ensures s != []
  {
    if n < 0 then "-" + Natural(-n) else Natural(n)
  }

  /** `Debug for Value`. */
  function Print(v: Value): string
  {
    match v
    case Nil => "nil"
    case Symbol(s) => s
    case Integer(n) => Decimal(n)
    case Pair(car, cdr) => "(" + Print(car) + " . " + Print(cdr) + ")"
    case PrimitiveProcedure(_) => "#<primitive procedure>"
    case CompoundProcedure(_, _, _) => "#<procedure>"
  }

  /** The number a string of decimal digits denotes. */
  function DigitsValue(s: string): int
  {
    if s == [] then 0 else DigitsValue(s[..|s| - 1]) * 10 + (s[|s| - 1] as int - '0' as int)
  }

  /** Reads back what `Decimal` writes. */
  function ReadDecimal(s: string): int
  {
    if s != [] && s[0] == '-' then -DigitsValue(s[1..]) else DigitsValue(s)
  }

  lemma {:induction false} NaturalValue(n: nat)
    ensures DigitsValue(Natural(n)) == n
  {
    if n >= 10 {
      var s := Natural(n);
      NaturalValue(n / 10);
      assert s[..|s| - 1] == Natural(n / 10);
    }
  }

  /** An integer is printed so that it reads back as itself. */
  lemma DecimalRoundTrip(n: int)
    ensures ReadDecimal(Decimal(n)) == n
  {
    if n < 0 {
      NaturalValue(-n);
      assert Decimal(n)[1..] == Natural(-n);
    } else {
      NaturalValue(n);
    }
  }

  /** Different integers print differently. */
  lemma DecimalInjective(m: int, n: int)
    requires Decimal(m) == Decimal(n)
    ensures m == n
  {
    DecimalRoundTrip(m);
    DecimalRoundTrip(n);
  }

  /** A value whose symbols are non-empty and do not start with `(`, as
      the reader produces them. */
  predicate ReadableSymbols(v: Value)
  {
    match v
    case Symbol(s) => s != [] && s[0] != '('
    case Pair(car, cdr) => ReadableSymbols(car) && ReadableSymbols(cdr)
    case _ => true
  }

  /** Only a pair prints with an opening parenthesis, and every value
      prints as something. */
  lemma PrintPairBracket(v: Value)
    requires ReadableSymbols(v)
    ensures Print(v) != []
    ensures Print(v)[0] == '(' <==> v.Pair?
  {
    match v
    case Integer(n) =>
      if n < 0 {
        assert Print(v)[0] == '-';
      } else {
        assert Print(v)[0] == Natural(n)[0];
      }
    case _ =>
  }

  /** `(display (cons 1 nil))` shows `(1 . nil)`. */
  lemma PrintPairExample()
    ensures Print(Value.Pair(Value.Integer(1), Value.Nil)) == "(1 . nil)"
  {
  }
}
