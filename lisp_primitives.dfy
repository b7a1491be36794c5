/** The primitive procedures `Environment::new` installs in the global
    frame (rust/sicp-lisp/src/environment.rs:69-224). Each closure is named
    by its `Primitive` tag; a panic is `None`. */
module LispPrimitives {
  import opened Wrappers
  import opened LispValue

  /** The name each primitive is installed under. */
  function Name(p: Primitive): string
  {
    match p
    case Add => "+"
    case Subtract => "-"
    case Multiply => "*"
    case Divide => "/"
    case Cons => "cons"
    case Car => "car"
    case Cdr => "cdr"
    case Display => "display"
    case Less => "<"
    case Greater => ">"
    case Equal => "="
    case LessEqual => "<="
    case GreaterEqual => ">="
    case IsNull => "null?"
  }

  /** The primitives in the order `new` defines them. */
  const Installed: seq<Primitive> :=
    [Add, Subtract, Multiply, Divide, Cons, Car, Cdr, Display,
     Less, Greater, Equal, LessEqual, GreaterEqual, IsNull]

  /** Defining each primitive of `ps` in turn under its name. */
  function Install(ps: seq<Primitive>): (m: map<string, Value>)
    ensures forall x :: x in m ==> m[x].PrimitiveProcedure? && Name(m[x].primitive) == x
  {
    if ps == [] then map[]
    else Install(ps[..|ps| - 1])[Name(ps[|ps| - 1]) := Value.PrimitiveProcedure(ps[|ps| - 1])]
  }

  /** The bindings of the global frame: every primitive under its name,
      and nothing else. */
  function Primitives(): (m: map<string, Value>)
    ensures forall p: Primitive :: Name(p) in m && m[Name(p)] == Value.PrimitiveProcedure(p)
    ensures forall x :: x in m ==> m[x].PrimitiveProcedure? && Name(m[x].primitive) == x
  {
    var m := Install(Installed);
    forall p: Primitive ensures Name(p) in m && m[Name(p)] == Value.PrimitiveProcedure(p) {
      AllInstalled(p);
      InstallHas(Installed, p);
    }
    m
  }

  /** `new` defines every primitive. */
  lemma AllInstalled(p: Primitive)
    ensures p in Installed
  {
    var i := match p
      case Add => 0 case Subtract => 1 case Multiply => 2 case Divide => 3
      case Cons => 4 case Car => 5 case Cdr => 6 case Display => 7
      case Less => 8 case Greater => 9 case Equal => 10 case LessEqual => 11
      case GreaterEqual => 12 case IsNull => 13;
    assert Installed[i] == p;
  }

  /** A primitive listed in `ps` is bound to itself. */
  lemma {:induction false} InstallHas(ps: seq<Primitive>, p: Primitive)
    requires p in ps
    ensures Name(p) in Install(ps) && Install(ps)[Name(p)] == Value.PrimitiveProcedure(p)
    decreases |ps|
  {
    var n := |ps| - 1;
    if ps[n] != p {
      assert p in ps[..n] by {
        var i :| 0 <= i < |ps| && ps[i] == p;
        assert ps[..n][i] == p;
      }
      InstallHas(ps[..n], p);
      if Name(ps[n]) == Name(p) {
        NamesDistinct(ps[n], p);
      }
    }
  }

  // ---------------------------------------------------------------------------
  // Arithmetic
  // ---------------------------------------------------------------------------

  predicate IsArithmetic(p: Primitive)
  {
    p.Add? || p.Subtract? || p.Multiply? || p.Divide?
  }

  function Abs(n: int): nat
  {
    if n < 0 then -n else n
  }

  /** `i64 /`: the quotient rounded toward zero (Dafny's `/` is Euclidean). */
  function TruncDiv(a: int, b: int): int
    requires b != 0
  {
    if (a < 0) == (b < 0) then Abs(a) / Abs(b) else -(Abs(a) / Abs(b))
  }

  /** One `result op= n`; `None` is the division-by-zero panic. */
  function Step(op: Primitive, acc: int, n: int): Option<int>
    requires IsArithmetic(op)
  {
    match op
    case Add => Some(acc + n)
    case Subtract => Some(acc - n)
    case Multiply => Some(acc * n)
    case Divide => if n == 0 then None else Some(TruncDiv(acc, n))
  }

  /** The accumulator loop over `args`, left to right, from `acc`; a
      non-integer argument panics. */
  function Fold(op: Primitive, acc: int, args: seq<Value>): Option<int>
    requires IsArithmetic(op)
    decreases |args|
  {
    if args == [] then Some(acc)
    else if !args[0].Integer? then None
    else
      var next := Step(op, acc, args[0].n);
      if next.None? then None else Fold(op, next.value, args[1..])
  }

  /** `+` folds from 0; `-`, `*` and `/` start from `args[0]`, which must
      exist and be an integer. */
  function Arithmetic(op: Primitive, args: seq<Value>): Option<int>
    requires IsArithmetic(op)
  {
    if op.Add? then Fold(op, 0, args)
    else if args == [] then None
    else if !args[0].Integer? then None
    else Fold(op, args[0].n, args[1..])
  }

  /** The closures' loops, in place. */
  method ArithmeticLoop(op: Primitive, args: seq<Value>) returns (r: Option<int>)
    requires IsArithmetic(op)
    ensures r == Arithmetic(op, args)
  {
    var result: int;
    var start: nat;
    if op.Add? {
      result, start := 0, 0;
    } else {
      if args == [] || !args[0].Integer? {
        return None;
      }
      result, start := args[0].n, 1;
    }
    assert args[start..] == if op.Add? then args else args[1..];
    for i := start to |args|
      invariant Fold(op, result, args[i..]) == Arithmetic(op, args)
    {
      if !args[i].Integer? {
        return None;
      }
      var n := args[i].n;
      if op.Add? {
        result := result + n;
      } else if op.Subtract? {
        result := result - n;
      } else if op.Multiply? {
        result := result * n;
      } else {
        if n == 0 {
          return None;
        }
        result := TruncDiv(result, n);
      }
      assert args[i..][1..] == args[i + 1..];
    }
    return Some(result);
  }

  // ---------------------------------------------------------------------------
  // The other primitives
  // ---------------------------------------------------------------------------

  predicate IsComparison(p: Primitive)
  {
    p.Less? || p.Greater? || p.Equal? || p.LessEqual? || p.GreaterEqual?
  }

  /** The relation a comparison primitive tests. */
  function Compare(p: Primitive, lhs: int, rhs: int): bool
  {
    match p
    case Less => lhs < rhs
    case Greater => lhs > rhs
    case Equal => lhs == rhs
    case LessEqual => lhs <= rhs
    case GreaterEqual => lhs >= rhs
    case _ => false
  }

  function Truth(b: bool): Value
  {
    if b then True() else False()
  }

  /** Calling a primitive; `None` is a panic. */
  function ApplyPrimitive(p: Primitive, args: seq<Value>): Option<Value>
  {
    match p
    case Add | Subtract | Multiply | Divide =>
      var n := Arithmetic(p, args);
      if n.None? then None else Some(Value.Integer(n.value))
    case Cons => if |args| != 2 then None else Some(Value.Pair(args[0], args[1]))
    case Car => if args != [] && args[0].Pair? then Some(args[0].car) else None
    case Cdr => if args != [] && args[0].Pair? then Some(args[0].cdr) else None
    case Display => if |args| != 1 then None else Some(Value.Nil)
    case Less | Greater | Equal | LessEqual | GreaterEqual =>
      if |args| != 2 then None
      else if args[0].Integer? && args[1].Integer? then Some(Truth(Compare(p, args[0].n, args[1].n)))
      else None
    case IsNull => if |args| != 1 then None else Some(Truth(args[0].Nil?))
  }

  /** The lines a primitive writes to standard output: only `display`. */
  function Shown(p: Primitive, args: seq<Value>): seq<string>
  {
    if p.Display? && |args| == 1 then [Print(args[0])] else []
  }

  // ---------------------------------------------------------------------------
  // What they promise
  // ---------------------------------------------------------------------------

  /** Different primitives are installed under different names. */
  lemma NamesDistinct(p: Primitive, q: Primitive)
    requires Name(p) == Name(q)
    ensures p == q
  {
  }

  predicate AllIntegers(args: seq<Value>)
  {
    forall i :: 0 <= i < |args| ==> args[i].Integer?
  }

  function Sum(args: seq<Value>): int
    requires AllIntegers(args)
  {
    if args == [] then 0 else Sum(args[..|args| - 1]) + args[|args| - 1].n
  }

  function Product(args: seq<Value>): int
    requires AllIntegers(args)
  {
    if args == [] then 1 else Product(args[..|args| - 1]) * args[|args| - 1].n
  }

  lemma {:induction false} SumFold(acc: int, args: seq<Value>)
    requires AllIntegers(args)
    ensures Fold(Add, acc, args) == Some(acc + Sum(args))
    ensures Fold(Subtract, acc, args) == Some(acc - Sum(args))
    decreases |args|
  {
    if args != [] {
      SumFold(acc + args[0].n, args[1..]);
      SumFold(acc - args[0].n, args[1..]);
      SumFront(args);
    }
  }

  lemma {:induction false} SumFront(args: seq<Value>)
    requires AllIntegers(args) && args != []
    ensures Sum(args) == args[0].n + Sum(args[1..])
    decreases |args|
  {
    if |args| > 1 {
      var n := |args| - 1;
      SumFront(args[..n]);
      assert args[..n][1..] == args[1..][..n - 1];
    }
  }

  lemma {:induction false} ProductFold(acc: int, args: seq<Value>)
    requires AllIntegers(args)
    ensures Fold(Multiply, acc, args) == Some(acc * Product(args))
    decreases |args|
  {
    if args != [] {
      ProductFold(acc * args[0].n, args[1..]);
      ProductFront(args);
      assert acc * args[0].n * Product(args[1..]) == acc * (args[0].n * Product(args[1..]));
    }
  }

  lemma {:induction false} ProductFront(args: seq<Value>)
    requires AllIntegers(args) && args != []
    ensures Product(args) == args[0].n * Product(args[1..])
    decreases |args|
  {
    if |args| > 1 {
      var n := |args| - 1;
      ProductFront(args[..n]);
      assert args[..n][1..] == args[1..][..n - 1];
      assert Product(args[1..]) == Product(args[1..][..n - 1]) * args[n].n;
    }
  }

  /** `(+ a b ...)` is the sum of its arguments, and `(+)` is 0. */
  lemma AddIsSum(args: seq<Value>)
    requires AllIntegers(args)
    ensures ApplyPrimitive(Add, args) == Some(Value.Integer(Sum(args)))
  {
    SumFold(0, args);
  }

  /** `(- a b ...)` is `a` minus the sum of the rest, `(* a b ...)` is
      `a` times the product of the rest. */
  lemma SubtractMultiply(args: seq<Value>)
    requires AllIntegers(args) && args != []
    ensures ApplyPrimitive(Subtract, args) == Some(Value.Integer(args[0].n - Sum(args[1..])))
    ensures ApplyPrimitive(Multiply, args) == Some(Value.Integer(args[0].n * Product(args[1..])))
  {
    SumFold(args[0].n, args[1..]);
    ProductFold(args[0].n, args[1..]);
  }

  /** `-`, `*` and `/` index `args[0]`: with no arguments they panic. */
  lemma NoArgumentsPanic(p: Primitive)
    requires IsArithmetic(p) && !p.Add?
    ensures ApplyPrimitive(p, []) == None
  {
  }

  /** A non-integer argument makes every arithmetic primitive panic. */
  lemma {:induction false} NonIntegerPanics(p: Primitive, args: seq<Value>, i: nat)
    requires IsArithmetic(p) && i < |args| && !args[i].Integer?
    ensures ApplyPrimitive(p, args) == None
  {
    if p.Add? {
      FoldPanics(p, 0, args, i);
    } else if i > 0 && args[0].Integer? {
      FoldPanics(p, args[0].n, args[1..], i - 1);
    }
  }

  lemma {:induction false} FoldPanics(p: Primitive, acc: int, args: seq<Value>, i: nat)
    requires IsArithmetic(p) && i < |args| && !args[i].Integer?
    ensures Fold(p, acc, args) == None
    decreases i
  {
    if i > 0 && args[0].Integer? && Step(p, acc, args[0].n).Some? {
      FoldPanics(p, Step(p, acc, args[0].n).value, args[1..], i - 1);
    }
  }

  /** Dividing by a zero argument panics. */
  lemma {:induction false} DivideByZeroPanics(args: seq<Value>, i: nat)
    requires AllIntegers(args) && 0 < i < |args| && args[i].n == 0
    ensures ApplyPrimitive(Divide, args) == None
  {
    DivideFoldPanics(args[0].n, args[1..], i - 1);
  }

  lemma {:induction false} DivideFoldPanics(acc: int, args: seq<Value>, i: nat)
    requires AllIntegers(args) && i < |args| && args[i].n == 0
    ensures Fold(Divide, acc, args) == None
    decreases i
  {
    if i > 0 && args[0].n != 0 {
      DivideFoldPanics(TruncDiv(acc, args[0].n), args[1..], i - 1);
    }
  }

  /** Truncating division: the remainder is smaller than the divisor and
      has the sign of the dividend. */
  lemma TruncDivRemainder(a: int, b: int)
    requires b != 0
    ensures var r := a - TruncDiv(a, b) * b;
            Abs(r) < Abs(b) && (r == 0 || (r < 0) == (a < 0))
  {
    var q := Abs(a) / Abs(b);
    var m := Abs(a) % Abs(b);
    assert Abs(a) == q * Abs(b) + m;
    if a < 0 && b < 0 {
      assert a - TruncDiv(a, b) * b == -m;
    } else if a < 0 {
      assert a - TruncDiv(a, b) * b == -m;
    } else if b < 0 {
      assert a - TruncDiv(a, b) * b == m;
    } else {
      assert a - TruncDiv(a, b) * b == m;
    }
  }

  /** Dividing twice in turn is dividing by the product, rounding toward
      zero. */
  lemma TruncDivTwice(a: int, b: int, c: int)
    requires b != 0 && c != 0
    ensures b * c != 0 && TruncDiv(TruncDiv(a, b), c) == TruncDiv(a, b * c)
  {
    AbsMul(b, c);
    FloorDivTwice(Abs(a), Abs(b), Abs(c));
    var t := TruncDiv(a, b);
    var f := Abs(a) / Abs(b) / Abs(c);
    assert Abs(t) == Abs(a) / Abs(b);
    assert Abs(t) / Abs(c) == f;
    assert Abs(a) / Abs(b * c) == f;
    if f != 0 {
      assert t != 0;
      assert (t < 0) == ((a < 0) != (b < 0));
    }
  }

  lemma AbsMul(b: int, c: int)
    ensures Abs(b * c) == Abs(b) * Abs(c)
    ensures b != 0 && c != 0 ==> b * c != 0 && (b * c < 0 <==> (b < 0) != (c < 0))
  {
    if b < 0 && c < 0 {
      assert b * c == (-b) * (-c);
      MulPositive(-b, -c);
    } else if b < 0 {
      assert b * c == -((-b) * c);
      MulPositive(-b, c);
    } else if c < 0 {
      assert b * c == -(b * (-c));
      MulPositive(b, -c);
    } else {
      MulPositive(b, c);
    }
  }

  lemma MulPositive(x: int, y: int)
    requires x >= 0 && y >= 0
    ensures x * y >= 0 && (x > 0 && y > 0 ==> x * y > 0)
  {
    if x > 0 {
      MulAtLeast(x, y);
    }
  }

  /** `k * d >= d` for `k >= 1` and `d >= 0`. */
  lemma {:induction false} MulAtLeast(k: int, d: int)
    requires k >= 1 && d >= 0
    ensures k * d >= d
    decreases k
  {
    if k > 1 {
      MulAtLeast(k - 1, d);
      assert k * d == (k - 1) * d + d;
    }
  }

  lemma FloorDivTwice(x: int, y: int, z: int)
    requires x >= 0 && y > 0 && z > 0
    ensures y * z > 0 && x / y / z == x / (y * z)
  {
    MulPositive(y, z);
    var q, r := x / y, x % y;
    var q2, r2 := q / z, q % z;
    assert x == q * y + r;
    assert q == q2 * z + r2;
    Regrouped(q2, z, r2, y);
    RemainderBound(r2, z, y, r);
    DivUnique(x, y * z, q2, r2 * y + r);
  }

  lemma Regrouped(q2: int, z: int, r2: int, y: int)
    ensures (q2 * z + r2) * y == q2 * (y * z) + r2 * y
  {
  }

  lemma RemainderBound(r2: int, z: int, y: int, r: int)
    requires 0 <= r2 < z && 0 <= r < y
    ensures 0 <= r2 * y + r < y * z
  {
    MulPositive(r2, y);
    MulPositive(z - 1 - r2, y);
    assert (z - 1 - r2) * y == z * y - y - r2 * y;
  }

  lemma DivUnique(x: int, d: int, q: int, r: int)
    requires d > 0 && x == q * d + r && 0 <= r < d
    ensures x / d == q
  {
    var q', r' := x / d, x % d;
    assert x == q' * d + r';
    assert (q - q') * d == r' - r;
    if q - q' >= 1 {
      MulAtLeast(q - q', d);
    } else if q' - q >= 1 {
      assert (q' - q) * d == -((q - q') * d);
      MulAtLeast(q' - q, d);
    }
  }

  /** `(/ a b c ...)` with no zero divisor is `a` divided by the product
      of the rest, rounded toward zero. */
  lemma {:induction false} DivideIsQuotient(acc: int, args: seq<Value>)
    requires AllIntegers(args) && forall i :: 0 <= i < |args| ==> args[i].n != 0
    ensures Product(args) != 0
    ensures Fold(Divide, acc, args) == Some(TruncDiv(acc, Product(args)))
    decreases |args|
  {
    if args == [] {
      assert TruncDiv(acc, 1) == acc;
    } else {
      DivideIsQuotient(TruncDiv(acc, args[0].n), args[1..]);
      ProductFront(args);
      TruncDivTwice(acc, args[0].n, Product(args[1..]));
    }
  }

  /** The comparisons take exactly two integers and answer `true` or
      `false` as the relation holds. */
  lemma CompareAnswers(p: Primitive, args: seq<Value>)
    requires IsComparison(p)
    ensures ApplyPrimitive(p, args).Some? <==> |args| == 2 && args[0].Integer? && args[1].Integer?
    ensures ApplyPrimitive(p, args).Some? ==>
              ApplyPrimitive(p, args) == Some(if Compare(p, args[0].n, args[1].n) then True() else False())
  {
  }

  /** `(< a b)` answers `true` exactly when a < b. */
  lemma LessAnswers(a: int, b: int)
    ensures ApplyPrimitive(Less, [Value.Integer(a), Value.Integer(b)]) == Some(Truth(a < b))
    ensures Truth(a < b) == True() <==> a < b
  {
  }

  /** `cons` takes exactly two arguments; `car` and `cdr` give back its
      parts and panic on anything but a pair. */
  lemma PairParts(args: seq<Value>)
    ensures ApplyPrimitive(Cons, args).Some? <==> |args| == 2
    ensures ApplyPrimitive(Car, args).Some? <==> args != [] && args[0].Pair?
    ensures ApplyPrimitive(Cdr, args).Some? <==> args != [] && args[0].Pair?
    ensures |args| == 2 ==>
              var pair := ApplyPrimitive(Cons, args).value;
              ApplyPrimitive(Car, [pair]) == Some(args[0]) && ApplyPrimitive(Cdr, [pair]) == Some(args[1])
  {
  }

  /** `null?` takes one argument and is `true` exactly for nil. */
  lemma NullAnswers(args: seq<Value>)
    ensures ApplyPrimitive(IsNull, args).Some? <==> |args| == 1
    ensures |args| == 1 ==> (ApplyPrimitive(IsNull, args) == Some(True()) <==> args[0].Nil?)
  {
  }

  /** `display` takes one argument, writes it, and returns nil. */
  lemma DisplayWrites(args: seq<Value>)
    ensures ApplyPrimitive(Display, args).Some? <==> |args| == 1
    ensures |args| == 1 ==> ApplyPrimitive(Display, args) == Some(Value.Nil) && Shown(Display, args) == [Print(args[0])]
  {
  }

  /** Only `display` writes anything. */
  lemma OnlyDisplayShows(p: Primitive, args: seq<Value>)
    requires !p.Display?
    ensures Shown(p, args) == []
  {
  }
}
