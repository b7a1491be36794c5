/** The evaluator of the SICP Lisp interpreter
    (rust/sicp-lisp/src/eval.rs), as functions of the state a run has
    reached. The source recurses without bound; here every call to `Eval`
    spends one unit of fuel, and running out is a result of its own. */
module LispEval {
  import opened Wrappers
  import opened LispValue
  import opened LispPrimitives
  import opened LispEnvironment

  /** What a run has changed so far: the frames, and the lines `display`
      wrote to standard output. */
  datatype State = State(frames: seq<Frame>, output: seq<string>)

  /** How an evaluation ends: with a value and the state after it, with a
      panic, or with the fuel spent. */
  datatype Result<T> = Done(value: T, state: State) | Panic | OutOfFuel

  /** `env` is an environment of a valid arena. */
  predicate Ready(s: State, env: nat)
  {
    Valid(s.frames) && env < |s.frames|
  }

  /** What evaluation keeps: the arena stays valid, frames are never
      removed and output is only appended to. */
  predicate Grows(s: State, t: State)
  {
    Valid(t.frames) && |s.frames| <= |t.frames| && s.output <= t.output
  }

  lemma GrowsTransitive(s: State, t: State, u: State)
    requires Grows(s, t) && Grows(t, u)
    ensures Grows(s, u)
  {
  }

  // ---------------------------------------------------------------------------
  // The shapes `eval` tells apart
  // ---------------------------------------------------------------------------

  /** The arms of `eval`'s match, in the order it tries them. */
  datatype Form =
    | SelfEvaluating(value: Value)
    | Variable(name: string)
    | Assignment(name: string, expression: Sexp)
    | Definition(name: string, expression: Sexp)
    | Conditional(test: Sexp, consequent: Sexp, alternative: Sexp)
    | Sequence(actions: Sexp)
    | Lambda(parameters: Sexp, body: Sexp)
    | Application(operator: Sexp, operands: Sexp)

  /** `(var val)`: the tail of a `set!` or `define`. */
  predicate IsBinding(tail: Sexp)
  {
    tail.Pair? && tail.car.Symbol? && tail.cdr.Pair? && tail.cdr.cdr.Nil?
  }

  /** `(p c a)`: the tail of an `if`. */
  predicate IsTriple(tail: Sexp)
  {
    tail.Pair? && tail.cdr.Pair? && tail.cdr.cdr.Pair? && tail.cdr.cdr.cdr.Nil?
  }

  /** Which arm of `eval` an expression takes. A keyword whose form has
      the wrong shape falls through to the later arms, down to an
      application of the keyword as a variable. */
  function Classify(exp: Sexp): Form
  {
    match exp
    case Nil => SelfEvaluating(Value.Nil)
    case Integer(n) => SelfEvaluating(Value.Integer(n))
    case Symbol(s) => Variable(s)
    case Pair(head, tail) =>
      if head == Sexp.Symbol("set!") && IsBinding(tail) then Assignment(tail.car.name, tail.cdr.car)
      else if head == Sexp.Symbol("define") && IsBinding(tail) then Definition(tail.car.name, tail.cdr.car)
      else if head == Sexp.Symbol("if") && IsTriple(tail) then Conditional(tail.car, tail.cdr.car, tail.cdr.cdr.car)
      else if head == Sexp.Symbol("begin") then Sequence(tail)
      else if head == Sexp.Symbol("lambda") && tail.Pair? then Lambda(tail.car, tail.cdr)
      else Application(head, tail)
  }

  /** The cars along a list's spine; an improper tail is dropped, as the
      `while let Sexp::Pair` loops drop it. */
  function Elements(list: Sexp): seq<Sexp>
  {
    if list.Pair? then [list.car] + Elements(list.cdr) else []
  }

  /** The names among a lambda's parameters; other elements are skipped. */
  function Symbols(list: Sexp): seq<string>
  {
    if !list.Pair? then []
    else if list.car.Symbol? then [list.car.name] + Symbols(list.cdr)
    else Symbols(list.cdr)
  }

  /** `is_false`: only the symbol `false` is false. */
  predicate IsFalse(v: Value)
  {
    v.Symbol? && v.name == "false"
  }

  // ---------------------------------------------------------------------------
  // eval, eval_sequence, list_of_values, apply
  // ---------------------------------------------------------------------------

  function Eval(exp: Sexp, env: nat, s: State, fuel: nat): (r: Result<Value>)
    requires Ready(s, env)
    ensures r.Done? ==> Grows(s, r.state) && ValueIn(r.value, |r.state.frames|)
    decreases fuel, 1, 0
  {
    if fuel == 0 then OutOfFuel
    else match Classify(exp)
      case SelfEvaluating(v) => Done(v, s)
      case Variable(x) =>
        LookupIn(s.frames, env, x);
        var v := Lookup(s.frames, env, x);
        if v.None? then Panic else Done(v.value, s)
      case Assignment(x, e) => EvalAssignment(x, e, env, s, fuel - 1)
      case Definition(x, e) => EvalDefinition(x, e, env, s, fuel - 1)
      case Conditional(test, c, a) => EvalIf(test, c, a, env, s, fuel - 1)
      case Sequence(actions) => EvalSequence(Elements(actions), env, s, fuel - 1, Value.Nil)
      case Lambda(p, b) => Done(Value.CompoundProcedure(Elements(b), Symbols(p), env), s)
      case Application(operator, operands) => EvalApplication(operator, operands, env, s, fuel - 1)
  }

  /** `(set! x e)`: evaluate `e`, then `env.set`. */
  function EvalAssignment(x: string, e: Sexp, env: nat, s: State, fuel: nat): (r: Result<Value>)
    requires Ready(s, env)
    ensures r.Done? ==> Grows(s, r.state) && ValueIn(r.value, |r.state.frames|)
    decreases fuel, 2, 0
  {
    match Eval(e, env, s, fuel)
    case Done(v, t) =>
      var frames := AfterSet(t.frames, env, x, v);
      if frames.None? then Panic
      else
        SetValid(t.frames, env, x, v);
        Done(Ok(), State(frames.value, t.output))
    case Panic => Panic
    case OutOfFuel => OutOfFuel
  }

  /** `(define x e)`: evaluate `e`, then `env.define`. */
  function EvalDefinition(x: string, e: Sexp, env: nat, s: State, fuel: nat): (r: Result<Value>)
    requires Ready(s, env)
    ensures r.Done? ==> Grows(s, r.state) && ValueIn(r.value, |r.state.frames|)
    decreases fuel, 2, 0
  {
    match Eval(e, env, s, fuel)
    case Done(v, t) =>
      DefineValid(t.frames, env, x, v);
      Done(Ok(), State(AfterDefine(t.frames, env, x, v), t.output))
    case Panic => Panic
    case OutOfFuel => OutOfFuel
  }

  /** `(if test c a)`: evaluate the test, then one branch. */
  function EvalIf(test: Sexp, c: Sexp, a: Sexp, env: nat, s: State, fuel: nat): (r: Result<Value>)
    requires Ready(s, env)
    ensures r.Done? ==> Grows(s, r.state) && ValueIn(r.value, |r.state.frames|)
    decreases fuel, 2, 0
  {
    match Eval(test, env, s, fuel)
    case Done(v, t) =>
      var r := Eval(if IsFalse(v) then a else c, env, t, fuel);
      if r.Done? then GrowsTransitive(s, t, r.state); r else r
    case Panic => Panic
    case OutOfFuel => OutOfFuel
  }

  /** `eval_sequence` and the body loop of `apply`: evaluate each form in
      turn; the result is the last value, `last` if there is none. */
  function EvalSequence(exps: seq<Sexp>, env: nat, s: State, fuel: nat, last: Value): (r: Result<Value>)
    requires Ready(s, env) && ValueIn(last, |s.frames|)
    ensures r.Done? ==> Grows(s, r.state) && ValueIn(r.value, |r.state.frames|)
    decreases fuel, 2, |exps|
  {
    if exps == [] then Done(last, s)
    else match Eval(exps[0], env, s, fuel)
      case Done(v, t) =>
        var r := EvalSequence(exps[1..], env, t, fuel, v);
        if r.Done? then GrowsTransitive(s, t, r.state); r else r
      case Panic => Panic
      case OutOfFuel => OutOfFuel
  }

  /** `list_of_values`: evaluate each operand in turn, appending its value
      to `done`. */
  function ListOfValues(exps: seq<Sexp>, env: nat, s: State, fuel: nat, done: seq<Value>): (r: Result<seq<Value>>)
    requires Ready(s, env) && ValuesIn(done, |s.frames|)
    ensures r.Done? ==> Grows(s, r.state) && ValuesIn(r.value, |r.state.frames|) && |r.value| == |done| + |exps|
    decreases fuel, 2, |exps|
  {
    if exps == [] then Done(done, s)
    else match Eval(exps[0], env, s, fuel)
      case Done(v, t) =>
        ValuesInGrows(done, |s.frames|, |t.frames|);
        var r := ListOfValues(exps[1..], env, t, fuel, done + [v]);
        if r.Done? then GrowsTransitive(s, t, r.state); r else r
      case Panic => Panic
      case OutOfFuel => OutOfFuel
  }

  /** `apply`: a primitive runs its closure; a compound procedure runs its
      body in a frame extending the one it captured; anything else
      panics. */
  function Apply(procedure: Value, args: seq<Value>, s: State, fuel: nat): (r: Result<Value>)
    requires Valid(s.frames) && ValueIn(procedure, |s.frames|) && ValuesIn(args, |s.frames|)
    ensures r.Done? ==> Grows(s, r.state) && ValueIn(r.value, |r.state.frames|)
    decreases fuel, 3, 0
  {
    match procedure
    case PrimitiveProcedure(p) =>
      var v := ApplyPrimitive(p, args);
      if v.None? then Panic
      else
        PrimitiveIn(p, args, |s.frames|);
        Done(v.value, State(s.frames, s.output + Shown(p, args)))
    case CompoundProcedure(body, parameters, captured) =>
      var extended := AfterExtend(s.frames, parameters, args, captured);
      if extended.None? then Panic
      else
        var (frames, env) := extended.value;
        ExtendValid(s.frames, parameters, args, captured);
        var r := EvalSequence(body, env, State(frames, s.output), fuel, Value.Nil);
        if r.Done? then GrowsTransitive(s, State(frames, s.output), r.state); r else r
    case _ => Panic
  }

  /** An application: the operator, then the operands, then `apply`. */
  function EvalApplication(operator: Sexp, operands: Sexp, env: nat, s: State, fuel: nat): (r: Result<Value>)
    requires Ready(s, env)
    ensures r.Done? ==> Grows(s, r.state) && ValueIn(r.value, |r.state.frames|)
    decreases fuel, 4, 0
  {
    match Eval(operator, env, s, fuel)
    case Done(procedure, t) =>
      (match ListOfValues(Elements(operands), env, t, fuel, [])
       case Done(args, u) =>
         ValueInGrows(procedure, |t.frames|, |u.frames|);
         var r := Apply(procedure, args, u, fuel);
         if r.Done? then GrowsTransitive(s, t, u); GrowsTransitive(s, u, r.state); r else r
       case Panic => Panic
       case OutOfFuel => OutOfFuel)
    case Panic => Panic
    case OutOfFuel => OutOfFuel
  }

  /** A primitive's result is made of its arguments, integers and symbols. */
  lemma PrimitiveIn(p: Primitive, args: seq<Value>, n: nat)
    requires ValuesIn(args, n) && ApplyPrimitive(p, args).Some?
    ensures ValueIn(ApplyPrimitive(p, args).value, n)
  {
  }

  // ---------------------------------------------------------------------------
  // What eval promises
  // ---------------------------------------------------------------------------

  /** The proper list of `xs`, as the reader builds `(x0 x1 ...)`. */
  function List(xs: seq<Sexp>): Sexp
  {
    if xs == [] then Sexp.Nil else Sexp.Pair(xs[0], List(xs[1..]))
  }

  /** Walking a proper list gives back its elements. */
  lemma {:induction false} ListElements(xs: seq<Sexp>)
    ensures Elements(List(xs)) == xs
    decreases |xs|
  {
    if xs != [] {
      ListElements(xs[1..]);
    }
  }

  lemma ListCons(x: Sexp, rest: seq<Sexp>)
    ensures List([x] + rest) == Sexp.Pair(x, List(rest))
  {
    assert ([x] + rest)[1..] == rest;
  }

  lemma ListThree(a: Sexp, b: Sexp, c: Sexp)
    ensures List([a, b, c]) == Sexp.Pair(a, Sexp.Pair(b, Sexp.Pair(c, Sexp.Nil)))
  {
    ListCons(c, []);
    ListCons(b, [c]);
    ListCons(a, [b, c]);
    assert [a, b, c] == [a] + [b, c] && [b, c] == [b] + [c] && [c] == [c] + [];
  }

  /** The lambda loop keeps exactly the symbol elements, in order. */
  lemma {:induction false} SymbolsSkip(list: Sexp, x: string)
    ensures x in Symbols(list) <==> Sexp.Symbol(x) in Elements(list)
    ensures |Symbols(list)| <= |Elements(list)|
    ensures |Symbols(list)| == |Elements(list)| <==> forall i :: 0 <= i < |Elements(list)| ==> Elements(list)[i].Symbol?
  {
    if list.Pair? {
      SymbolsSkip(list.cdr, x);
      var es, ds := Elements(list), Elements(list.cdr);
      assert es == [list.car] + ds;
      assert (forall i :: 0 <= i < |es| ==> es[i].Symbol?) <==>
             list.car.Symbol? && (forall i :: 0 <= i < |ds| ==> ds[i].Symbol?) by {
        if forall i :: 0 <= i < |es| ==> es[i].Symbol? {
          assert es[0] == list.car;
          forall i | 0 <= i < |ds| ensures ds[i].Symbol? {
            assert ds[i] == es[i + 1];
          }
        }
        if list.car.Symbol? && forall i :: 0 <= i < |ds| ==> ds[i].Symbol? {
          forall i | 0 <= i < |es| ensures es[i].Symbol? {
            if i > 0 {
              assert es[i] == ds[i - 1];
            }
          }
        }
      }
    }
  }

  /** Nil and integers evaluate to themselves; a symbol to what `lookup`
      finds, panicking when it is unbound. */
  lemma SelfEvaluation(n: int, x: string, env: nat, s: State, fuel: nat)
    requires Ready(s, env) && fuel > 0
    ensures Eval(Sexp.Nil, env, s, fuel) == Done(Value.Nil, s)
    ensures Eval(Sexp.Integer(n), env, s, fuel) == Done(Value.Integer(n), s)
    ensures Eval(Sexp.Symbol(x), env, s, fuel) ==
            if Lookup(s.frames, env, x).None? then Panic else Done(Lookup(s.frames, env, x).value, s)
  {
  }

  /** `(set! x e)` evaluates `e`, then panics exactly when `x` is unbound;
      otherwise it answers `ok`, and `x` is now that value. */
  lemma AssignmentSets(x: string, e: Sexp, env: nat, s: State, fuel: nat)
    requires Ready(s, env)
    ensures var r := Eval(List([Sexp.Symbol("set!"), Sexp.Symbol(x), e]), env, s, fuel + 1);
            match Eval(e, env, s, fuel)
            case Done(v, t) =>
              (r == Panic <==> Lookup(t.frames, env, x).None?) &&
              (r.Done? ==> r.value == Ok() && r.state.output == t.output &&
                           |r.state.frames| == |t.frames| && Lookup(r.state.frames, env, x) == Some(v))
            case Panic => r == Panic
            case OutOfFuel => r == OutOfFuel
  {
    ListThree(Sexp.Symbol("set!"), Sexp.Symbol(x), e);
    match Eval(e, env, s, fuel)
    case Done(v, t) =>
      SetUnbound(t.frames, env, x, v);
      if AfterSet(t.frames, env, x, v).Some? {
        SetBinds(t.frames, env, x, v);
      }
    case Panic =>
    case OutOfFuel =>
  }

  /** `(define x e)` evaluates `e` and answers `ok`; `x` is now that value,
      every other name looks up as before, and no other frame changes. */
  lemma DefinitionBinds(x: string, e: Sexp, y: string, env: nat, s: State, fuel: nat)
    requires Ready(s, env)
    ensures var r := Eval(List([Sexp.Symbol("define"), Sexp.Symbol(x), e]), env, s, fuel + 1);
            match Eval(e, env, s, fuel)
            case Done(v, t) =>
              r.Done? && r.value == Ok() && r.state.output == t.output && |r.state.frames| == |t.frames| &&
              Lookup(r.state.frames, env, x) == Some(v) &&
              (y != x ==> Lookup(r.state.frames, env, y) == Lookup(t.frames, env, y)) &&
              (forall i :: 0 <= i < |t.frames| && i != env ==> r.state.frames[i] == t.frames[i])
            case Panic => r == Panic
            case OutOfFuel => r == OutOfFuel
  {
    ListThree(Sexp.Symbol("define"), Sexp.Symbol(x), e);
    match Eval(e, env, s, fuel)
    case Done(v, t) =>
      DefineBinds(t.frames, env, x, v, y);
    case Panic =>
    case OutOfFuel =>
  }

  /** Only the symbol `false` is false: nil, 0 and every other value are
      true. */
  lemma OnlyFalseIsFalse(v: Value)
    ensures IsFalse(v) <==> v == False()
  {
  }

  /** `(if test c a)` evaluates the test, then exactly one branch: the
      alternative when the test gave `false`, the consequent otherwise. */
  lemma IfChoosesOneBranch(test: Sexp, c: Sexp, a: Sexp, env: nat, s: State, fuel: nat)
    requires Ready(s, env)
    ensures var r := Eval(List([Sexp.Symbol("if"), test, c, a]), env, s, fuel + 1);
            match Eval(test, env, s, fuel)
            case Done(v, t) => r == Eval(if v == False() then a else c, env, t, fuel)
            case Panic => r == Panic
            case OutOfFuel => r == OutOfFuel
  {
    ListThree(test, c, a);
    ListCons(Sexp.Symbol("if"), [test, c, a]);
    assert [Sexp.Symbol("if"), test, c, a] == [Sexp.Symbol("if")] + [test, c, a];
  }

  /** `(begin e1 ... en)` runs the forms in turn; `(begin)` is nil. */
  lemma BeginRunsForms(forms: seq<Sexp>, env: nat, s: State, fuel: nat)
    requires Ready(s, env)
    ensures Eval(List([Sexp.Symbol("begin")] + forms), env, s, fuel + 1) == EvalSequence(forms, env, s, fuel, Value.Nil)
    ensures EvalSequence([], env, s, fuel, Value.Nil) == Done(Value.Nil, s)
  {
    ListCons(Sexp.Symbol("begin"), forms);
    ListElements(forms);
  }

  /** A sequence's value is that of its last form, evaluated after all the
      others. */
  lemma {:induction false} SequenceLast(exps: seq<Sexp>, env: nat, s: State, fuel: nat, last: Value)
    requires Ready(s, env) && ValueIn(last, |s.frames|) && exps != []
    ensures EvalSequence(exps, env, s, fuel, last) ==
            match EvalSequence(exps[..|exps| - 1], env, s, fuel, last)
            case Done(_, t) => Eval(exps[|exps| - 1], env, t, fuel)
            case Panic => Panic
            case OutOfFuel => OutOfFuel
    decreases |exps|
  {
    var n := |exps| - 1;
    if n > 0 {
      match Eval(exps[0], env, s, fuel)
      case Done(v, t) =>
        SequenceLast(exps[1..], env, t, fuel, v);
        assert exps[1..][..n - 1] == exps[..n][1..];
        assert exps[1..][n - 1] == exps[n];
      case Panic =>
      case OutOfFuel =>
    }
  }

  /** `(lambda params body...)` evaluates to a procedure over the symbol
      parameters and the body forms, capturing the current environment. */
  lemma LambdaCaptures(params: Sexp, body: seq<Sexp>, env: nat, s: State, fuel: nat)
    requires Ready(s, env)
    ensures Eval(Sexp.Pair(Sexp.Symbol("lambda"), Sexp.Pair(params, List(body))), env, s, fuel + 1) ==
            Done(Value.CompoundProcedure(body, Symbols(params), env), s)
  {
    ListElements(body);
  }

  /** Operands are evaluated left to right: the last one after all the
      others, its value appended after theirs. */
  lemma {:induction false} OperandsInOrder(exps: seq<Sexp>, e: Sexp, env: nat, s: State, fuel: nat, done: seq<Value>)
    requires Ready(s, env) && ValuesIn(done, |s.frames|)
    ensures ListOfValues(exps + [e], env, s, fuel, done) ==
            match ListOfValues(exps, env, s, fuel, done)
            case Done(vs, t) =>
              (match Eval(e, env, t, fuel)
               case Done(v, u) => Done(vs + [v], u)
               case Panic => Panic
               case OutOfFuel => OutOfFuel)
            case Panic => Panic
            case OutOfFuel => OutOfFuel
    decreases |exps|
  {
    if exps == [] {
      assert [e][1..] == [];
    } else {
      assert (exps + [e])[1..] == exps[1..] + [e];
      match Eval(exps[0], env, s, fuel)
      case Done(v, t) =>
        ValuesInGrows(done, |s.frames|, |t.frames|);
        OperandsInOrder(exps[1..], e, env, t, fuel, done + [v]);
      case Panic =>
      case OutOfFuel =>
    }
  }

  /** An application evaluates the operator first, then the operands, and
      applies the one to the others. */
  lemma ApplicationOrder(operator: Sexp, operands: seq<Sexp>, env: nat, s: State, fuel: nat)
    requires Ready(s, env)
    requires !operator.Symbol? || operator.name !in {"set!", "define", "if", "begin", "lambda"}
    ensures Eval(List([operator] + operands), env, s, fuel + 1) ==
            match Eval(operator, env, s, fuel)
            case Done(procedure, t) =>
              (match ListOfValues(operands, env, t, fuel, [])
               case Done(args, u) =>
                 ValueInGrows(procedure, |t.frames|, |u.frames|);
                 Apply(procedure, args, u, fuel)
               case Panic => Panic
               case OutOfFuel => OutOfFuel)
            case Panic => Panic
            case OutOfFuel => OutOfFuel
  {
    ListCons(operator, operands);
    ListElements(operands);
  }

  /** Applying anything but a procedure panics. */
  lemma ApplyNonProcedure(v: Value, args: seq<Value>, s: State, fuel: nat)
    requires Valid(s.frames) && ValueIn(v, |s.frames|) && ValuesIn(args, |s.frames|)
    requires !v.PrimitiveProcedure? && !v.CompoundProcedure?
    ensures Apply(v, args, s, fuel) == Panic
  {
  }

  /** A compound procedure given more or fewer arguments than it has
      parameters panics. */
  lemma ApplyArity(body: seq<Sexp>, params: seq<string>, captured: nat, args: seq<Value>, s: State, fuel: nat)
    requires Valid(s.frames) && captured < |s.frames| && ValuesIn(args, |s.frames|)
    requires |params| != |args|
    ensures Apply(Value.CompoundProcedure(body, params, captured), args, s, fuel) == Panic
  {
  }

  /** A procedure whose body is its `i`-th parameter returns its `i`-th
      argument, unless a later parameter has the same name. */
  lemma ApplyBindsParameter(params: seq<string>, i: nat, captured: nat, args: seq<Value>, s: State, fuel: nat)
    requires Valid(s.frames) && captured < |s.frames| && ValuesIn(args, |s.frames|)
    requires |params| == |args| && i < |params| && fuel > 0
    requires forall k :: i < k < |params| ==> params[k] != params[i]
    ensures var r := Apply(Value.CompoundProcedure([Sexp.Symbol(params[i])], params, captured), args, s, fuel);
            r.Done? && r.value == args[i]
  {
    var frames := s.frames + [Frame(Bindings(params, args), Some(captured))];
    BindingsLastWins(params, args, i);
    ExtendValid(s.frames, params, args, captured);
    assert Lookup(frames, |s.frames|, params[i]) == Some(args[i]);
    var t := State(frames, s.output);
    assert Eval(Sexp.Symbol(params[i]), |s.frames|, t, fuel) == Done(args[i], t);
    assert [Sexp.Symbol(params[i])][1..] == [];
    assert EvalSequence([Sexp.Symbol(params[i])], |s.frames|, t, fuel, Value.Nil) == Done(args[i], t);
  }

  // ---------------------------------------------------------------------------
  // A whole program
  // ---------------------------------------------------------------------------

  /** `(* x 2)` */
  function Twice(): Sexp
  {
    List([Sexp.Symbol("*"), Sexp.Symbol("x"), Sexp.Integer(2)])
  }

  /** `(lambda (x) (* x 2))` */
  function Doubler(): Sexp
  {
    Sexp.Pair(Sexp.Symbol("lambda"), Sexp.Pair(List([Sexp.Symbol("x")]), List([Twice()])))
  }

  /** The frames once the doubler has been applied to 21. */
  function CallFrames(): seq<Frame>
  {
    Global() + [Frame(map["x" := Value.Integer(21)], Some(0))]
  }

  /** Applying the doubler to 21 extends the global frame with `x = 21`. */
  lemma CallFrame()
    ensures AfterExtend(Global(), ["x"], [Value.Integer(21)], 0) == Some((CallFrames(), 1))
    ensures Valid(CallFrames())
  {
    assert Bindings(["x"], [Value.Integer(21)]) == map["x" := Value.Integer(21)] by {
      assert ["x"][..0] == [] && [Value.Integer(21)][..0] == [];
    }
    ExtendValid(Global(), ["x"], [Value.Integer(21)], 0);
  }

  /** In the call frame, `x` is the argument and `*` the primitive. */
  lemma CallLookups()
    ensures Linked(CallFrames())
    ensures Lookup(CallFrames(), 1, "x") == Some(Value.Integer(21))
    ensures Lookup(CallFrames(), 1, "*") == Some(Value.PrimitiveProcedure(Multiply))
  {
    CallFrame();
    GlobalBindings("*");
    UnchangedPrefix(Global(), CallFrames(), 0, "*");
  }

  /** A single operand whose evaluation changes nothing. */
  lemma OneOperand(e: Sexp, env: nat, s: State, fuel: nat, done: seq<Value>)
    requires Ready(s, env) && ValuesIn(done, |s.frames|)
    requires Eval(e, env, s, fuel).Done? && Eval(e, env, s, fuel).state == s
    ensures ListOfValues([e], env, s, fuel, done) == Done(done + [Eval(e, env, s, fuel).value], s)
  {
    assert [e][1..] == [];
  }

  lemma MultiplyExample()
    ensures ApplyPrimitive(Multiply, [Value.Integer(21), Value.Integer(2)]) == Some(Value.Integer(42))
  {
    assert [Value.Integer(21), Value.Integer(2)][1..] == [Value.Integer(2)];
    assert [Value.Integer(2)][1..] == [];
  }

  /** In the call frame, the operands `x 2` are 21 and 2. */
  lemma TwiceOperands(fuel: nat)
    ensures Valid(CallFrames())
    ensures ListOfValues([Sexp.Symbol("x"), Sexp.Integer(2)], 1, State(CallFrames(), []), fuel + 1, []) ==
            Done([Value.Integer(21), Value.Integer(2)], State(CallFrames(), []))
  {
    CallFrame();
    CallLookups();
    var s1 := State(CallFrames(), []);
    var x, two := Sexp.Symbol("x"), Sexp.Integer(2);
    SelfEvaluation(2, "x", 1, s1, fuel + 1);
    assert Eval(x, 1, s1, fuel + 1) == Done(Value.Integer(21), s1);
    assert Eval(two, 1, s1, fuel + 1) == Done(Value.Integer(2), s1);
    OneOperand(x, 1, s1, fuel + 1, []);
    assert [] + [Value.Integer(21)] == [Value.Integer(21)];
    assert ListOfValues([x], 1, s1, fuel + 1, []) == Done([Value.Integer(21)], s1);
    OperandsInOrder([x], two, 1, s1, fuel + 1, []);
    assert [x] + [two] == [x, two];
    assert [Value.Integer(21)] + [Value.Integer(2)] == [Value.Integer(21), Value.Integer(2)];
  }

  /** The doubler's body, run in its call frame, multiplies 21 by 2. */
  lemma TwiceInCall(fuel: nat)
    ensures Valid(CallFrames())
    ensures Eval(Twice(), 1, State(CallFrames(), []), fuel + 2) == Done(Value.Integer(42), State(CallFrames(), []))
  {
    CallFrame();
    CallLookups();
    var s1 := State(CallFrames(), []);
    var x, times, two := Sexp.Symbol("x"), Sexp.Symbol("*"), Sexp.Integer(2);
    assert [times, x, two] == [times] + [x, two];
    ApplicationOrder(times, [x, two], 1, s1, fuel + 1);
    SelfEvaluation(2, "*", 1, s1, fuel + 1);
    TwiceOperands(fuel);
    MultiplyExample();
  }

  /** The procedure `(lambda (x) (* x 2))` evaluates to. */
  function DoublerProcedure(): Value
  {
    Value.CompoundProcedure([Twice()], ["x"], 0)
  }

  lemma DoublerValue(fuel: nat)
    ensures Eval(Doubler(), 0, State(Global(), []), fuel + 2) == Done(DoublerProcedure(), State(Global(), []))
  {
    var x := Sexp.Symbol("x");
    LambdaCaptures(List([x]), [Twice()], 0, State(Global(), []), fuel + 1);
    assert Symbols(List([x])) == ["x"] by {
      ListCons(x, []);
    }
  }

  lemma ApplyDoubler(fuel: nat)
    ensures Apply(DoublerProcedure(), [Value.Integer(21)], State(Global(), []), fuel + 2) ==
            Done(Value.Integer(42), State(CallFrames(), []))
  {
    CallFrame();
    TwiceInCall(fuel);
    var s1 := State(CallFrames(), []);
    assert [Twice()][1..] == [];
    assert EvalSequence([Twice()], 1, s1, fuel + 2, Value.Nil) == Done(Value.Integer(42), s1);
  }

  /** `((lambda (x) (* x 2)) 21)`, from the global environment, is 42 and
      writes nothing. */
  lemma DoubleExample(fuel: nat)
    ensures var r := Eval(List([Doubler(), Sexp.Integer(21)]), 0, State(Global(), []), fuel + 3);
            r.Done? && r.value == Value.Integer(42) && r.state.output == []
  {
    var s0 := State(Global(), []);
    DoublerValue(fuel);
    SelfEvaluation(21, "x", 0, s0, fuel + 2);
    OneOperand(Sexp.Integer(21), 0, s0, fuel + 2, []);
    ApplyDoubler(fuel);
    ApplicationOrder(Doubler(), [Sexp.Integer(21)], 0, s0, fuel + 2);
    assert [Doubler(), Sexp.Integer(21)] == [Doubler()] + [Sexp.Integer(21)];
  }
}
