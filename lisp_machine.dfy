/** The evaluator of rust/sicp-lisp/src/eval.rs as the source runs it:
    environments mutated in place, `while let` cursor loops over lists,
    vectors pushed to. Every method is proved to end as the functions of
    LispEval say. */
module LispMachine {
  import opened Wrappers
  import opened LispValue
  import opened LispPrimitives
  import opened LispEnvironment
  import S = LispEval

  /** How a method's evaluation ended: the state it ends in is the
      interpreter's own. */
  datatype Reply<T> = Returned(value: T) | Panicked | Exhausted

  /** The `Result` a reply and the interpreter's state stand for. */
  function Observe<T>(r: Reply<T>, s: S.State): S.Result<T>
  {
    match r
    case Returned(v) => S.Done(v, s)
    case Panicked => S.Panic
    case Exhausted => S.OutOfFuel
  }

  /** The lambda arm's first loop: the symbols among the parameters. */
  method Parameters(p: Sexp) returns (parameters: seq<string>)
    ensures parameters == S.Symbols(p)
  {
    parameters := [];
    var next := p;
    while next.Pair?
      invariant parameters + S.Symbols(next) == S.Symbols(p)
      decreases next
    {
      if next.car.Symbol? {
        parameters := parameters + [next.car.name];
      }
      next := next.cdr;
    }
  }

  /** The lambda arm's second loop: the body forms. */
  method Body(b: Sexp) returns (body: seq<Sexp>)
    ensures body == S.Elements(b)
  {
    body := [];
    var next := b;
    while next.Pair?
      invariant body + S.Elements(next) == S.Elements(b)
      decreases next
    {
      body := body + [next.car];
      next := next.cdr;
    }
  }

  class Interpreter {
    const arena: Arena
    var output: seq<string>

    function Current(): S.State
      reads this, arena
    {
      S.State(arena.frames, output)
    }

    /** A run starts from `Environment::new` and has written nothing. */
    constructor ()
      ensures Current() == S.State(Global(), []) && fresh(arena)
    {
      arena := new Arena();
      output := [];
    }

    /** `eval`. */
    method Eval(exp: Sexp, env: nat, fuel: nat) returns (r: Reply<Value>)
      requires S.Ready(Current(), env)
      modifies this, arena
      ensures Observe(r, Current()) == S.Eval(exp, env, old(Current()), fuel)
      decreases fuel, 1, 0
    {
      if fuel == 0 {
        return Exhausted;
      }
      match S.Classify(exp)
      case SelfEvaluating(v) =>
        r := Returned(v);
      case Variable(x) =>
        var v := Lookup(arena.frames, env, x);
        r := if v.None? then Panicked else Returned(v.value);
      case Assignment(x, e) =>
        r := EvalAssignment(x, e, env, fuel - 1);
      case Definition(x, e) =>
        r := EvalDefinition(x, e, env, fuel - 1);
      case Conditional(test, c, a) =>
        r := EvalIf(test, c, a, env, fuel - 1);
      case Sequence(actions) =>
        r := EvalSequence(actions, env, fuel - 1);
      case Lambda(p, b) =>
        var parameters := Parameters(p);
        var body := Body(b);
        r := Returned(Value.CompoundProcedure(body, parameters, env));
      case Application(operator, operands) =>
        r := EvalApplication(operator, operands, env, fuel - 1);
    }

    /** The `set!` arm. */
    method EvalAssignment(x: string, e: Sexp, env: nat, fuel: nat) returns (r: Reply<Value>)
      requires S.Ready(Current(), env)
      modifies this, arena
      ensures Observe(r, Current()) == S.EvalAssignment(x, e, env, old(Current()), fuel)
      decreases fuel, 2, 0
    {
      var v := Eval(e, env, fuel);
      if !v.Returned? {
        return if v.Panicked? then Panicked else Exhausted;
      }
      var ok := arena.Set(env, x, v.value);
      r := if ok.None? then Panicked else Returned(ok.value);
    }

    /** The `define` arm. */
    method EvalDefinition(x: string, e: Sexp, env: nat, fuel: nat) returns (r: Reply<Value>)
      requires S.Ready(Current(), env)
      modifies this, arena
      ensures Observe(r, Current()) == S.EvalDefinition(x, e, env, old(Current()), fuel)
      decreases fuel, 2, 0
    {
      var v := Eval(e, env, fuel);
      if !v.Returned? {
        return if v.Panicked? then Panicked else Exhausted;
      }
      var ok := arena.Define(env, x, v.value);
      r := Returned(ok);
    }

    /** The `if` arm. */
    method EvalIf(test: Sexp, c: Sexp, a: Sexp, env: nat, fuel: nat) returns (r: Reply<Value>)
      requires S.Ready(Current(), env)
      modifies this, arena
      ensures Observe(r, Current()) == S.EvalIf(test, c, a, env, old(Current()), fuel)
      decreases fuel, 2, 0
    {
      var v := Eval(test, env, fuel);
      if !v.Returned? {
        return if v.Panicked? then Panicked else Exhausted;
      }
      if S.IsFalse(v.value) {
        r := Eval(a, env, fuel);
      } else {
        r := Eval(c, env, fuel);
      }
    }

    /** `eval_sequence`: the forms along the list, in turn. */
    method EvalSequence(exps: Sexp, env: nat, fuel: nat) returns (r: Reply<Value>)
      requires S.Ready(Current(), env)
      modifies this, arena
      ensures Observe(r, Current()) == S.EvalSequence(S.Elements(exps), env, old(Current()), fuel, Value.Nil)
      decreases fuel, 2, 0
    {
      var result := Value.Nil;
      var p := exps;
      while p.Pair?
        invariant S.Ready(Current(), env) && ValueIn(result, |arena.frames|)
        invariant S.EvalSequence(S.Elements(p), env, Current(), fuel, result) ==
                  S.EvalSequence(S.Elements(exps), env, old(Current()), fuel, Value.Nil)
        decreases p
      {
        assert S.Elements(p)[1..] == S.Elements(p.cdr);
        var v := Eval(p.car, env, fuel);
        if !v.Returned? {
          return if v.Panicked? then Panicked else Exhausted;
        }
        result := v.value;
        p := p.cdr;
      }
      r := Returned(result);
    }

    /** `list_of_values`: the operands along the list, in turn, each value
        pushed to the vector. */
    method ListOfValues(exps: Sexp, env: nat, fuel: nat) returns (r: Reply<seq<Value>>)
      requires S.Ready(Current(), env)
      modifies this, arena
      ensures Observe(r, Current()) == S.ListOfValues(S.Elements(exps), env, old(Current()), fuel, [])
      decreases fuel, 2, 0
    {
      var values := [];
      var p := exps;
      while p.Pair?
        invariant S.Ready(Current(), env) && ValuesIn(values, |arena.frames|)
        invariant S.ListOfValues(S.Elements(p), env, Current(), fuel, values) ==
                  S.ListOfValues(S.Elements(exps), env, old(Current()), fuel, [])
        decreases p
      {
        assert S.Elements(p)[1..] == S.Elements(p.cdr);
        ghost var before := |arena.frames|;
        var v := Eval(p.car, env, fuel);
        if !v.Returned? {
          return if v.Panicked? then Panicked else Exhausted;
        }
        ValuesInGrows(values, before, |arena.frames|);
        values := values + [v.value];
        p := p.cdr;
      }
      r := Returned(values);
    }

    /** `apply`. */
    method Apply(procedure: Value, args: seq<Value>, fuel: nat) returns (r: Reply<Value>)
      requires Valid(arena.frames) && ValueIn(procedure, |arena.frames|) && ValuesIn(args, |arena.frames|)
      modifies this, arena
      ensures Observe(r, Current()) == S.Apply(procedure, args, old(Current()), fuel)
      decreases fuel, 3, 0
    {
      match procedure
      case PrimitiveProcedure(p) =>
        var v: Option<Value>;
        if IsArithmetic(p) {
          var n := ArithmeticLoop(p, args);
          v := if n.None? then None else Some(Value.Integer(n.value));
        } else {
          v := ApplyPrimitive(p, args);
        }
        if v.None? {
          return Panicked;
        }
        output := output + Shown(p, args);
        r := Returned(v.value);
      case CompoundProcedure(body, parameters, captured) =>
        ghost var before := arena.frames;
        var env := arena.Extend(parameters, args, captured);
        if env.None? {
          return Panicked;
        }
        ExtendValid(before, parameters, args, captured);
        r := RunBody(body, env.value, fuel);
      case _ =>
        r := Panicked;
    }

    /** The body loop of `apply`: each form in turn, the last value kept. */
    method RunBody(body: seq<Sexp>, env: nat, fuel: nat) returns (r: Reply<Value>)
      requires S.Ready(Current(), env)
      modifies this, arena
      ensures Observe(r, Current()) == S.EvalSequence(body, env, old(Current()), fuel, Value.Nil)
      decreases fuel, 2, 0
    {
      var result := Value.Nil;
      for i := 0 to |body|
        invariant S.Ready(Current(), env) && ValueIn(result, |arena.frames|)
        invariant S.EvalSequence(body[i..], env, Current(), fuel, result) ==
                  S.EvalSequence(body, env, old(Current()), fuel, Value.Nil)
      {
        assert body[i..][1..] == body[i + 1..];
        var v := Eval(body[i], env, fuel);
        if !v.Returned? {
          return if v.Panicked? then Panicked else Exhausted;
        }
        result := v.value;
      }
      r := Returned(result);
    }

    /** The application arm: operator, operands, then `apply`. */
    method EvalApplication(operator: Sexp, operands: Sexp, env: nat, fuel: nat) returns (r: Reply<Value>)
      requires S.Ready(Current(), env)
      modifies this, arena
      ensures Observe(r, Current()) == S.EvalApplication(operator, operands, env, old(Current()), fuel)
      decreases fuel, 4, 0
    {
      var procedure := Eval(operator, env, fuel);
      if !procedure.Returned? {
        return if procedure.Panicked? then Panicked else Exhausted;
      }
      ghost var before := |arena.frames|;
      var args := ListOfValues(operands, env, fuel);
      if !args.Returned? {
        return if args.Panicked? then Panicked else Exhausted;
      }
      ValueInGrows(procedure.value, before, |arena.frames|);
      r := Apply(procedure.value, args.value, fuel);
    }
  }
}
