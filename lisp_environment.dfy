/** The environments of the SICP Lisp interpreter
    (rust/sicp-lisp/src/environment.rs). Each `Environment` is a frame of
    bindings with an optional base; frames are shared (`Rc`) and mutated in
    place (`RefCell`), so they live here in an arena: a sequence of frames,
    each naming its base by index. An environment is an index into it. */
module LispEnvironment {
  import opened Wrappers
  import opened LispValue
  import opened LispPrimitives

  datatype Frame = Frame(variables: map<string, Value>, base: Option<nat>)

  /** Every environment `v` refers to is one of the first `n` frames. */
  predicate ValueIn(v: Value, n: nat)
  {
    match v
    case Pair(car, cdr) => ValueIn(car, n) && ValueIn(cdr, n)
    case CompoundProcedure(_, _, environment) => environment < n
    case _ => true
  }

  predicate ValuesIn(vs: seq<Value>, n: nat)
  {
    forall i :: 0 <= i < |vs| ==> ValueIn(vs[i], n)
  }

  /** A frame's base was created before it: walking the bases ends. */
  predicate Linked(frames: seq<Frame>)
  {
    forall i :: 0 <= i < |frames| && frames[i].base.Some? ==> frames[i].base.value < i
  }

  /** No binding refers to a frame that does not exist. */
  predicate Closed(frames: seq<Frame>)
  {
    forall i, x :: 0 <= i < |frames| && x in frames[i].variables ==> ValueIn(frames[i].variables[x], |frames|)
  }

  predicate Valid(frames: seq<Frame>)
  {
    Linked(frames) && Closed(frames)
  }

  lemma {:induction false} ValueInGrows(v: Value, n: nat, m: nat)
    requires ValueIn(v, n) && n <= m
    ensures ValueIn(v, m)
  {
    match v
    case Pair(car, cdr) =>
      ValueInGrows(car, n, m);
      ValueInGrows(cdr, n, m);
    case _ =>
  }

  lemma ValuesInGrows(vs: seq<Value>, n: nat, m: nat)
    requires ValuesIn(vs, n) && n <= m
    ensures ValuesIn(vs, m)
  {
    forall i | 0 <= i < |vs| ensures ValueIn(vs[i], m) {
      ValueInGrows(vs[i], n, m);
    }
  }

  // ---------------------------------------------------------------------------
  // The chain of frames an environment sees
  // ---------------------------------------------------------------------------

  /** The frames `lookup` visits from `env`: `env`, its base, its base's
      base, and so on. */
  function Chain(frames: seq<Frame>, env: nat): (c: seq<nat>)
    requires Linked(frames) && env < |frames|
    ensures c != [] && c[0] == env
    ensures forall i :: 0 <= i < |c| ==> c[i] <= env
    decreases env
  {
    match frames[env].base
    case None => [env]
    case Some(b) => [env] + Chain(frames, b)
  }

  /** The position in `chain` of the first frame that binds `x`. */
  function FirstBinding(frames: seq<Frame>, chain: seq<nat>, x: string): (r: Option<nat>)
    requires forall i :: 0 <= i < |chain| ==> chain[i] < |frames|
    ensures r.Some? ==> r.value < |chain| && x in frames[chain[r.value]].variables
    ensures r.Some? ==> forall i :: 0 <= i < r.value ==> x !in frames[chain[i]].variables
    ensures r.None? ==> forall i :: 0 <= i < |chain| ==> x !in frames[chain[i]].variables
  {
    if chain == [] then None
    else if x in frames[chain[0]].variables then Some(0)
    else match FirstBinding(frames, chain[1..], x)
      case None => None
      case Some(k) => Some(k + 1)
  }

  /** The index of the frame that binds `x` nearest to `env`. */
  function Binder(frames: seq<Frame>, env: nat, x: string): (r: Option<nat>)
    requires Linked(frames) && env < |frames|
    ensures r.Some? ==> r.value <= env && x in frames[r.value].variables
  {
    var chain := Chain(frames, env);
    match FirstBinding(frames, chain, x)
    case None => None
    case Some(k) => Some(chain[k])
  }

  // ---------------------------------------------------------------------------
  // Environment::{empty, define, set, extend, lookup}
  // ---------------------------------------------------------------------------

  /** The arena after `Environment::empty`: a fresh frame with no bindings and no base. */
  function AfterEmpty(frames: seq<Frame>): (r: (seq<Frame>, nat))
    ensures r.1 == |frames| && |r.0| == |frames| + 1 && r.0[..|frames|] == frames
    ensures r.0[r.1].variables == map[] && r.0[r.1].base.None?
  {
    (frames + [Frame(map[], None)], |frames|)
  }

  /** `Environment::lookup`: the value in the nearest frame that binds `x`;
      `None` is the "Unbound variable" panic. */
  function Lookup(frames: seq<Frame>, env: nat, x: string): Option<Value>
    requires Linked(frames) && env < |frames|
    decreases env
  {
    var frame := frames[env];
    if x in frame.variables then Some(frame.variables[x])
    else match frame.base
      case None => None
      case Some(b) => Lookup(frames, b, x)
  }

  /** The arena after `Environment::define`, which inserts or overwrites `x` in the frame `env`
      itself. Its result is always the symbol `ok`. */
  function AfterDefine(frames: seq<Frame>, env: nat, x: string, v: Value): (r: seq<Frame>)
    requires env < |frames|
    ensures |r| == |frames|
  {
    frames[env := frames[env].(variables := frames[env].variables[x := v])]
  }

  /** The arena after `Environment::set`, which overwrites `x` in the nearest frame that binds it;
      `None` is the "Unbound variable" panic when no frame does. */
  function AfterSet(frames: seq<Frame>, env: nat, x: string, v: Value): (r: Option<seq<Frame>>)
    requires Linked(frames) && env < |frames|
    ensures r.Some? ==> |r.value| == |frames|
    decreases env
  {
    var frame := frames[env];
    if x in frame.variables then Some(frames[env := frame.(variables := frame.variables[x := v])])
    else match frame.base
      case None => None
      case Some(b) => AfterSet(frames, b, x, v)
  }

  /** The bindings `extend` inserts, in order: a later duplicate name
      overwrites an earlier one. */
  function Bindings(vars: seq<string>, vals: seq<Value>): map<string, Value>
    requires |vars| == |vals|
  {
    if vars == [] then map[]
    else Bindings(vars[..|vars| - 1], vals[..|vals| - 1])[vars[|vars| - 1] := vals[|vals| - 1]]
  }

  /** The arena after `Environment::extend`: a new frame binding the parameters to the
      arguments, with `base` as its base. `None` is the "Too many arguments"
      or "Too few arguments" panic. */
  function AfterExtend(frames: seq<Frame>, vars: seq<string>, vals: seq<Value>, base: nat): (r: Option<(seq<Frame>, nat)>)
    ensures r.Some? <==> |vars| == |vals|
    ensures r.Some? ==> r.value.1 == |frames| && |r.value.0| == |frames| + 1 && r.value.0[..|frames|] == frames
  {
    if |vars| < |vals| then None
    else if |vars| > |vals| then None
    else Some((frames + [Frame(Bindings(vars, vals), Some(base))], |frames|))
  }

  // ---------------------------------------------------------------------------
  // What they promise
  // ---------------------------------------------------------------------------

  /** `lookup` finds the binding of the nearest frame on the chain. */
  lemma {:induction false} LookupNearest(frames: seq<Frame>, env: nat, x: string)
    requires Linked(frames) && env < |frames|
    ensures Lookup(frames, env, x) ==
            match Binder(frames, env, x)
            case None => None
            case Some(k) => Some(frames[k].variables[x])
    decreases env
  {
    if x !in frames[env].variables {
      match frames[env].base
      case None =>
      case Some(b) =>
        LookupNearest(frames, b, x);
        ChainStep(frames, env, b, x);
    }
  }

  /** Past a frame that does not bind `x`, the binder is its base's. */
  lemma ChainStep(frames: seq<Frame>, env: nat, b: nat, x: string)
    requires Linked(frames) && env < |frames| && frames[env].base == Some(b)
    requires x !in frames[env].variables
    ensures Binder(frames, env, x) == Binder(frames, b, x)
  {
    var chain := Chain(frames, env);
    assert chain[1..] == Chain(frames, b);
  }

  /** What `lookup` finds in a valid arena refers only to existing frames. */
  lemma {:induction false} LookupIn(frames: seq<Frame>, env: nat, x: string)
    requires Valid(frames) && env < |frames|
    ensures Lookup(frames, env, x).Some? ==> ValueIn(Lookup(frames, env, x).value, |frames|)
    decreases env
  {
    if x !in frames[env].variables && frames[env].base.Some? {
      LookupIn(frames, frames[env].base.value, x);
    }
  }

  /** `set` panics exactly when `lookup` does. */
  lemma {:induction false} SetUnbound(frames: seq<Frame>, env: nat, x: string, v: Value)
    requires Linked(frames) && env < |frames|
    ensures AfterSet(frames, env, x, v).None? <==> Lookup(frames, env, x).None?
    decreases env
  {
    if x !in frames[env].variables && frames[env].base.Some? {
      SetUnbound(frames, frames[env].base.value, x, v);
    }
  }

  /** `set` overwrites the binding of the nearest frame that has `x`, and
      nothing else: it never creates a binding. */
  lemma {:induction false} SetNearest(frames: seq<Frame>, env: nat, x: string, v: Value)
    requires Linked(frames) && env < |frames|
    ensures AfterSet(frames, env, x, v) ==
            match Binder(frames, env, x)
            case None => None
            case Some(k) => Some(frames[k := frames[k].(variables := frames[k].variables[x := v])])
    decreases env
  {
    if x !in frames[env].variables {
      match frames[env].base
      case None =>
      case Some(b) =>
        SetNearest(frames, b, x, v);
        ChainStep(frames, env, b, x);
    }
  }

  /** After `define`, `x` is `v` from `env`; every other lookup from `env`
      is unchanged, and so is every frame other than `env`. */
  lemma DefineBinds(frames: seq<Frame>, env: nat, x: string, v: Value, y: string)
    requires Linked(frames) && env < |frames|
    ensures Linked(AfterDefine(frames, env, x, v))
    ensures Lookup(AfterDefine(frames, env, x, v), env, x) == Some(v)
    ensures y != x ==> Lookup(AfterDefine(frames, env, x, v), env, y) == Lookup(frames, env, y)
    ensures forall i :: 0 <= i < |frames| && i != env ==> AfterDefine(frames, env, x, v)[i] == frames[i]
  {
    var r := AfterDefine(frames, env, x, v);
    if y != x && y !in frames[env].variables && frames[env].base.Some? {
      UnchangedBelow(frames, r, frames[env].base.value, y, env);
    }
  }

  /** Lookups from frames created before `changed` do not see a change
      to it. */
  lemma {:induction false} UnchangedBelow(frames: seq<Frame>, r: seq<Frame>, env: nat, y: string, changed: nat)
    requires Linked(frames) && |r| == |frames| && env < changed < |frames|
    requires forall i :: 0 <= i < |frames| && i != changed ==> r[i] == frames[i]
    ensures Linked(r) ==> Lookup(r, env, y) == Lookup(frames, env, y)
    decreases env
  {
    if Linked(r) && y !in frames[env].variables && frames[env].base.Some? {
      UnchangedBelow(frames, r, frames[env].base.value, y, changed);
    }
  }

  /** After `set`, `x` is `v` from `env`. */
  lemma SetBinds(frames: seq<Frame>, env: nat, x: string, v: Value)
    requires Linked(frames) && env < |frames| && AfterSet(frames, env, x, v).Some?
    ensures Linked(AfterSet(frames, env, x, v).value)
    ensures Lookup(AfterSet(frames, env, x, v).value, env, x) == Some(v)
  {
    SetNearest(frames, env, x, v);
    var k := Binder(frames, env, x).value;
    var r := AfterSet(frames, env, x, v).value;
    assert Linked(r);
    SetLookup(frames, r, env, x, v, k);
  }

  lemma {:induction false} SetLookup(frames: seq<Frame>, r: seq<Frame>, env: nat, x: string, v: Value, k: nat)
    requires Linked(frames) && env < |frames| && Binder(frames, env, x) == Some(k)
    requires r == frames[k := frames[k].(variables := frames[k].variables[x := v])]
    requires Linked(r)
    ensures Lookup(r, env, x) == Some(v)
    decreases env
  {
    if env != k {
      assert x !in frames[env].variables;
      var b := frames[env].base.value;
      ChainStep(frames, env, b, x);
      SetLookup(frames, r, b, x, v, k);
    }
  }

  /** A name in `vars` is bound to the argument of its last occurrence. */
  lemma {:induction false} BindingsLastWins(vars: seq<string>, vals: seq<Value>, j: nat)
    requires |vars| == |vals| && j < |vars|
    requires forall k :: j < k < |vars| ==> vars[k] != vars[j]
    ensures vars[j] in Bindings(vars, vals) && Bindings(vars, vals)[vars[j]] == vals[j]
    decreases |vars|
  {
    if j < |vars| - 1 {
      BindingsLastWins(vars[..|vars| - 1], vals[..|vals| - 1], j);
    }
  }

  /** `extend` binds exactly the names in `vars`. */
  lemma {:induction false} BindingsKeys(vars: seq<string>, vals: seq<Value>, x: string)
    requires |vars| == |vals|
    ensures x in Bindings(vars, vals) <==> x in vars
    decreases |vars|
  {
    if vars != [] {
      var n := |vars| - 1;
      BindingsKeys(vars[..n], vals[..n], x);
      assert vars == vars[..n] + [vars[n]];
    }
  }

  /** Every value `extend` binds is one of the arguments. */
  lemma {:induction false} BindingsValues(vars: seq<string>, vals: seq<Value>, n: nat)
    requires |vars| == |vals| && ValuesIn(vals, n)
    ensures forall x :: x in Bindings(vars, vals) ==> ValueIn(Bindings(vars, vals)[x], n)
    decreases |vars|
  {
    if vars != [] {
      var m := |vars| - 1;
      assert ValuesIn(vals[..m], n) by {
        forall i | 0 <= i < m ensures ValueIn(vals[..m][i], n) {
          assert vals[..m][i] == vals[i];
        }
      }
      BindingsValues(vars[..m], vals[..m], n);
    }
  }

  /** Looking up in the frame `extend` creates: a parameter is its
      argument, any other name is looked up from the base. */
  lemma ExtendLookup(frames: seq<Frame>, vars: seq<string>, vals: seq<Value>, base: nat, x: string)
    requires Linked(frames) && base < |frames| && |vars| == |vals|
    ensures Linked(AfterExtend(frames, vars, vals, base).value.0)
    ensures var (r, env) := AfterExtend(frames, vars, vals, base).value;
            Lookup(r, env, x) ==
            if x in Bindings(vars, vals) then Some(Bindings(vars, vals)[x]) else Lookup(frames, base, x)
  {
    var (r, env) := AfterExtend(frames, vars, vals, base).value;
    assert Linked(r);
    if x !in Bindings(vars, vals) {
      UnchangedPrefix(frames, r, base, x);
    }
  }

  /** Adding frames at the end changes no lookup from an existing frame. */
  lemma {:induction false} UnchangedPrefix(frames: seq<Frame>, r: seq<Frame>, env: nat, x: string)
    requires Linked(frames) && Linked(r) && env < |frames| <= |r| && r[..|frames|] == frames
    ensures Lookup(r, env, x) == Lookup(frames, env, x)
    decreases env
  {
    assert r[env] == frames[env];
    if x !in frames[env].variables && frames[env].base.Some? {
      UnchangedPrefix(frames, r, frames[env].base.value, x);
    }
  }

  /** `define`, `set` and `extend` keep the arena valid when what they
      store refers only to existing frames. */
  lemma DefineValid(frames: seq<Frame>, env: nat, x: string, v: Value)
    requires Valid(frames) && env < |frames| && ValueIn(v, |frames|)
    ensures Valid(AfterDefine(frames, env, x, v))
  {
  }

  lemma SetValid(frames: seq<Frame>, env: nat, x: string, v: Value)
    requires Valid(frames) && env < |frames| && ValueIn(v, |frames|) && AfterSet(frames, env, x, v).Some?
    ensures Valid(AfterSet(frames, env, x, v).value)
  {
    SetNearest(frames, env, x, v);
  }

  lemma ExtendValid(frames: seq<Frame>, vars: seq<string>, vals: seq<Value>, base: nat)
    requires Valid(frames) && base < |frames| && |vars| == |vals| && ValuesIn(vals, |frames|)
    ensures Valid(AfterExtend(frames, vars, vals, base).value.0)
  {
    var r := AfterExtend(frames, vars, vals, base).value.0;
    var n := |frames|;
    forall k | 0 <= k < |vals| ensures ValueIn(vals[k], n + 1) {
      ValueInGrows(vals[k], n, n + 1);
    }
    BindingsValues(vars, vals, n + 1);
    forall i, x | 0 <= i < |r| && x in r[i].variables
      ensures ValueIn(r[i].variables[x], |r|)
    {
      if i < n {
        assert r[i] == frames[i];
        ValueInGrows(frames[i].variables[x], n, n + 1);
      }
    }
  }

  // ---------------------------------------------------------------------------
  // Environment::new
  // ---------------------------------------------------------------------------

  /** The arena `Environment::new` starts from: one global frame, holding
      the primitives, with no base. */
  function Global(): (frames: seq<Frame>)
    ensures Valid(frames)
  {
    [Frame(Primitives(), None)]
  }

  /** From the global environment every primitive is found under its name,
      and nothing else is bound. */
  lemma GlobalBindings(x: string)
    ensures Lookup(Global(), 0, x).Some? ==>
              Lookup(Global(), 0, x).value.PrimitiveProcedure? && Name(Lookup(Global(), 0, x).value.primitive) == x
    ensures forall p: Primitive :: Lookup(Global(), 0, Name(p)) == Some(Value.PrimitiveProcedure(p))
  {
  }

  // ---------------------------------------------------------------------------
  // The frames, mutated in place
  // ---------------------------------------------------------------------------

  /** Every `Environment` of a run. Frames are updated in place through
      their `RefCell`, so the arena is one mutable sequence; an
      `Rc<Environment>` is an index into it. */
  class Arena {
    var frames: seq<Frame>

    /** `Environment::new`. */
    constructor ()
      ensures frames == Global()
    {
      frames := Global();
    }

    /** `Environment::empty`. */
    method Empty() returns (env: nat)
      modifies this
      ensures (frames, env) == AfterEmpty(old(frames))
    {
      env := |frames|;
      frames := frames + [Frame(map[], None)];
    }

    /** `Environment::define`. */
    method Define(env: nat, x: string, v: Value) returns (r: Value)
      requires env < |frames|
      modifies this
      ensures frames == AfterDefine(old(frames), env, x, v) && r == Ok()
    {
      var frame := frames[env];
      frames := frames[env := frame.(variables := frame.variables[x := v])];
      r := Ok();
    }

    /** `Environment::set`; `None` is the "Unbound variable" panic, which
        leaves every frame as it was. */
    method Set(env: nat, x: string, v: Value) returns (r: Option<Value>)
      requires Linked(frames) && env < |frames|
      modifies this
      ensures r.None? <==> AfterSet(old(frames), env, x, v).None?
      ensures r.None? ==> frames == old(frames)
      ensures r.Some? ==> r.value == Ok() && frames == AfterSet(old(frames), env, x, v).value
      decreases env
    {
      var frame := frames[env];
      if x in frame.variables {
        frames := frames[env := frame.(variables := frame.variables[x := v])];
        r := Some(Ok());
      } else if frame.base.Some? {
        r := Set(frame.base.value, x, v);
      } else {
        r := None;
      }
    }

    /** `Environment::extend`; `None` is the "Too many arguments" or "Too
        few arguments" panic, which allocates nothing. */
    method Extend(vars: seq<string>, vals: seq<Value>, base: nat) returns (env: Option<nat>)
      modifies this
      ensures env.None? <==> AfterExtend(old(frames), vars, vals, base).None?
      ensures env.None? ==> frames == old(frames)
      ensures env.Some? ==> AfterExtend(old(frames), vars, vals, base) == Some((frames, env.value))
    {
      if |vars| < |vals| {
        return None;
      }
      if |vars| > |vals| {
        return None;
      }
      var variables := map[];
      for i := 0 to |vars|
        invariant variables == Bindings(vars[..i], vals[..i])
      {
        assert vars[..i + 1][..i] == vars[..i] && vals[..i + 1][..i] == vals[..i];
        variables := variables[vars[i] := vals[i]];
      }
      assert vars[..|vars|] == vars && vals[..|vals|] == vals;
      env := Some(|frames|);
      frames := frames + [Frame(variables, Some(base))];
    }
  }
}
