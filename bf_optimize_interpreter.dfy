/** The tree-walking interpreter of bf-optimize
    (rust/bf-optimize/src/interpreter.rs): a 65535-byte tape, an address,
    a reader and a writer. The reader and the writer are the byte sequences
    `input` and `output`. Loops may run forever, so every evaluation carries
    fuel: each iteration of a `Loop` costs one unit. */
module BfOptimizeInterpreter {
  import opened Wrappers
  import opened BfCommon

  /** A node of the optimized program. An offset is a magnitude and a
      direction, as in the Rust `(usize, bool)` pair. */
  datatype Expr =
    | Right(distance: nat)
    | Left(distance: nat)
    | Add(count: Byte, offset: nat, positive: bool)
    | Sub(count: Byte, offset: nat, positive: bool)
    | Out(offset: nat, positive: bool)
    | In(offset: nat, positive: bool)
    | Loop(body: seq<Expr>)
    | Clear(offset: nat, positive: bool)
    | ScanRight
    | ScanLeft

  /** The address is a `usize` whose arithmetic wraps (a release build), so
      it may leave the tape and come back; only indexing the tape with it
      panics. An unbounded `int` behaves the same way. */
  datatype Machine = Machine(address: int, memory: seq<Byte>, input: seq<Byte>, output: seq<Byte>)

  predicate OnTape(memory: seq<Byte>, a: int)
  {
    0 <= a < |memory|
  }

  /** `Interpreter::new`: address 0, every cell 0, nothing written yet. */
  function Initial(input: seq<Byte>): (m: Machine)
    ensures m.address == 0 && |m.memory| == MemorySize && m.input == input && m.output == []
    ensures forall i :: 0 <= i < |m.memory| ==> m.memory[i] == 0
  {
    Machine(0, seq(MemorySize, _ => 0), input, [])
  }

  /** `Interpreter::address`: the address `offset` cells to the right of
      `address` when `positive`, to the left otherwise. */
  function Address(address: int, offset: nat, positive: bool): int
  {
    if positive then address + offset else address - offset
  }

  /** The same offset in the other direction leads back. */
  lemma AddressRoundTrip(address: int, offset: nat, positive: bool)
    ensures Address(Address(address, offset, positive), offset, !positive) == address
  {
  }

  /** The cell an operation addresses, or `None` when indexing the tape
      with that address panics. */
  function Target(m: Machine, offset: nat, positive: bool): (r: Option<nat>)
    ensures r.Some? <==> OnTape(m.memory, Address(m.address, offset, positive))
    ensures r.Some? ==> r.value == Address(m.address, offset, positive)
  {
    var a := Address(m.address, offset, positive);
    if OnTape(m.memory, a) then Some(a) else None
  }

  /** The first cell at or right of `a` that holds 0: where `ScanRight`
      stops. `None` when the scan indexes outside the tape first. */
  function ScanRightFrom(memory: seq<Byte>, a: int): Option<nat>
    decreases |memory| - a
  {
    if !OnTape(memory, a) then None
    else if memory[a] == 0 then Some(a)
    else ScanRightFrom(memory, a + 1)
  }

  /** The first cell at or left of `a` that holds 0: where `ScanLeft` stops.
      `None` when the scan indexes outside the tape first. */
  function ScanLeftFrom(memory: seq<Byte>, a: int): Option<nat>
    decreases a
  {
    if !OnTape(memory, a) then None
    else if memory[a] == 0 then Some(a)
    else ScanLeftFrom(memory, a - 1)
  }

  /** One arm of the `match` in `Interpreter::eval`. */
  function ExecOne(e: Expr, m: Machine, fuel: nat): Outcome<Machine>
    decreases fuel, e
  {
    match e
    case Right(n) => Done(m.(address := m.address + n))
    case Left(n) => Done(m.(address := m.address - n))
    case Add(c, o, p) =>
      (match Target(m, o, p)
       case None => Panic
       case Some(a) => Done(m.(memory := m.memory[a := WrapByte(m.memory[a] + c)])))
    case Sub(c, o, p) =>
      (match Target(m, o, p)
       case None => Panic
       case Some(a) => Done(m.(memory := m.memory[a := WrapByte(m.memory[a] - c)])))
    case Out(o, p) =>
      (match Target(m, o, p)
       case None => Panic
       case Some(a) => Done(m.(output := m.output + [m.memory[a]])))
    case In(o, p) =>
      // The byte is read before the tape is indexed; at end of input the
      // one-byte buffer keeps its initial 0.
      var b: Byte := if m.input == [] then 0 else m.input[0];
      var rest := if m.input == [] then [] else m.input[1..];
      (match Target(m, o, p)
       case None => Panic
       case Some(a) => Done(m.(memory := m.memory[a := b], input := rest)))
    case Loop(body) => ExecLoop(body, m, fuel)
    case Clear(o, p) =>
      (match Target(m, o, p)
       case None => Panic
       case Some(a) => Done(m.(memory := m.memory[a := 0])))
    case ScanRight =>
      (match ScanRightFrom(m.memory, m.address)
       case None => Panic
       case Some(a) => Done(m.(address := a)))
    case ScanLeft =>
      (match ScanLeftFrom(m.memory, m.address)
       case None => Panic
       case Some(a) => Done(m.(address := a)))
  }

  /** `while self.memory[self.address] != 0 { self.eval(&commands) }`; each
      iteration costs one unit of fuel. */
  function ExecLoop(body: seq<Expr>, m: Machine, fuel: nat): Outcome<Machine>
    decreases fuel, body
  {
    if !OnTape(m.memory, m.address) then Panic
    else if m.memory[m.address] == 0 then Done(m)
    else if fuel == 0 then OutOfFuel
    else
      match ExecSeq(body, m, fuel - 1)
      case Done(m') => ExecLoop(body, m', fuel - 1)
      case other => other
  }

  /** `Interpreter::eval` on a list of nodes, in order. */
  function ExecSeq(es: seq<Expr>, m: Machine, fuel: nat): Outcome<Machine>
    decreases fuel, es
  {
    if es == [] then Done(m)
    else
      match ExecOne(es[0], m, fuel)
      case Done(m') => ExecSeq(es[1..], m', fuel)
      case other => other
  }

  // ---------------------------------------------------------------------------
  // Properties of the semantics
  // ---------------------------------------------------------------------------

  /** What an evaluation that ends normally may change: the tape keeps its
      size, the output only grows and the input is only consumed from the
      front. */
  predicate Evolves(m: Machine, m': Machine)
  {
    && |m'.memory| == |m.memory|
    && m.output <= m'.output
    && |m'.input| <= |m.input| && m'.input == m.input[|m.input| - |m'.input|..]
  }

  lemma EvolvesTrans(m1: Machine, m2: Machine, m3: Machine)
    requires Evolves(m1, m2) && Evolves(m2, m3)
    ensures Evolves(m1, m3)
  {
    var k2, k3 := |m1.input| - |m2.input|, |m2.input| - |m3.input|;
    assert m3.input == m1.input[k2..][k3..];
    assert m1.input[k2..][k3..] == m1.input[k2 + k3..];
  }

  lemma {:induction false} ExecOneEvolves(e: Expr, m: Machine, fuel: nat)
    ensures ExecOne(e, m, fuel).Done? ==> Evolves(m, ExecOne(e, m, fuel).machine)
    decreases fuel, e
  {
    match e
    case Loop(body) => ExecLoopEvolves(body, m, fuel);
    case In(o, p) =>
      if m.input != [] {
        assert m.input[1..] == m.input[|m.input| - |m.input[1..]|..];
      }
    case Right(_) => InputKept(m);
    case Left(_) => InputKept(m);
    case Add(_, _, _) => InputKept(m);
    case Sub(_, _, _) => InputKept(m);
    case Out(_, _) => InputKept(m);
    case Clear(_, _) => InputKept(m);
    case ScanRight => InputKept(m);
    case ScanLeft => InputKept(m);
  }

  lemma InputKept(m: Machine)
    ensures m.input == m.input[|m.input| - |m.input|..]
  {
  }

  lemma {:induction false} ExecLoopEvolves(body: seq<Expr>, m: Machine, fuel: nat)
    ensures ExecLoop(body, m, fuel).Done? ==> Evolves(m, ExecLoop(body, m, fuel).machine)
    decreases fuel, body
  {
    if OnTape(m.memory, m.address) && m.memory[m.address] != 0 && fuel > 0 {
      ExecSeqEvolves(body, m, fuel - 1);
      match ExecSeq(body, m, fuel - 1)
      case Done(m') =>
        ExecLoopEvolves(body, m', fuel - 1);
        if ExecLoop(body, m', fuel - 1).Done? {
          EvolvesTrans(m, m', ExecLoop(body, m', fuel - 1).machine);
        }
      case _ =>
    } else {
      assert m.input == m.input[|m.input| - |m.input|..];
    }
  }

  lemma {:induction false} ExecSeqEvolves(es: seq<Expr>, m: Machine, fuel: nat)
    ensures ExecSeq(es, m, fuel).Done? ==> Evolves(m, ExecSeq(es, m, fuel).machine)
    decreases fuel, es
  {
    if es == [] {
      assert m.input == m.input[|m.input| - |m.input|..];
    } else {
      ExecOneEvolves(es[0], m, fuel);
      match ExecOne(es[0], m, fuel)
      case Done(m') =>
        ExecSeqEvolves(es[1..], m', fuel);
        if ExecSeq(es[1..], m', fuel).Done? {
          EvolvesTrans(m, m', ExecSeq(es[1..], m', fuel).machine);
        }
      case _ =>
    }
  }

  /** Running `a + b` runs `a`, then `b` from where `a` stopped. */
  lemma {:induction false} ExecSeqAppend(a: seq<Expr>, b: seq<Expr>, m: Machine, fuel: nat)
    ensures ExecSeq(a + b, m, fuel) ==
            match ExecSeq(a, m, fuel)
            case Done(m') => ExecSeq(b, m', fuel)
            case other => other
    decreases |a|
  {
    if a == [] {
      assert a + b == b;
    } else {
      assert (a + b)[0] == a[0];
      assert (a + b)[1..] == a[1..] + b;
      match ExecOne(a[0], m, fuel)
      case Done(m') => ExecSeqAppend(a[1..], b, m', fuel);
      case _ =>
    }
  }

  /** A loop exits normally only on a zero cell at the address. */
  lemma {:induction false} LoopExitsOnZero(body: seq<Expr>, m: Machine, fuel: nat)
    ensures ExecLoop(body, m, fuel).Done? ==>
              var m' := ExecLoop(body, m, fuel).machine;
              OnTape(m'.memory, m'.address) && m'.memory[m'.address] == 0
    decreases fuel
  {
    if OnTape(m.memory, m.address) && m.memory[m.address] != 0 && fuel > 0 {
      match ExecSeq(body, m, fuel - 1)
      case Done(m') => LoopExitsOnZero(body, m', fuel - 1);
      case _ =>
    }
  }

  /** A loop whose cell is already 0 runs its body zero times. */
  lemma LoopOnZero(body: seq<Expr>, m: Machine, fuel: nat)
    requires OnTape(m.memory, m.address) && m.memory[m.address] == 0
    ensures ExecOne(Loop(body), m, fuel) == Done(m)
  {
  }

  /** `Right(n)` and `Left(n)` undo each other. */
  lemma RightLeft(n: nat, m: Machine, fuel: nat)
    ensures ExecSeq([Right(n), Left(n)], m, fuel) == Done(m)
  {
    var m1 := m.(address := m.address + n);
    assert ExecOne(Right(n), m, fuel) == Done(m1);
    assert [Right(n), Left(n)][1..] == [Left(n)];
    assert ExecSeq([Left(n)], m1, fuel) == Done(m);
  }

  /** `Left(n)` never panics by itself, and `Right(n)` undoes it. */
  lemma LeftRight(n: nat, m: Machine, fuel: nat)
    ensures ExecSeq([Left(n), Right(n)], m, fuel) == Done(m)
  {
    var m1 := m.(address := m.address - n);
    assert ExecOne(Left(n), m, fuel) == Done(m1);
    assert [Left(n), Right(n)][1..] == [Right(n)];
    assert ExecSeq([Right(n)], m1, fuel) == Done(m);
  }

  /** `Add` changes the addressed cell by `count` modulo 256 and nothing
      else; `Sub` with the same count and offset restores it. */
  lemma AddCell(c: Byte, o: nat, p: bool, m: Machine, fuel: nat, i: int)
    requires Target(m, o, p).Some? && 0 <= i < |m.memory|
    ensures ExecOne(Add(c, o, p), m, fuel).Done?
    ensures var m' := ExecOne(Add(c, o, p), m, fuel).machine;
            && m'.address == m.address && m'.input == m.input && m'.output == m.output
            && |m'.memory| == |m.memory|
            && (m'.memory[i] as int - m.memory[i] as int) % 256 == (if i == Target(m, o, p).value then c else 0)
  {
  }

  lemma AddSub(c: Byte, o: nat, p: bool, m: Machine, fuel: nat)
    ensures Target(m, o, p).None? ==> ExecOne(Add(c, o, p), m, fuel) == Panic
    ensures Target(m, o, p).Some? ==> ExecSeq([Add(c, o, p), Sub(c, o, p)], m, fuel) == Done(m)
  {
    if Target(m, o, p).Some? {
      var a := Target(m, o, p).value;
      var m1 := m.(memory := m.memory[a := WrapByte(m.memory[a] + c)]);
      assert ExecOne(Add(c, o, p), m, fuel) == Done(m1);
      assert Target(m1, o, p) == Some(a);
      assert WrapByte(m1.memory[a] - c) == m.memory[a];
      assert m1.memory[a := m.memory[a]] == m.memory;
      assert ExecOne(Sub(c, o, p), m1, fuel) == Done(m);
      assert [Add(c, o, p), Sub(c, o, p)][1..] == [Sub(c, o, p)];
      assert [Sub(c, o, p)][1..] == [];
      assert ExecSeq([Sub(c, o, p)], m1, fuel) == Done(m);
    }
  }

  /** `Out` appends exactly the addressed cell to the output and changes
      nothing else. */
  lemma OutAppends(o: nat, p: bool, m: Machine, fuel: nat)
    ensures ExecOne(Out(o, p), m, fuel).Done? <==> Target(m, o, p).Some?
    ensures ExecOne(Out(o, p), m, fuel).Done? ==>
              var m' := ExecOne(Out(o, p), m, fuel).machine;
              && |m'.output| == |m.output| + 1 && m'.output[..|m.output|] == m.output
              && m'.output[|m.output|] == m.memory[Target(m, o, p).value]
              && m'.(output := m.output) == m
  {
    if Target(m, o, p).Some? {
      var m' := ExecOne(Out(o, p), m, fuel).machine;
      assert m'.output[..|m.output|] == m.output;
    }
  }

  /** `In` stores the next input byte and consumes it; at end of input it
      stores 0. */
  lemma InStores(o: nat, p: bool, m: Machine, fuel: nat)
    ensures ExecOne(In(o, p), m, fuel).Done? <==> Target(m, o, p).Some?
    ensures ExecOne(In(o, p), m, fuel).Done? ==>
              var m' := ExecOne(In(o, p), m, fuel).machine;
              var a := Target(m, o, p).value;
              && m'.memory[a] == (if m.input == [] then 0 else m.input[0])
              && (forall i :: 0 <= i < |m.memory| && i != a ==> m'.memory[i] == m.memory[i])
              && (if m.input == [] then m'.input == [] else [m.input[0]] + m'.input == m.input)
              && m'.address == m.address && m'.output == m.output
  {
    if Target(m, o, p).Some? && m.input != [] {
      var m' := ExecOne(In(o, p), m, fuel).machine;
      assert [m.input[0]] + m'.input == m.input;
    }
  }

  /** `Clear` sets the addressed cell to 0; clearing twice is clearing once. */
  lemma ClearTwice(o: nat, p: bool, m: Machine, fuel: nat)
    ensures ExecOne(Clear(o, p), m, fuel).Done? ==>
              ExecOne(Clear(o, p), m, fuel).machine.memory[Target(m, o, p).value] == 0
    ensures ExecSeq([Clear(o, p), Clear(o, p)], m, fuel) == ExecOne(Clear(o, p), m, fuel)
  {
    assert [Clear(o, p), Clear(o, p)][1..] == [Clear(o, p)];
    if Target(m, o, p).Some? {
      var a := Target(m, o, p).value;
      var m1 := m.(memory := m.memory[a := 0]);
      assert Target(m1, o, p) == Some(a);
      assert m1.memory[a := 0] == m1.memory;
      assert [Clear(o, p)][1..] == [];
      assert ExecSeq([Clear(o, p)], m1, fuel) == Done(m1);
    }
  }

  /** `ScanRight` stops at the first zero cell at or right of the address,
      having passed only non-zero cells; it panics exactly when no such
      cell exists on the tape. */
  lemma {:induction false} ScanRightStops(memory: seq<Byte>, a: int)
    ensures ScanRightFrom(memory, a).None? <==> a < 0 || forall i :: a <= i < |memory| ==> memory[i] != 0
    ensures ScanRightFrom(memory, a).Some? ==>
              var r := ScanRightFrom(memory, a).value;
              && 0 <= a <= r < |memory| && memory[r] == 0
              && forall i :: a <= i < r ==> memory[i] != 0
    decreases |memory| - a
  {
    if OnTape(memory, a) && memory[a] != 0 {
      ScanRightStops(memory, a + 1);
    }
  }

  /** `ScanLeft` stops at the first zero cell at or left of the address; it
      panics exactly when the address starts past the tape or no such cell
      exists down to cell 0. */
  lemma {:induction false} ScanLeftStops(memory: seq<Byte>, a: int)
    ensures ScanLeftFrom(memory, a).None? <==>
              a >= |memory| || forall i :: 0 <= i <= a ==> memory[i] != 0
    ensures ScanLeftFrom(memory, a).Some? ==>
              var r := ScanLeftFrom(memory, a).value;
              && r <= a < |memory| && memory[r] == 0
              && forall i :: r < i <= a ==> memory[i] != 0
    decreases a
  {
    if OnTape(memory, a) && memory[a] != 0 {
      ScanLeftStops(memory, a - 1);
    }
  }

  /** `ScanRight` is the loop `[>]` it replaces, given fuel for one iteration
      per cell to the end of the tape. */
  lemma {:induction false} ScanRightIsLoop(m: Machine, fuel: nat)
    requires fuel >= |m.memory| - m.address
    ensures ExecOne(ScanRight, m, fuel) == ExecLoop([Right(1)], m, fuel)
    decreases |m.memory| - m.address
  {
    if OnTape(m.memory, m.address) && m.memory[m.address] != 0 {
      var m1 := m.(address := m.address + 1);
      assert ExecSeq([Right(1)], m, fuel - 1) == Done(m1);
      ScanRightIsLoop(m1, fuel - 1);
    }
  }

  /** `ScanLeft` is the loop `[<]` it replaces, given fuel for one iteration
      per cell down to cell 0. */
  lemma {:induction false} ScanLeftIsLoop(m: Machine, fuel: nat)
    requires fuel > m.address
    ensures ExecOne(ScanLeft, m, fuel) == ExecLoop([Left(1)], m, fuel)
    decreases m.address
  {
    if OnTape(m.memory, m.address) && m.memory[m.address] != 0 {
      var m1 := m.(address := m.address - 1);
      assert ExecSeq([Left(1)], m, fuel - 1) == Done(m1);
      ScanLeftIsLoop(m1, fuel - 1);
    }
  }

  /** `Clear` at offset 0 is the loop `[-]` it replaces, given fuel for one
      iteration per unit of the cell's value. */
  lemma {:induction false} ClearIsLoop(m: Machine, fuel: nat)
    requires OnTape(m.memory, m.address) ==> fuel >= m.memory[m.address]
    ensures ExecOne(Clear(0, true), m, fuel) == ExecLoop([Sub(1, 0, true)], m, fuel)
    decreases if OnTape(m.memory, m.address) then m.memory[m.address] else 0
  {
    var a := m.address;
    if OnTape(m.memory, a) && m.memory[a] != 0 {
      var m1 := m.(memory := m.memory[a := m.memory[a] - 1]);
      assert ExecSeq([Sub(1, 0, true)], m, fuel - 1) == Done(m1);
      ClearIsLoop(m1, fuel - 1);
      assert m1.memory[a := 0] == m.memory[a := 0];
    } else if OnTape(m.memory, a) {
      assert m.memory[a := 0] == m.memory;
    }
  }

  // ---------------------------------------------------------------------------
  // The interpreter object
  // ---------------------------------------------------------------------------

  /** `Interpreter<R, W>`: the address, the tape, and what is left to read
      and what has been written. */
  class Interpreter {
    var address: int
    const memory: array<Byte>
    var input: seq<Byte>
    var output: seq<Byte>

    function State(): Machine
      reads this, memory
    {
      Machine(address, memory[..], input, output)
    }

    /** `Interpreter::new`. */
    constructor (input: seq<Byte>)
      ensures fresh(memory) && State() == Initial(input)
    {
      address := 0;
      memory := new Byte[MemorySize](_ => 0);
      this.input := input;
      output := [];
    }

    /** `Interpreter::eval`: the nodes in order; a panic or spent fuel ends
        the evaluation. */
    method Eval(commands: seq<Expr>, fuel: nat) returns (status: Status)
      modifies this, memory
      ensures ExecSeq(commands, old(State()), fuel) == Conclude(status, State())
      decreases fuel, commands
    {
      status := Finished;
      for i := 0 to |commands|
        invariant status == Finished
        invariant ExecSeq(commands, old(State()), fuel) == ExecSeq(commands[i..], State(), fuel)
      {
        assert commands[i..][1..] == commands[i + 1..];
        status := Step(commands[i], fuel);
        if status != Finished {
          return;
        }
      }
      assert commands[|commands|..] == [];
    }

    /** One arm of the `match` in `eval`. */
    method Step(e: Expr, fuel: nat) returns (status: Status)
      modifies this, memory
      ensures ExecOne(e, old(State()), fuel) == Conclude(status, State())
      decreases fuel, e
    {
      match e
      case Right(n) =>
        address := address + n;
        status := Finished;
      case Left(n) =>
        address := address - n;
        status := Finished;
      case Loop(body) =>
        status := RunLoop(body, fuel);
      case ScanRight =>
        status := ScanRightLoop();
      case ScanLeft =>
        status := ScanLeftLoop();
      case Add(_, _, _) =>
        status := UpdateCell(e, fuel);
      case Sub(_, _, _) =>
        status := UpdateCell(e, fuel);
      case Clear(_, _) =>
        status := UpdateCell(e, fuel);
      case Out(_, _) =>
        status := Transfer(e, fuel);
      case In(_, _) =>
        status := Transfer(e, fuel);
    }

    /** The arms of `eval` that compute an address with `address` and
        rewrite the cell there. */
    method UpdateCell(e: Expr, fuel: nat) returns (status: Status)
      requires e.Add? || e.Sub? || e.Clear?
      modifies memory
      ensures ExecOne(e, old(State()), fuel) == Conclude(status, State())
    {
      var k := Address(address, e.offset, e.positive);
      if !(0 <= k < memory.Length) {
        return Panicked;
      }
      status := Finished;
      match e
      case Add(c, _, _) => Store(k, WrapByte(memory[k] + c));
      case Sub(c, _, _) => Store(k, WrapByte(memory[k] - c));
      case Clear(_, _) => Store(k, 0);
    }

    /** The arms of `eval` that move a byte between the tape and the reader
        or the writer. */
    method Transfer(e: Expr, fuel: nat) returns (status: Status)
      requires e.In? || e.Out?
      modifies this, memory
      ensures ExecOne(e, old(State()), fuel) == Conclude(status, State())
    {
      var b: Byte := 0;
      if e.In? && input != [] {
        b := input[0];
        input := input[1..];
      }
      var k := Address(address, e.offset, e.positive);
      if !(0 <= k < memory.Length) {
        return Panicked;
      }
      status := Finished;
      if e.In? {
        Store(k, b);
      } else {
        output := output + [memory[k]];
      }
    }

    /** `self.memory[k] = v`. */
    method Store(k: nat, v: Byte)
      requires k < memory.Length
      modifies memory
      ensures State() == old(State()).(memory := old(memory[..])[k := v])
    {
      memory[k] := v;
    }

    /** `while self.memory[self.address] != 0 { self.eval(&commands) }`. */
    method RunLoop(body: seq<Expr>, fuel: nat) returns (status: Status)
      modifies this, memory
      ensures ExecLoop(body, old(State()), fuel) == Conclude(status, State())
      decreases fuel, body
    {
      var f: nat := fuel;
      while 0 <= address < memory.Length && memory[address] != 0
        invariant f <= fuel
        invariant ExecLoop(body, old(State()), fuel) == ExecLoop(body, State(), f)
        decreases f
      {
        if f == 0 {
          return Exhausted;
        }
        status := Eval(body, f - 1);
        if status != Finished {
          return;
        }
        f := f - 1;
      }
      status := if 0 <= address < memory.Length then Finished else Panicked;
    }

    /** `while self.memory[self.address] != 0 { self.address += 1 }`. */
    method ScanRightLoop() returns (status: Status)
      modifies this
      ensures ExecOne(ScanRight, old(State()), 0) == Conclude(status, State())
    {
      while 0 <= address < memory.Length && memory[address] != 0
        invariant ScanRightFrom(memory[..], address) == ScanRightFrom(memory[..], old(address))
        invariant input == old(input) && output == old(output)
        decreases memory.Length - address
      {
        address := address + 1;
      }
      status := if 0 <= address < memory.Length then Finished else Panicked;
    }

    /** `while self.memory[self.address] != 0 { self.address -= 1 }`. */
    method ScanLeftLoop() returns (status: Status)
      modifies this
      ensures ExecOne(ScanLeft, old(State()), 0) == Conclude(status, State())
    {
      while 0 <= address < memory.Length && memory[address] != 0
        invariant ScanLeftFrom(memory[..], address) == ScanLeftFrom(memory[..], old(address))
        invariant input == old(input) && output == old(output)
        decreases address + 1
      {
        address := address - 1;
      }
      status := if 0 <= address < memory.Length then Finished else Panicked;
    }
  }
}
