/** The tree-shaped intermediate representation of the bf-jit compiler
    (rust/bf-jit/src/frontend.rs) and a reference semantics for it, written
    from the comment on each variant. The variants are the ones the optimizer
    builds: `Mul` has two fields and `Block` exists (see README.md). */
module BfJitIr {
  import opened Wrappers

  datatype Expr =
    | Add(count: int, offset: int)     // data[ptr + offset] += count
    | Move(offset: int)                // ptr += offset
    | Out(offset: int)                 // putchar(data[ptr + offset])
    | In(offset: int)                  // data[ptr + offset] = getchar()
    | Loop(body: seq<Expr>)            // while (data[ptr] != 0) { body }
    | Clear(offset: int)               // data[ptr + offset] = 0
    | Mul(count: int, offset: int)     // data[ptr + offset] += count * data[ptr]
    | Block(body: seq<Expr>)           // body, once
    | Nop

  /** Cells are 32-bit words (the code generator loads and stores I32), so
      every store wraps modulo 2^32. */
  const CellModulus: int := 0x1_0000_0000

  /** The value `getchar` returns at end of input. */
  const EndOfInput: int := -1

  function Wrap(x: int): (r: int)
    ensures 0 <= r < CellModulus
    ensures 0 <= x < CellModulus ==> r == x
  {
    x % CellModulus
  }

  /** The tape is unbounded in both directions; a cell never written holds 0. */
  type Tape = map<int, int>

  function Cell(t: Tape, a: int): int
  {
    if a in t then t[a] else 0
  }

  predicate ValidTape(t: Tape)
  {
    forall a :: a in t ==> 0 <= t[a] < CellModulus
  }

  datatype Machine = Machine(tape: Tape, ptr: int, input: seq<int>, output: seq<int>)

  /** Executes one node. `fuel` bounds the number of loop iterations, so a
      program that loops forever yields `None`. */
  function ExecOne(e: Expr, m: Machine, fuel: nat): Option<Machine>
    decreases fuel, e
  {
    match e
    case Add(c, o) =>
      var a := m.ptr + o;
      Some(m.(tape := m.tape[a := Wrap(Cell(m.tape, a) + c)]))
    case Move(o) => Some(m.(ptr := m.ptr + o))
    case Out(o) => Some(m.(output := m.output + [Cell(m.tape, m.ptr + o)]))
    case In(o) =>
      var a := m.ptr + o;
      if m.input == [] then Some(m.(tape := m.tape[a := Wrap(EndOfInput)]))
      else Some(m.(tape := m.tape[a := Wrap(m.input[0])], input := m.input[1..]))
    case Loop(body) => ExecLoop(body, m, fuel)
    case Clear(o) => Some(m.(tape := m.tape[m.ptr + o := 0]))
    case Mul(c, o) =>
      var a := m.ptr + o;
      Some(m.(tape := m.tape[a := Wrap(Cell(m.tape, a) + c * Cell(m.tape, m.ptr))]))
    case Block(body) => ExecSeq(body, m, fuel)
    case Nop => Some(m)
  }

  /** `while (data[ptr] != 0) { body }`; each iteration costs one unit of fuel. */
  function ExecLoop(body: seq<Expr>, m: Machine, fuel: nat): Option<Machine>
    decreases fuel, body
  {
    if Cell(m.tape, m.ptr) == 0 then Some(m)
    else if fuel == 0 then None
    else
      match ExecSeq(body, m, fuel - 1)
      case None => None
      case Some(m') => ExecLoop(body, m', fuel - 1)
  }

  function ExecSeq(es: seq<Expr>, m: Machine, fuel: nat): Option<Machine>
    decreases fuel, es
  {
    if es == [] then Some(m)
    else
      match ExecOne(es[0], m, fuel)
      case None => None
      case Some(m') => ExecSeq(es[1..], m', fuel)
  }

  /** Two machines that agree on the pointer, the I/O and every cell (a cell
      never written and a cell written with 0 read alike). */
  ghost predicate SameMachine(m1: Machine, m2: Machine)
  {
    && m1.ptr == m2.ptr
    && m1.input == m2.input
    && m1.output == m2.output
    && forall a :: Cell(m1.tape, a) == Cell(m2.tape, a)
  }

  /** Running `a + b` runs `a`, then `b` from where `a` stopped. */
  lemma {:induction false} ExecSeqAppend(a: seq<Expr>, b: seq<Expr>, m: Machine, fuel: nat)
    ensures ExecSeq(a + b, m, fuel) ==
            match ExecSeq(a, m, fuel)
            case None => None
            case Some(m') => ExecSeq(b, m', fuel)
    decreases |a|
  {
    if a == [] {
      assert a + b == b;
    } else {
      assert (a + b)[0] == a[0];
      assert (a + b)[1..] == a[1..] + b;
      match ExecOne(a[0], m, fuel)
      case None =>
      case Some(m') => ExecSeqAppend(a[1..], b, m', fuel);
    }
  }

  /** Running `a`, then `e`, then `c`. */
  lemma ExecAround(a: seq<Expr>, e: Expr, c: seq<Expr>, m: Machine, fuel: nat)
    ensures ExecSeq(a + ([e] + c), m, fuel) ==
            match ExecSeq(a, m, fuel)
            case None => None
            case Some(m1) =>
              match ExecOne(e, m1, fuel)
              case None => None
              case Some(m2) => ExecSeq(c, m2, fuel)
  {
    ExecSeqAppend(a, [e] + c, m, fuel);
    assert ([e] + c)[0] == e;
    assert ([e] + c)[1..] == c;
  }

  /** When `a`, then `e`, then `c` finishes, `a` and `e` finish on the way. */
  lemma ExecAroundSome(a: seq<Expr>, e: Expr, c: seq<Expr>, m: Machine, fuel: nat)
    requires ExecSeq(a + ([e] + c), m, fuel).Some?
    ensures ExecSeq(a, m, fuel).Some?
    ensures ExecOne(e, ExecSeq(a, m, fuel).value, fuel).Some?
    ensures ExecSeq(a + ([e] + c), m, fuel) == ExecSeq(c, ExecOne(e, ExecSeq(a, m, fuel).value, fuel).value, fuel)
  {
    ExecAround(a, e, c, m, fuel);
  }

  /** When `a` and then `e` finish, running `a`, `e`, `c` is running `c` from there. */
  lemma ExecAroundThen(a: seq<Expr>, e: Expr, c: seq<Expr>, m: Machine, fuel: nat)
    requires ExecSeq(a, m, fuel).Some? && ExecOne(e, ExecSeq(a, m, fuel).value, fuel).Some?
    ensures ExecSeq(a + ([e] + c), m, fuel) == ExecSeq(c, ExecOne(e, ExecSeq(a, m, fuel).value, fuel).value, fuel)
  {
    ExecAround(a, e, c, m, fuel);
  }

  lemma SameMachineTrans(m1: Machine, m2: Machine, m3: Machine)
    requires SameMachine(m1, m2) && SameMachine(m2, m3)
    ensures SameMachine(m1, m3)
  {
  }

  /** Storing the same value at the same address into tapes that read alike. */
  lemma SameStore(t1: Tape, t2: Tape, a: int, v: int, u1: Tape, u2: Tape)
    requires forall b :: Cell(t1, b) == Cell(t2, b)
    requires u1 == t1[a := v] && u2 == t2[a := v]
    ensures forall b :: Cell(u1, b) == Cell(u2, b)
  {
    forall b ensures Cell(u1, b) == Cell(u2, b) {
      if b != a {
        assert Cell(t1, b) == Cell(t2, b);
      }
    }
  }

  /** One node run from two machines that agree: it finishes from both or from
      neither, and the machines it leaves agree. */
  lemma {:induction false} SameOne(e: Expr, m1: Machine, m2: Machine, fuel: nat)
    requires SameMachine(m1, m2)
    ensures ExecOne(e, m1, fuel).Some? == ExecOne(e, m2, fuel).Some?
    ensures ExecOne(e, m1, fuel).Some? ==> SameMachine(ExecOne(e, m1, fuel).value, ExecOne(e, m2, fuel).value)
    decreases fuel, e
  {
    match e
    case Add(c, o) =>
      var a := m1.ptr + o;
      var v := Wrap(Cell(m1.tape, a) + c);
      SameStore(m1.tape, m2.tape, a, v, m1.tape[a := v], m2.tape[a := v]);
    case Move(o) =>
    case Out(o) => assert Cell(m1.tape, m1.ptr + o) == Cell(m2.tape, m2.ptr + o);
    case In(o) =>
      var a := m1.ptr + o;
      var v := if m1.input == [] then Wrap(EndOfInput) else Wrap(m1.input[0]);
      SameStore(m1.tape, m2.tape, a, v, m1.tape[a := v], m2.tape[a := v]);
    case Loop(body) => SameLoop(body, m1, m2, fuel);
    case Clear(o) =>
      var a := m1.ptr + o;
      SameStore(m1.tape, m2.tape, a, 0, m1.tape[a := 0], m2.tape[a := 0]);
    case Mul(c, o) =>
      var a := m1.ptr + o;
      var v := Wrap(Cell(m1.tape, a) + c * Cell(m1.tape, m1.ptr));
      SameStore(m1.tape, m2.tape, a, v, m1.tape[a := v], m2.tape[a := v]);
    case Block(body) => SameSeq(body, m1, m2, fuel);
    case Nop =>
  }

  lemma {:induction false} SameLoop(body: seq<Expr>, m1: Machine, m2: Machine, fuel: nat)
    requires SameMachine(m1, m2)
    ensures ExecLoop(body, m1, fuel).Some? == ExecLoop(body, m2, fuel).Some?
    ensures ExecLoop(body, m1, fuel).Some? ==> SameMachine(ExecLoop(body, m1, fuel).value, ExecLoop(body, m2, fuel).value)
    decreases fuel, body
  {
    assert Cell(m1.tape, m1.ptr) == Cell(m2.tape, m2.ptr);
    if Cell(m1.tape, m1.ptr) != 0 && fuel > 0 {
      SameSeq(body, m1, m2, fuel - 1);
      match ExecSeq(body, m1, fuel - 1)
      case None =>
      case Some(x1) => SameLoop(body, x1, ExecSeq(body, m2, fuel - 1).value, fuel - 1);
    }
  }

  lemma {:induction false} SameSeq(es: seq<Expr>, m1: Machine, m2: Machine, fuel: nat)
    requires SameMachine(m1, m2)
    ensures ExecSeq(es, m1, fuel).Some? == ExecSeq(es, m2, fuel).Some?
    ensures ExecSeq(es, m1, fuel).Some? ==> SameMachine(ExecSeq(es, m1, fuel).value, ExecSeq(es, m2, fuel).value)
    decreases fuel, es
  {
    if es != [] {
      SameOne(es[0], m1, m2, fuel);
      match ExecOne(es[0], m1, fuel)
      case None =>
      case Some(x1) => SameSeq(es[1..], x1, ExecOne(es[0], m2, fuel).value, fuel);
    }
  }

  /** Every store wraps, so a machine whose cells are 32-bit words keeps them so. */
  lemma {:induction false} ValidOne(e: Expr, m: Machine, fuel: nat)
    requires ValidTape(m.tape)
    ensures ExecOne(e, m, fuel).Some? ==> ValidTape(ExecOne(e, m, fuel).value.tape)
    decreases fuel, e
  {
    match e
    case Loop(body) => ValidLoop(body, m, fuel);
    case Block(body) => ValidSeq(body, m, fuel);
    case _ =>
  }

  lemma {:induction false} ValidLoop(body: seq<Expr>, m: Machine, fuel: nat)
    requires ValidTape(m.tape)
    ensures ExecLoop(body, m, fuel).Some? ==> ValidTape(ExecLoop(body, m, fuel).value.tape)
    decreases fuel, body
  {
    if Cell(m.tape, m.ptr) != 0 && fuel > 0 {
      ValidSeq(body, m, fuel - 1);
      match ExecSeq(body, m, fuel - 1)
      case None =>
      case Some(x) => ValidLoop(body, x, fuel - 1);
    }
  }

  lemma {:induction false} ValidSeq(es: seq<Expr>, m: Machine, fuel: nat)
    requires ValidTape(m.tape)
    ensures ExecSeq(es, m, fuel).Some? ==> ValidTape(ExecSeq(es, m, fuel).value.tape)
    decreases fuel, es
  {
    if es != [] {
      ValidOne(es[0], m, fuel);
      match ExecOne(es[0], m, fuel)
      case None =>
      case Some(x) => ValidSeq(es[1..], x, fuel);
    }
  }
}
