/** The byte-code interpreter of bf-simple (rust/bf-simple/src/main.rs): the
    source bytes are filtered down to the eight commands and run directly,
    with brackets matched at run time by scanning the code with a nesting
    counter. The reader and the writer are the byte sequences `input` and
    `output`; every iteration of the main loop costs one unit of fuel. */
module BfSimple {
  import opened Wrappers
  import opened BfCommon

  const OpRight: Byte := '>' as int
  const OpLeft: Byte := '<' as int
  const OpInc: Byte := '+' as int
  const OpDec: Byte := '-' as int
  const OpOut: Byte := '.' as int
  const OpIn: Byte := ',' as int
  const OpOpen: Byte := '[' as int
  const OpClose: Byte := ']' as int

  /** The bytes `retain` keeps. */
  predicate IsCommand(b: Byte)
  {
    b == OpRight || b == OpLeft || b == OpInc || b == OpDec
    || b == OpOut || b == OpIn || b == OpOpen || b == OpClose
  }

  // ---------------------------------------------------------------------------
  // The source filter
  // ---------------------------------------------------------------------------

  /** `code.retain(...)`: the command bytes of the source, in order. */
  function Filter(code: seq<Byte>): (r: seq<Byte>)
    ensures |r| <= |code|
    ensures forall i :: 0 <= i < |r| ==> IsCommand(r[i])
  {
    if code == [] then []
    else (if IsCommand(code[0]) then [code[0]] else []) + Filter(code[1..])
  }

  /** Filtering works piece by piece: it keeps the original order. */
  lemma {:induction false} FilterAppend(a: seq<Byte>, b: seq<Byte>)
    ensures Filter(a + b) == Filter(a) + Filter(b)
    decreases |a|
  {
    if a == [] {
      assert a + b == b;
    } else {
      assert (a + b)[0] == a[0];
      assert (a + b)[1..] == a[1..] + b;
      FilterAppend(a[1..], b);
    }
  }

  /** A source made only of commands passes unchanged. */
  lemma {:induction false} FilterOfCommands(code: seq<Byte>)
    requires forall i :: 0 <= i < |code| ==> IsCommand(code[i])
    ensures Filter(code) == code
    decreases |code|
  {
    if code != [] {
      FilterOfCommands(code[1..]);
      assert [code[0]] + code[1..] == code;
    }
  }

  /** Filtering twice is filtering once. */
  lemma FilterIdempotent(code: seq<Byte>)
    ensures Filter(Filter(code)) == Filter(code)
  {
    FilterOfCommands(Filter(code));
  }

  /** Every command byte is kept as often as it occurs, and every other
      byte is dropped. */
  lemma {:induction false} FilterCount(code: seq<Byte>, b: Byte)
    ensures multiset(Filter(code))[b] == if IsCommand(b) then multiset(code)[b] else 0
    decreases |code|
  {
    if code != [] {
      FilterCount(code[1..], b);
      assert code == [code[0]] + code[1..];
      assert multiset(code) == multiset([code[0]]) + multiset(code[1..]);
    }
  }

  // ---------------------------------------------------------------------------
  // Bracket matching
  // ---------------------------------------------------------------------------

  /** How a byte changes the nesting depth. */
  function Delta(b: Byte): int
  {
    if b == OpOpen then 1 else if b == OpClose then -1 else 0
  }

  /** The nesting depth before index `k`: the `[`s minus the `]`s of
      `code[..k]`. */
  function Depth(code: seq<Byte>, k: nat): int
    requires k <= |code|
  {
    if k == 0 then 0 else Depth(code, k - 1) + Delta(code[k - 1])
  }

  /** The forward scan of `[` on a zero cell, from index `i` with `loops`
      brackets still open: the index of the `]` that closes them, or `None`
      when the scan indexes past the code. */
  function ScanForward(code: seq<Byte>, i: int, loops: nat): Option<nat>
    decreases |code| - i
  {
    if !(0 <= i < |code|) then None
    else if loops == 0 && code[i] == OpClose then Some(i)
    else ScanForward(code, i + 1, if code[i] == OpOpen then loops + 1 else if code[i] == OpClose then loops - 1 else loops)
  }

  /** The backward scan of `]`, from index `i` with `loops` brackets still
      closed: the index of the `[` that opens them, or `None` when the scan
      goes below index 0. */
  function ScanBackward(code: seq<Byte>, i: int, loops: nat): Option<nat>
    decreases i
  {
    if !(0 <= i < |code|) then None
    else if loops == 0 && code[i] == OpOpen then Some(i)
    else ScanBackward(code, i - 1, if code[i] == OpClose then loops + 1 else if code[i] == OpOpen then loops - 1 else loops)
  }

  /** The forward scan stops at the first `]` where the depth falls back to
      where it started, less `loops`, and the depth never drops below that
      on the way. */
  lemma {:induction false} ScanForwardDepth(code: seq<Byte>, i: int, loops: nat)
    ensures ScanForward(code, i, loops).Some? ==>
              var j := ScanForward(code, i, loops).value;
              && 0 <= i <= j < |code| && code[j] == OpClose
              && loops + Depth(code, j) - Depth(code, i) == 0
              && forall q :: i <= q <= j ==> loops + Depth(code, q) - Depth(code, i) >= 0
    decreases |code| - i
  {
    if 0 <= i < |code| && !(loops == 0 && code[i] == OpClose) {
      var next := if code[i] == OpOpen then loops + 1 else if code[i] == OpClose then loops - 1 else loops;
      ScanForwardDepth(code, i + 1, next);
      assert Depth(code, i + 1) == Depth(code, i) + Delta(code[i]);
    }
  }

  /** The backward scan, started just before `e` with nothing closed, reaches
      `target` when `code[target..e]` opens one bracket more than it closes and
      every suffix of `code[p + 1..e]` in between closes at least as many as it
      opens. */
  lemma {:induction false} ScanBackwardReaches(code: seq<Byte>, p: int, e: nat, target: nat)
    requires target <= p < e <= |code| && code[target] == OpOpen
    requires Depth(code, target + 1) == Depth(code, e)
    requires forall q :: target < q <= e ==> Depth(code, q) >= Depth(code, target) + 1
    ensures Depth(code, p + 1) - Depth(code, e) >= 0
    ensures ScanBackward(code, p, Depth(code, p + 1) - Depth(code, e)) == Some(target)
    decreases p
  {
    assert Depth(code, target + 1) == Depth(code, target) + 1;
    assert Depth(code, p + 1) == Depth(code, p) + Delta(code[p]);
    if p > target {
      ScanBackwardReaches(code, p - 1, e, target);
    }
  }

  /** The forward scan from a `[` finds a `]` whose backward scan finds that
      same `[` again. */
  lemma MatchingForward(code: seq<Byte>, i: nat)
    requires i < |code| && code[i] == OpOpen && ScanForward(code, i + 1, 0).Some?
    ensures var j := ScanForward(code, i + 1, 0).value;
            i < j && ScanBackward(code, j - 1, 0) == Some(i)
  {
    var j := ScanForward(code, i + 1, 0).value;
    ScanForwardDepth(code, i + 1, 0);
    assert Depth(code, i + 1) == Depth(code, i) + 1;
    ScanBackwardReaches(code, j - 1, j, i);
  }

  /** The backward scan stops at the first `[` where the depth climbs back to
      where it started, plus `loops`, and the depth never rises above that
      on the way. */
  lemma {:induction false} ScanBackwardDepth(code: seq<Byte>, i: int, loops: nat)
    ensures ScanBackward(code, i, loops).Some? ==>
              var k := ScanBackward(code, i, loops).value;
              && 0 <= k <= i < |code| && code[k] == OpOpen
              && loops == Depth(code, i + 1) - Depth(code, k + 1)
              && forall q :: k + 1 <= q <= i + 1 ==> loops - Depth(code, i + 1) + Depth(code, q) >= 0
    decreases i
  {
    if 0 <= i < |code| {
      assert Depth(code, i + 1) == Depth(code, i) + Delta(code[i]);
      if !(loops == 0 && code[i] == OpOpen) {
        var next := if code[i] == OpClose then loops + 1 else if code[i] == OpOpen then loops - 1 else loops;
        ScanBackwardDepth(code, i - 1, next);
      }
    }
  }

  /** The forward scan, started at `s` with `Depth(code, p) - Depth(code, s)`
      brackets open, reaches `target` when the depth stays above
      `Depth(code, s)` up to `target` and falls back to it there. */
  lemma {:induction false} ScanForwardReaches(code: seq<Byte>, s: nat, p: nat, target: nat)
    requires s <= p <= target < |code| && code[target] == OpClose
    requires Depth(code, target) == Depth(code, s)
    requires forall q :: s <= q <= target ==> Depth(code, q) >= Depth(code, s)
    ensures ScanForward(code, p, Depth(code, p) - Depth(code, s)) == Some(target)
    decreases target - p
  {
    assert Depth(code, p + 1) == Depth(code, p) + Delta(code[p]);
    if p < target {
      assert Depth(code, p + 1) >= Depth(code, s);
      ScanForwardReaches(code, s, p + 1, target);
    }
  }

  /** The backward scan from a `]` finds a `[` whose forward scan finds that
      same `]` again. */
  lemma MatchingBackward(code: seq<Byte>, j: nat)
    requires j < |code| && code[j] == OpClose && ScanBackward(code, j - 1, 0).Some?
    ensures var i := ScanBackward(code, j - 1, 0).value;
            i < j && ScanForward(code, i + 1, 0) == Some(j)
  {
    var i := ScanBackward(code, j - 1, 0).value;
    ScanBackwardDepth(code, j - 1, 0);
    assert Depth(code, i + 1) == Depth(code, i) + 1;
    ScanForwardReaches(code, i + 1, i + 1, j);
  }

  // ---------------------------------------------------------------------------
  // The main loop
  // ---------------------------------------------------------------------------

  /** The locals of `main`: the program counter, the address (both `usize`
      in a release build, modelled as unbounded integers), the tape, and
      the reader and writer. */
  datatype Machine = Machine(counter: int, address: int, memory: seq<Byte>, input: seq<Byte>, output: seq<Byte>)

  predicate OnTape(memory: seq<Byte>, a: int)
  {
    0 <= a < |memory|
  }

  function Initial(input: seq<Byte>): (m: Machine)
    ensures m.counter == 0 && m.address == 0 && |m.memory| == MemorySize
    ensures forall i :: 0 <= i < |m.memory| ==> m.memory[i] == 0
    ensures m.input == input && m.output == []
  {
    Machine(0, 0, seq(MemorySize, _ => 0), input, [])
  }

  /** One iteration of the `while counter < code.len()` loop, including the
      final `counter += 1`. */
  function Step(code: seq<Byte>, m: Machine): Outcome<Machine>
  {
    if !(0 <= m.counter < |code|) then Panic
    else
      var op := code[m.counter];
      if op == OpRight then Done(m.(address := m.address + 1, counter := m.counter + 1))
      else if op == OpLeft then Done(m.(address := m.address - 1, counter := m.counter + 1))
      else if op == OpOpen then Open(code, m)
      else if op == OpClose then Close(code, m)
      // every other command indexes the tape, `,` after reading its byte
      else if !OnTape(m.memory, m.address) then Panic
      else CellOp(op, m)
  }

  /** `+`, `-`, `.` and `,` on a cell of the tape; any other byte is an
      invalid operation. */
  function CellOp(op: Byte, m: Machine): Outcome<Machine>
    requires OnTape(m.memory, m.address)
  {
    var a := m.address;
    var m' := m.(counter := m.counter + 1);
    if op == OpInc then Done(m'.(memory := m.memory[a := WrapByte(m.memory[a] as int + 1)]))
    else if op == OpDec then Done(m'.(memory := m.memory[a := WrapByte(m.memory[a] as int - 1)]))
    else if op == OpOut then Done(m'.(output := m.output + [m.memory[a]]))
    else if op == OpIn then
      var b: Byte := if m.input == [] then 0 else m.input[0];
      Done(m'.(memory := m.memory[a := b], input := if m.input == [] then [] else m.input[1..]))
    else Panic
  }

  /** `[`: its guard reads the cell; on zero the counter moves past the `]`
      found by the forward scan. */
  function Open(code: seq<Byte>, m: Machine): Outcome<Machine>
  {
    if !OnTape(m.memory, m.address) then Panic
    else if m.memory[m.address] != 0 then Done(m.(counter := m.counter + 1))
    else
      match ScanForward(code, m.counter + 1, 0)
      case None => Panic
      case Some(j) => Done(m.(counter := j + 1))
  }

  /** `]`: the backward scan finds the `[`; the `counter -= 1` after the scan
      and the `counter += 1` at the end of the iteration cancel, so that `[`
      runs next. */
  function Close(code: seq<Byte>, m: Machine): Outcome<Machine>
  {
    match ScanBackward(code, m.counter - 1, 0)
    case None => Panic
    case Some(k) => Done(m.(counter := k))
  }

  /** The main loop, one unit of fuel per iteration. */
  function Run(code: seq<Byte>, m: Machine, fuel: nat): Outcome<Machine>
    decreases fuel
  {
    if m.counter >= |code| then Done(m)
    else if fuel == 0 then OutOfFuel
    else
      match Step(code, m)
      case Done(m') => Run(code, m', fuel - 1)
      case other => other
  }

  /** `main` after the file is read: filter, then run from the initial
      state. */
  function Program(source: seq<Byte>, input: seq<Byte>, fuel: nat): Outcome<Machine>
  {
    Run(Filter(source), Initial(input), fuel)
  }

  function StatusOf<M>(r: Outcome<M>): Status
  {
    match r
    case Done(_) => Finished
    case Panic => Panicked
    case OutOfFuel => Exhausted
  }

  // ---------------------------------------------------------------------------
  // Properties of a step
  // ---------------------------------------------------------------------------

  /** `[` on a zero cell moves the counter just past the `]` that closes it:
      the code between them is balanced and never closes more than it
      opens. On a non-zero cell it falls through. */
  lemma OpenSkips(code: seq<Byte>, m: Machine)
    requires 0 <= m.counter < |code| && code[m.counter] == OpOpen && OnTape(m.memory, m.address)
    ensures m.memory[m.address] != 0 ==> Step(code, m) == Done(m.(counter := m.counter + 1))
    ensures m.memory[m.address] == 0 && Step(code, m).Done? ==>
              var c := Step(code, m).machine.counter;
              && m.counter + 2 <= c <= |code| && code[c - 1] == OpClose
              && Depth(code, c) == Depth(code, m.counter)
              && (forall q :: m.counter < q < c ==> Depth(code, q) > Depth(code, m.counter))
              && Step(code, m).machine == m.(counter := c)
  {
    if m.memory[m.address] == 0 && Step(code, m).Done? {
      var i := m.counter;
      ScanForwardDepth(code, i + 1, 0);
      assert Depth(code, i + 1) == Depth(code, i) + 1;
      var j := ScanForward(code, i + 1, 0).value;
      assert Depth(code, j + 1) == Depth(code, j) - 1;
    }
  }

  /** `]` sends the counter to the `[` whose forward scan ends at this `]`,
      so that `[` runs next and tests the cell again; nothing else
      changes. */
  lemma CloseJumpsBack(code: seq<Byte>, m: Machine)
    requires 0 <= m.counter < |code| && code[m.counter] == OpClose && Step(code, m).Done?
    ensures var k := Step(code, m).machine.counter;
            && 0 <= k < m.counter && code[k] == OpOpen
            && ScanForward(code, k + 1, 0) == Some(m.counter)
            && Step(code, m).machine == m.(counter := k)
  {
    ScanBackwardDepth(code, m.counter - 1, 0);
    MatchingBackward(code, m.counter);
  }

  /** `>` and `<` undo each other and touch nothing else. */
  lemma RightLeft(code: seq<Byte>, m: Machine)
    requires 0 <= m.counter && m.counter + 1 < |code|
    requires code[m.counter] == OpRight && code[m.counter + 1] == OpLeft
    ensures Run(code, m, 2) == Run(code, m.(counter := m.counter + 2), 0)
  {
    var m1 := m.(address := m.address + 1, counter := m.counter + 1);
    assert Step(code, m) == Done(m1);
    assert Step(code, m1) == Done(m.(counter := m.counter + 2));
  }

  /** `+` and `-` change the current cell by one modulo 256, in opposite
      directions, and touch no other cell. */
  lemma IncDec(code: seq<Byte>, m: Machine, i: int)
    requires 0 <= m.counter < |code| && OnTape(m.memory, m.address) && 0 <= i < |m.memory|
    requires code[m.counter] == OpInc || code[m.counter] == OpDec
    ensures Step(code, m).Done?
    ensures var m' := Step(code, m).machine;
            && m'.counter == m.counter + 1 && m'.address == m.address
            && m'.input == m.input && m'.output == m.output && |m'.memory| == |m.memory|
            && (m'.memory[i] as int - m.memory[i] as int) % 256 ==
               (if i != m.address then 0 else if code[m.counter] == OpInc then 1 else 255)
  {
  }

  /** `.` appends exactly the current cell; `,` stores the next input byte,
      or 0 at end of input. */
  lemma OutIn(code: seq<Byte>, m: Machine)
    requires 0 <= m.counter < |code| && OnTape(m.memory, m.address)
    requires code[m.counter] == OpOut || code[m.counter] == OpIn
    ensures Step(code, m).Done?
    ensures var m' := Step(code, m).machine;
            && m'.counter == m.counter + 1 && m'.address == m.address
            && (code[m.counter] == OpOut ==>
                  m'.output == m.output + [m.memory[m.address]] && m'.memory == m.memory && m'.input == m.input)
            && (code[m.counter] == OpIn ==>
                  && m'.memory[m.address] == (if m.input == [] then 0 else m.input[0])
                  && (m.input == [] ==> m'.input == [])
                  && (m.input != [] ==> [m.input[0]] + m'.input == m.input)
                  && m'.output == m.output)
  {
    if code[m.counter] == OpIn && m.input != [] {
      assert [m.input[0]] + m.input[1..] == m.input;
    }
  }

  /** A step that indexes the tape outside it panics. */
  lemma OffTapePanics(code: seq<Byte>, m: Machine)
    requires 0 <= m.counter < |code| && !OnTape(m.memory, m.address)
    requires code[m.counter] in {OpInc, OpDec, OpOut, OpIn, OpOpen}
    ensures Step(code, m) == Panic
  {
  }

  // ---------------------------------------------------------------------------
  // The interpreter as the source runs it
  // ---------------------------------------------------------------------------

  /** The forward scan of `[`, as the inner `while` loop runs it. */
  method SkipForward(code: seq<Byte>, start: int) returns (found: bool, j: int)
    ensures found == ScanForward(code, start, 0).Some?
    ensures found ==> j == ScanForward(code, start, 0).value
  {
    j := start;
    var loops: nat := 0;
    while 0 <= j < |code| && (loops > 0 || code[j] != OpClose)
      invariant ScanForward(code, j, loops) == ScanForward(code, start, 0)
      decreases |code| - j
    {
      loops := if code[j] == OpOpen then loops + 1 else if code[j] == OpClose then loops - 1 else loops;
      j := j + 1;
    }
    found := 0 <= j < |code|;
  }

  /** The backward scan of `]`, as the inner `while` loop runs it. */
  method SkipBackward(code: seq<Byte>, start: int) returns (found: bool, k: int)
    ensures found == ScanBackward(code, start, 0).Some?
    ensures found ==> k == ScanBackward(code, start, 0).value
  {
    k := start;
    var loops: nat := 0;
    while 0 <= k < |code| && (loops > 0 || code[k] != OpOpen)
      invariant ScanBackward(code, k, loops) == ScanBackward(code, start, 0)
      decreases k + 1
    {
      loops := if code[k] == OpClose then loops + 1 else if code[k] == OpOpen then loops - 1 else loops;
      k := k - 1;
    }
    found := 0 <= k < |code|;
  }

  /** The `[` arm: the guard reads the cell; on zero, the forward scan.
      Returns the counter before the final `counter += 1`. */
  method OpenCommand(code: seq<Byte>, counter: int, address: int, memory: array<Byte>, ghost m: Machine)
    returns (ok: bool, counter': int)
    requires m.counter == counter && m.address == address && m.memory == memory[..]
    ensures Open(code, m) == if ok then Done(m.(counter := counter' + 1)) else Panic
  {
    if !(0 <= address < memory.Length) {
      return false, counter;
    }
    if memory[address] != 0 {
      return true, counter;
    }
    ok, counter' := SkipForward(code, counter + 1);
  }

  /** The `]` arm: the backward scan, then `counter -= 1`. */
  method CloseCommand(code: seq<Byte>, counter: int, ghost m: Machine) returns (ok: bool, counter': int)
    requires m.counter == counter
    ensures Close(code, m) == if ok then Done(m.(counter := counter' + 1)) else Panic
  {
    var k;
    ok, k := SkipBackward(code, counter - 1);
    counter' := k - 1;
  }

  /** The arms that read or write the current cell, and the invalid
      operation. */
  method CellCommand(op: Byte, address: int, memory: array<Byte>, input: seq<Byte>, output: seq<Byte>, ghost m: Machine)
    returns (ok: bool, input': seq<Byte>, output': seq<Byte>)
    requires 0 <= address < memory.Length
    requires m.address == address && m.memory == memory[..] && m.input == input && m.output == output
    modifies memory
    ensures CellOp(op, m) ==
            if ok then Done(m.(counter := m.counter + 1, memory := memory[..], input := input', output := output'))
            else Panic
  {
    ok, input', output' := true, input, output;
    if op == OpInc {
      memory[address] := WrapByte(memory[address] as int + 1);
    } else if op == OpDec {
      memory[address] := WrapByte(memory[address] as int - 1);
    } else if op == OpOut {
      output' := output + [memory[address]];
    } else if op == OpIn {
      var b: Byte := 0;
      if input != [] {
        b, input' := input[0], input[1..];
      }
      memory[address] := b;
    } else {
      ok := false;
    }
  }

  /** One iteration of the main loop, on the locals of `main`. */
  method ExecStep(code: seq<Byte>, counter: int, address: int, memory: array<Byte>, input: seq<Byte>, output: seq<Byte>)
    returns (ok: bool, counter': int, address': int, input': seq<Byte>, output': seq<Byte>)
    requires 0 <= counter < |code|
    modifies memory
    ensures Step(code, Machine(counter, address, old(memory[..]), input, output)) ==
            if ok then Done(Machine(counter', address', memory[..], input', output')) else Panic
    ensures ok ==> counter' >= 0
  {
    ghost var m := Machine(counter, address, memory[..], input, output);
    ok, counter', address', input', output' := true, counter, address, input, output;
    var op := code[counter];
    if op == OpRight {
      address' := address + 1;
    } else if op == OpLeft {
      address' := address - 1;
    } else if op == OpOpen {
      ok, counter' := OpenCommand(code, counter, address, memory, m);
    } else if op == OpClose {
      ok, counter' := CloseCommand(code, counter, m);
    } else if 0 <= address < memory.Length {
      ok, input', output' := CellCommand(op, address, memory, input, output, m);
    } else {
      ok := false;
    }
    counter' := counter' + 1;
  }

  /** A step that does not end the run leaves the rest of the run to the
      remaining fuel. */
  lemma RunStep(code: seq<Byte>, m: Machine, fuel: nat)
    requires m.counter < |code| && fuel > 0 && Step(code, m).Done?
    ensures Run(code, m, fuel) == Run(code, Step(code, m).machine, fuel - 1)
  {
  }

  /** `main` from the file's bytes on: filter them, then run the loop over a
      fresh zeroed tape. Returns how the run ended and what was written. */
  method Interpret(source: seq<Byte>, input: seq<Byte>, fuel: nat) returns (status: Status, output: seq<Byte>)
    ensures status == StatusOf(Program(source, input, fuel))
    ensures status == Finished ==> output == Program(source, input, fuel).machine.output
  {
    var code := Filter(source);
    var counter: int := 0;
    var memory := new Byte[MemorySize](_ => 0);
    var address: int := 0;
    var rest := input;
    output := [];
    var f: nat := fuel;
    assert memory[..] == Initial(input).memory;
    while counter < |code|
      invariant 0 <= counter
      invariant Program(source, input, fuel) == Run(code, Machine(counter, address, memory[..], rest, output), f)
      decreases f
    {
      if f == 0 {
        return Exhausted, output;
      }
      ghost var m := Machine(counter, address, memory[..], rest, output);
      var ok;
      ok, counter, address, rest, output := ExecStep(code, counter, address, memory, rest, output);
      if !ok {
        return Panicked, output;
      }
      RunStep(code, m, f);
      f := f - 1;
    }
    status := Finished;
  }
}
