/** The peephole optimizer of bf-jit (rust/bf-jit/src/optimizer.rs): lazy-move
    coalescing of the straight-line runs between loops, and the rewrite of
    multiply loops into `Mul`/`Clear` blocks. The rewrites are first given as
    functions on sequences; the methods at the end perform them in place on an
    array, as the Rust code does on its `Vec<Expr>`, and are proved to compute
    those functions. */
module BfJitOptimizer {
  import opened Wrappers
  import opened BfJitIr

  // ---------------------------------------------------------------------------
  // Lazy-move coalescing of one straight-line run
  // ---------------------------------------------------------------------------

  /** The nodes lazy-move coalescing accepts; on any other node it panics. */
  predicate Coalescible(e: Expr)
  {
    e.Add? || e.Move? || e.Out? || e.In? || e.Clear? || e.Nop?
  }

  predicate AllCoalescible(run: seq<Expr>)
  {
    forall i :: 0 <= i < |run| ==> Coalescible(run[i])
  }

  /** A node that addresses a cell and is kept by coalescing. */
  predicate IsCellOp(e: Expr)
  {
    e.Add? || e.Out? || e.In? || e.Clear?
  }

  /** The sum of the `Move`s of a run: where the pointer ends up, relative to
      where it started. */
  function Displacement(run: seq<Expr>): int
  {
    if run == [] then 0
    else
      var last := run[|run| - 1];
      Displacement(run[..|run| - 1]) + (if last.Move? then last.offset else 0)
  }

  /** The cell operation `e` with its offset raised by `d`; nothing for other nodes. */
  function Shifted(e: Expr, d: int): seq<Expr>
  {
    match e
    case Add(c, o) => [Add(c, d + o)]
    case Out(o) => [Out(d + o)]
    case In(o) => [In(d + o)]
    case Clear(o) => [Clear(d + o)]
    case _ => []
  }

  /** The cell operations of a run, in order, each raised by the displacement
      of the `Move`s before it. */
  function Relocated(run: seq<Expr>): seq<Expr>
  {
    if run == [] then []
    else
      var init := run[..|run| - 1];
      Relocated(init) + Shifted(run[|run| - 1], Displacement(init))
  }

  /** The number of cell operations in a run. */
  function OpCount(run: seq<Expr>): nat
  {
    if run == [] then 0
    else OpCount(run[..|run| - 1]) + (if IsCellOp(run[|run| - 1]) then 1 else 0)
  }

  function Nops(n: nat): (r: seq<Expr>)
    ensures |r| == n && forall i :: 0 <= i < n ==> r[i] == Nop
  {
    seq(n, _ => Nop)
  }

  /** The relocated operations `ops`, then `Move(d)` unless `d` is 0, then
      `Nop` up to length `n`. */
  function Coalesced(ops: seq<Expr>, d: int, n: nat): (r: seq<Expr>)
    requires |ops| + (if d != 0 then 1 else 0) <= n
    ensures |r| == n
  {
    var compacted := if d != 0 then ops + [Move(d)] else ops;
    compacted + Nops(n - |compacted|)
  }

  /** The run after `optimize_lazy_move`: the relocated cell operations at the
      front, then one `Move` by the total displacement unless it is 0, then
      `Nop` up to the original length. `None` when the run holds a node the
      pass rejects. */
  function LazyMove(run: seq<Expr>): Option<seq<Expr>>
  {
    if !AllCoalescible(run) then None
    else
      WriteCursorBound(run);
      Some(Coalesced(Relocated(run), Displacement(run), |run|))
  }

  /** The write cursor never overtakes the read cursor: the compacted
      operations fit in the run, and so does the trailing `Move`, because a
      non-zero displacement means at least one `Move` was consumed. */
  lemma {:induction false} WriteCursorBound(run: seq<Expr>)
    ensures |Relocated(run)| == OpCount(run)
    ensures |Relocated(run)| <= |run|
    ensures Displacement(run) != 0 ==> |Relocated(run)| < |run|
  {
    if run != [] {
      WriteCursorBound(run[..|run| - 1]);
    }
  }

  /** Relocation keeps cell operations only, never a `Move` or `Nop`. */
  lemma {:induction false} RelocatedCellOps(run: seq<Expr>)
    ensures forall i :: 0 <= i < |Relocated(run)| ==> IsCellOp(Relocated(run)[i])
  {
    if run != [] {
      RelocatedCellOps(run[..|run| - 1]);
    }
  }

  /** The `k`-th cell operation of the run (at index `i`) lands at index `k` of
      the relocated sequence, raised by the displacement of the moves before it. */
  lemma {:induction false} RelocatedAt(run: seq<Expr>, i: nat)
    requires i < |run| && IsCellOp(run[i])
    ensures OpCount(run[..i]) < |Relocated(run)|
    ensures [Relocated(run)[OpCount(run[..i])]] == Shifted(run[i], Displacement(run[..i]))
  {
    var init := run[..|run| - 1];
    WriteCursorBound(run);
    if i == |run| - 1 {
      assert run[..i] == init;
      WriteCursorBound(init);
    } else {
      assert init[..i] == run[..i];
      RelocatedAt(init, i);
    }
  }

  lemma LazyMoveLength(run: seq<Expr>)
    requires AllCoalescible(run)
    ensures |LazyMove(run).value| == |run|
  {
  }

  /** The shape `optimize_lazy_move` leaves behind: the relocated operations,
      at most one `Move` (equal to the total displacement, placed directly
      after them and omitted when that is 0), and `Nop` everywhere else. */
  lemma LazyMoveShape(run: seq<Expr>)
    requires AllCoalescible(run)
    ensures var r := LazyMove(run).value;
            var n := |Relocated(run)|;
            var d := Displacement(run);
            && |r| == |run|
            && r[..n] == Relocated(run)
            && (forall i :: 0 <= i < n ==> IsCellOp(r[i]))
            && (d != 0 ==> r[n] == Move(d))
            && (forall i :: 0 <= i < |r| && r[i].Move? ==> i == n && d != 0)
            && (forall i :: n + (if d != 0 then 1 else 0) <= i < |r| ==> r[i] == Nop)
  {
    var ops := Relocated(run);
    var d := Displacement(run);
    var compacted := if d != 0 then ops + [Move(d)] else ops;
    WriteCursorBound(run);
    RelocatedCellOps(run);
    var r := Coalesced(ops, d, |run|);
    var nops := Nops(|run| - |compacted|);
    assert r == compacted + nops;
    assert LazyMove(run) == Some(r);
    forall i | 0 <= i < |ops|
      ensures r[i] == ops[i] && !r[i].Move?
    {
      assert IsCellOp(ops[i]);
    }
    assert r[..|ops|] == ops;
    forall i | |compacted| <= i < |r|
      ensures r[i] == Nop
    {
      assert r[i] == nops[i - |compacted|];
    }
  }

  // ---------------------------------------------------------------------------
  // Lazy-move coalescing preserves the meaning of the run
  // ---------------------------------------------------------------------------

  lemma NopsRun(n: nat, m: Machine, fuel: nat)
    ensures ExecSeq(Nops(n), m, fuel) == Some(m)
    decreases n
  {
    if n > 0 {
      assert Nops(n)[1..] == Nops(n - 1);
      NopsRun(n - 1, m, fuel);
    }
  }

  lemma ExecSingle(e: Expr, m: Machine, fuel: nat)
    ensures ExecSeq([e], m, fuel) == ExecOne(e, m, fuel)
  {
    match ExecOne(e, m, fuel)
    case None =>
    case Some(m') => assert [e][1..] == [];
  }

  /** One coalescible node run with the pointer at `p + d` does what its
      shifted form does with the pointer at `p`, apart from the pointer. */
  lemma ShiftedStep(e: Expr, d: int, x: Machine, p: int, fuel: nat)
    requires Coalescible(e) && x.ptr == p + d
    ensures ExecOne(e, x, fuel).Some?
    ensures ExecOne(e, x, fuel).value.ptr == x.ptr + (if e.Move? then e.offset else 0)
    ensures ExecSeq(Shifted(e, d), x.(ptr := p), fuel) == Some(ExecOne(e, x, fuel).value.(ptr := p))
  {
    var y := x.(ptr := p);
    if IsCellOp(e) {
      var s := Shifted(e, d)[0];
      assert Shifted(e, d) == [s];
      ExecSingle(s, y, fuel);
    } else {
      assert Shifted(e, d) == [];
    }
  }

  /** Running a straight-line run moves the pointer by its displacement, and
      running its relocated operations from the same start makes exactly the
      same cell updates and I/O while leaving the pointer where it was. */
  lemma {:induction false} RelocatedAgrees(run: seq<Expr>, m: Machine, fuel: nat)
    requires AllCoalescible(run)
    ensures ExecSeq(run, m, fuel).Some?
    ensures ExecSeq(run, m, fuel).value.ptr == m.ptr + Displacement(run)
    ensures ExecSeq(Relocated(run), m, fuel) == Some(ExecSeq(run, m, fuel).value.(ptr := m.ptr))
  {
    if run != [] {
      var init := run[..|run| - 1];
      var e := run[|run| - 1];
      var d := Displacement(init);
      assert run == init + [e];
      assert AllCoalescible(init);
      RelocatedAgrees(init, m, fuel);
      var r1 := ExecSeq(init, m, fuel).value;
      ShiftedStep(e, d, r1, m.ptr, fuel);
      ExecSeqAppend(init, [e], m, fuel);
      ExecSingle(e, r1, fuel);
      ExecSeqAppend(Relocated(init), Shifted(e, d), m, fuel);
    }
  }

  /** The headline property of the pass: a coalesced run makes the same cell
      updates, the same I/O and leaves the same final pointer as the original
      run, from every starting machine. */
  lemma {:induction false} LazyMoveSound(run: seq<Expr>, m: Machine, fuel: nat)
    requires AllCoalescible(run)
    ensures ExecSeq(LazyMove(run).value, m, fuel) == ExecSeq(run, m, fuel)
  {
    var ops := Relocated(run);
    var d := Displacement(run);
    var compacted := if d != 0 then ops + [Move(d)] else ops;
    WriteCursorBound(run);
    assert LazyMove(run).value == compacted + Nops(|run| - |compacted|);
    RelocatedAgrees(run, m, fuel);
    var final := ExecSeq(run, m, fuel).value;
    ExecSeqAppend(compacted, Nops(|run| - |compacted|), m, fuel);
    if d != 0 {
      ExecSeqAppend(ops, [Move(d)], m, fuel);
      ExecSingle(Move(d), final.(ptr := m.ptr), fuel);
    }
    NopsRun(|run| - |compacted|, final, fuel);
  }

  // ---------------------------------------------------------------------------
  // Coalescing twice is coalescing once
  // ---------------------------------------------------------------------------

  lemma {:induction false} SnocNops(x: seq<Expr>, n: nat)
    ensures Relocated(x + Nops(n)) == Relocated(x)
    ensures Displacement(x + Nops(n)) == Displacement(x)
    decreases n
  {
    if n > 0 {
      var y := x + Nops(n);
      assert y[..|y| - 1] == x + Nops(n - 1);
      SnocNops(x, n - 1);
    } else {
      assert x + Nops(n) == x;
    }
  }

  /** A run of cell operations has no displacement and relocates to itself. */
  lemma {:induction false} RelocatedOfCellOps(ops: seq<Expr>)
    requires forall i :: 0 <= i < |ops| ==> IsCellOp(ops[i])
    ensures Displacement(ops) == 0
    ensures Relocated(ops) == ops
  {
    if ops != [] {
      var init := ops[..|ops| - 1];
      CellOpsInit(ops, init);
      RelocatedOfCellOps(init);
      CellOpAppended(init, ops[|ops| - 1], ops);
    }
  }

  lemma CellOpsInit(ops: seq<Expr>, init: seq<Expr>)
    requires ops != [] && init == ops[..|ops| - 1]
    requires forall i :: 0 <= i < |ops| ==> IsCellOp(ops[i])
    ensures forall i :: 0 <= i < |init| ==> IsCellOp(init[i])
    ensures IsCellOp(ops[|ops| - 1]) && ops == init + [ops[|ops| - 1]]
  {
    assert forall i :: 0 <= i < |init| ==> init[i] == ops[i];
  }

  /** One more cell operation after a run that relocates to itself. */
  lemma CellOpAppended(init: seq<Expr>, e: Expr, ops: seq<Expr>)
    requires IsCellOp(e) && ops == init + [e]
    requires Displacement(init) == 0 && Relocated(init) == init
    ensures Displacement(ops) == 0 && Relocated(ops) == ops
  {
    assert ops[..|ops| - 1] == init;
    ShiftedByZero(e);
  }

  lemma ShiftedByZero(e: Expr)
    requires IsCellOp(e)
    ensures Shifted(e, 0) == [e] && !e.Move?
  {
  }

  /** A coalesced shape relocates to its own operations, is displaced by
      its own `Move`, and holds only nodes the pass accepts. */
  lemma CoalescedFacts(ops: seq<Expr>, d: int, n: nat)
    requires forall i :: 0 <= i < |ops| ==> IsCellOp(ops[i])
    requires |ops| + (if d != 0 then 1 else 0) <= n
    ensures Relocated(Coalesced(ops, d, n)) == ops
    ensures Displacement(Coalesced(ops, d, n)) == d
    ensures AllCoalescible(Coalesced(ops, d, n))
  {
    var compacted := if d != 0 then ops + [Move(d)] else ops;
    CompactedFacts(ops, d, compacted);
    SnocNops(compacted, n - |compacted|);
    PadCoalescible(compacted, n - |compacted|);
  }

  /** The compacted operations, with the trailing `Move` when there is one. */
  lemma CompactedFacts(ops: seq<Expr>, d: int, compacted: seq<Expr>)
    requires forall i :: 0 <= i < |ops| ==> IsCellOp(ops[i])
    requires compacted == if d != 0 then ops + [Move(d)] else ops
    ensures Relocated(compacted) == ops && Displacement(compacted) == d
    ensures AllCoalescible(compacted)
  {
    RelocatedOfCellOps(ops);
    if d != 0 {
      assert compacted[..|compacted| - 1] == ops;
    }
  }

  lemma PadCoalescible(x: seq<Expr>, n: nat)
    requires AllCoalescible(x)
    ensures AllCoalescible(x + Nops(n))
  {
    var y := x + Nops(n);
    forall i | 0 <= i < |y| ensures Coalescible(y[i]) {
      if i < |x| {
        assert y[i] == x[i];
      }
    }
  }

  /** Coalescing is idempotent: re-running it on its own output changes nothing. */
  lemma LazyMoveIdempotent(run: seq<Expr>)
    requires AllCoalescible(run)
    ensures LazyMove(run).Some? && LazyMove(LazyMove(run).value) == LazyMove(run)
  {
    WriteCursorBound(run);
    RelocatedCellOps(run);
    CoalescedFacts(Relocated(run), Displacement(run), |run|);
  }

  // ---------------------------------------------------------------------------
  // Multiply loops
  // ---------------------------------------------------------------------------

  predicate IsZeroOffsetAdd(e: Expr)
  {
    e.Add? && e.offset == 0
  }

  predicate AllAddOrNop(body: seq<Expr>)
  {
    forall i :: 0 <= i < |body| ==> body[i].Add? || body[i].Nop?
  }

  /** The `Add`s at offset 0, in order: what the iterator `zeros` yields. */
  function ZeroOffsetAdds(body: seq<Expr>): seq<Expr>
  {
    if body == [] then []
    else (if IsZeroOffsetAdd(body[0]) then [body[0]] else []) + ZeroOffsetAdds(body[1..])
  }

  /** `can_convert_to_multiplication`: only `Add` and `Nop`, the first
      offset-0 `Add` is `Add(-1, 0)`, and there is no second one. */
  predicate CanConvertToMultiplication(body: seq<Expr>)
  {
    && AllAddOrNop(body)
    && var zeros := ZeroOffsetAdds(body);
       zeros != [] && zeros[0] == Add(-1, 0) && zeros[1..] == []
  }

  /** The `Mul`s `optimize_multiplication` pushes: one `Mul(c, o)` for each
      `Add(c, o)` with `o != 0`, in order. */
  function Multiplications(body: seq<Expr>): seq<Expr>
  {
    if body == [] then []
    else
      (if body[0].Add? && body[0].offset != 0 then [Mul(body[0].count, body[0].offset)] else [])
      + Multiplications(body[1..])
  }

  /** `optimize_multiplication`: the block that replaces a multiply loop. */
  function OptimizeMultiplication(body: seq<Expr>): (r: Expr)
    ensures r.Block? && |r.body| >= 1 && r.body[|r.body| - 1] == Clear(0)
    ensures forall i :: 0 <= i < |r.body| - 1 ==> r.body[i].Mul? && r.body[i].offset != 0
  {
    MultiplicationsAreMuls(body);
    Block(Multiplications(body) + [Clear(0)])
  }

  lemma {:induction false} MultiplicationsAreMuls(body: seq<Expr>)
    ensures forall i :: 0 <= i < |Multiplications(body)| ==>
              Multiplications(body)[i].Mul? && Multiplications(body)[i].offset != 0
  {
    if body != [] {
      MultiplicationsAreMuls(body[1..]);
    }
  }

  lemma {:induction false} ZeroOffsetAddsAppend(a: seq<Expr>, b: seq<Expr>)
    ensures ZeroOffsetAdds(a + b) == ZeroOffsetAdds(a) + ZeroOffsetAdds(b)
  {
    if a == [] {
      assert a + b == b;
    } else {
      var ab := a + b;
      assert ab[0] == a[0];
      assert ab[1..] == a[1..] + b;
      ZeroOffsetAddsAppend(a[1..], b);
      var head := if IsZeroOffsetAdd(a[0]) then [a[0]] else [];
      assert ZeroOffsetAdds(ab) == head + ZeroOffsetAdds(a[1..] + b);
      assert ZeroOffsetAdds(a) == head + ZeroOffsetAdds(a[1..]);
      assert head + (ZeroOffsetAdds(a[1..]) + ZeroOffsetAdds(b)) == (head + ZeroOffsetAdds(a[1..])) + ZeroOffsetAdds(b);
    }
  }

  lemma {:induction false} ZeroOffsetAddsEmpty(s: seq<Expr>)
    ensures ZeroOffsetAdds(s) == [] <==> forall i :: 0 <= i < |s| ==> !IsZeroOffsetAdd(s[i])
  {
    if s != [] {
      ZeroOffsetAddsEmpty(s[1..]);
      assert forall i :: 1 <= i < |s| ==> s[i] == s[1..][i - 1];
    }
  }

  lemma {:induction false} ZeroOffsetAddsFirst(s: seq<Expr>) returns (k: nat)
    requires ZeroOffsetAdds(s) != []
    ensures k < |s| && IsZeroOffsetAdd(s[k]) && ZeroOffsetAdds(s)[0] == s[k]
    ensures ZeroOffsetAdds(s)[1..] == ZeroOffsetAdds(s[k + 1..])
    ensures forall i :: 0 <= i < k ==> !IsZeroOffsetAdd(s[i])
  {
    if IsZeroOffsetAdd(s[0]) {
      k := 0;
    } else {
      var k' := ZeroOffsetAddsFirst(s[1..]);
      k := k' + 1;
      assert s[1..][k' + 1..] == s[k + 1..];
    }
  }

  /** `body[k]` is `Add(-1, 0)` and no other node of `body` is an `Add` at offset 0. */
  predicate OnlyCounterAddAt(body: seq<Expr>, k: int)
  {
    && 0 <= k < |body| && body[k] == Add(-1, 0)
    && forall i :: 0 <= i < |body| && i != k ==> !IsZeroOffsetAdd(body[i])
  }

  /** `can_convert_to_multiplication` holds exactly when the body holds only
      `Add` and `Nop`, and exactly one of its `Add`s has offset 0, namely
      `Add(-1, 0)`. */
  lemma CanConvertCharacterization(body: seq<Expr>)
    ensures CanConvertToMultiplication(body) <==>
            AllAddOrNop(body) && exists k :: OnlyCounterAddAt(body, k)
  {
    if CanConvertToMultiplication(body) {
      var k := ZeroOffsetAddsFirst(body);
      ZeroOffsetAddsEmpty(body[k + 1..]);
      assert forall i :: k < i < |body| ==> body[i] == body[k + 1..][i - k - 1];
      assert OnlyCounterAddAt(body, k);
    }
    if AllAddOrNop(body) && exists k :: OnlyCounterAddAt(body, k) {
      var k :| OnlyCounterAddAt(body, k);
      assert body == body[..k] + [body[k]] + body[k + 1..];
      ZeroOffsetAddsAppend(body[..k] + [body[k]], body[k + 1..]);
      ZeroOffsetAddsAppend(body[..k], [body[k]]);
      ZeroOffsetAddsEmpty(body[..k]);
      ZeroOffsetAddsEmpty(body[k + 1..]);
      assert ZeroOffsetAdds([body[k]]) == [body[k]] by {
        assert [body[k]][1..] == [];
      }
    }
  }

  // ---------------------------------------------------------------------------
  // The multiply rewrite preserves the meaning of the loop
  // ---------------------------------------------------------------------------

  /** What one node adds at offset `o`: its count for an `Add` or `Mul` there. */
  function NodeWeight(e: Expr, o: int): int
  {
    if (e.Add? || e.Mul?) && e.offset == o then e.count else 0
  }

  /** The total amount the `Add`s and `Mul`s of `es` at offset `o` add (a
      `Mul` adds that many times the counter cell). */
  function Weight(es: seq<Expr>, o: int): int
  {
    if es == [] then 0 else NodeWeight(es[0], o) + Weight(es[1..], o)
  }

  lemma WeightPrepend(head: seq<Expr>, rest: seq<Expr>, o: int)
    requires |head| <= 1
    ensures Weight(head + rest, o) == (if head == [] then 0 else NodeWeight(head[0], o)) + Weight(rest, o)
  {
    if head == [] {
      assert head + rest == rest;
    } else {
      assert (head + rest)[1..] == rest;
    }
  }

  lemma {:induction false} WeightOfZeroOffsetAdds(s: seq<Expr>)
    requires AllAddOrNop(s)
    ensures Weight(s, 0) == Weight(ZeroOffsetAdds(s), 0)
  {
    if s != [] {
      WeightOfZeroOffsetAdds(s[1..]);
      var head := if IsZeroOffsetAdd(s[0]) then [s[0]] else [];
      WeightPrepend(head, ZeroOffsetAdds(s[1..]), 0);
    }
  }

  /** A convertible loop body lowers its counter cell by exactly one per pass. */
  lemma CounterWeight(body: seq<Expr>)
    requires CanConvertToMultiplication(body)
    ensures Weight(body, 0) == -1
  {
    WeightOfZeroOffsetAdds(body);
    var z := ZeroOffsetAdds(body);
    assert z == [Add(-1, 0)];
  }

  /** Each `Mul` carries the count of the `Add` it replaces, so the
      multiplications add, per offset other than 0, what one pass of the body
      adds, and nothing at offset 0. */
  lemma {:induction false} MultiplicationsWeight(body: seq<Expr>, o: int)
    requires AllAddOrNop(body)
    ensures Weight(Multiplications(body), o) == if o == 0 then 0 else Weight(body, o)
  {
    if body != [] {
      MultiplicationsWeight(body[1..], o);
      var head := if body[0].Add? && body[0].offset != 0 then [Mul(body[0].count, body[0].offset)] else [];
      WeightPrepend(head, Multiplications(body[1..]), o);
    }
  }

  lemma WrapAdd(x: int, y: int)
    ensures Wrap(Wrap(x) + y) == Wrap(x + y)
  {
  }

  lemma AddOrNopStep(e: Expr, m: Machine, fuel: nat, a: int)
    requires (e.Add? || e.Nop?) && ValidTape(m.tape)
    ensures ExecOne(e, m, fuel).Some?
    ensures var m1 := ExecOne(e, m, fuel).value;
            && m1.ptr == m.ptr && m1.input == m.input && m1.output == m.output
            && ValidTape(m1.tape)
            && Cell(m1.tape, a) == Wrap(Cell(m.tape, a) + NodeWeight(e, a - m.ptr))
  {
  }

  /** One pass over a body of `Add`s and `Nop`s adds its weight to the cell at
      `a`, and leaves the pointer and the I/O alone. */
  lemma {:induction false} AddsCell(body: seq<Expr>, m: Machine, fuel: nat, a: int)
    requires AllAddOrNop(body) && ValidTape(m.tape)
    ensures ExecSeq(body, m, fuel).Some?
    ensures var m' := ExecSeq(body, m, fuel).value;
            && m'.ptr == m.ptr && m'.input == m.input && m'.output == m.output
            && ValidTape(m'.tape)
            && Cell(m'.tape, a) == Wrap(Cell(m.tape, a) + Weight(body, a - m.ptr))
  {
    if body != [] {
      AddOrNopStep(body[0], m, fuel, a);
      var m1 := ExecOne(body[0], m, fuel).value;
      AddsCell(body[1..], m1, fuel, a);
      WrapAdd(Cell(m.tape, a) + NodeWeight(body[0], a - m.ptr), Weight(body[1..], a - m.ptr));
    }
  }

  /** One pass over a body of `Add`s and `Nop`s adds its weight to every cell. */
  lemma AddsEffect(body: seq<Expr>, m: Machine, fuel: nat)
    requires AllAddOrNop(body) && ValidTape(m.tape)
    ensures ExecSeq(body, m, fuel).Some?
    ensures var m' := ExecSeq(body, m, fuel).value;
            && m'.ptr == m.ptr && m'.input == m.input && m'.output == m.output
            && ValidTape(m'.tape)
            && forall a :: Cell(m'.tape, a) == Wrap(Cell(m.tape, a) + Weight(body, a - m.ptr))
  {
    AddsCell(body, m, fuel, m.ptr);
    forall a ensures Cell(ExecSeq(body, m, fuel).value.tape, a) == Wrap(Cell(m.tape, a) + Weight(body, a - m.ptr)) {
      AddsCell(body, m, fuel, a);
    }
  }

  lemma MulStep(e: Expr, m: Machine, fuel: nat, a: int)
    requires e.Mul? && e.offset != 0 && ValidTape(m.tape)
    ensures ExecOne(e, m, fuel).Some?
    ensures var m1 := ExecOne(e, m, fuel).value;
            && m1.ptr == m.ptr && m1.input == m.input && m1.output == m.output
            && ValidTape(m1.tape)
            && Cell(m1.tape, m.ptr) == Cell(m.tape, m.ptr)
            && Cell(m1.tape, a) == Wrap(Cell(m.tape, a) + NodeWeight(e, a - m.ptr) * Cell(m.tape, m.ptr))
  {
  }

  /** The multiplications add the counter's value times their weight to the
      cell at `a`, and leave the counter cell alone. */
  lemma {:induction false} MulsCell(muls: seq<Expr>, m: Machine, fuel: nat, a: int)
    requires forall i :: 0 <= i < |muls| ==> muls[i].Mul? && muls[i].offset != 0
    requires ValidTape(m.tape)
    ensures ExecSeq(muls, m, fuel).Some?
    ensures var m' := ExecSeq(muls, m, fuel).value;
            && m'.ptr == m.ptr && m'.input == m.input && m'.output == m.output
            && ValidTape(m'.tape)
            && Cell(m'.tape, m.ptr) == Cell(m.tape, m.ptr)
            && Cell(m'.tape, a) == Wrap(Cell(m.tape, a) + Cell(m.tape, m.ptr) * Weight(muls, a - m.ptr))
  {
    if muls != [] {
      var n := Cell(m.tape, m.ptr);
      MulStep(muls[0], m, fuel, a);
      var m1 := ExecOne(muls[0], m, fuel).value;
      MulsCell(muls[1..], m1, fuel, a);
      WrapMulStep(Cell(m.tape, a), n, NodeWeight(muls[0], a - m.ptr), Weight(muls[1..], a - m.ptr));
    }
  }

  lemma WrapMulStep(c: int, n: int, w0: int, rest: int)
    ensures Wrap(Wrap(c + w0 * n) + n * rest) == Wrap(c + n * (w0 + rest))
  {
    WrapAdd(c + w0 * n, n * rest);
    assert w0 * n + n * rest == n * (w0 + rest);
  }

  /** The multiplications add the counter's value times their weight to every
      cell, and leave the counter cell alone. */
  lemma MulsEffect(muls: seq<Expr>, m: Machine, fuel: nat)
    requires forall i :: 0 <= i < |muls| ==> muls[i].Mul? && muls[i].offset != 0
    requires ValidTape(m.tape)
    ensures ExecSeq(muls, m, fuel).Some?
    ensures var m' := ExecSeq(muls, m, fuel).value;
            && m'.ptr == m.ptr && m'.input == m.input && m'.output == m.output
            && ValidTape(m'.tape)
            && forall a :: Cell(m'.tape, a) ==
                 Wrap(Cell(m.tape, a) + Cell(m.tape, m.ptr) * Weight(muls, a - m.ptr))
  {
    MulsCell(muls, m, fuel, m.ptr);
    forall a ensures Cell(ExecSeq(muls, m, fuel).value.tape, a) ==
                     Wrap(Cell(m.tape, a) + Cell(m.tape, m.ptr) * Weight(muls, a - m.ptr)) {
      MulsCell(muls, m, fuel, a);
    }
  }

  /** A loop that finishes from a non-zero counter had fuel for one pass,
      and that pass finished. */
  lemma LoopUnfold(body: seq<Expr>, m: Machine, fuel: nat)
    requires Cell(m.tape, m.ptr) != 0 && ExecLoop(body, m, fuel).Some? && ValidTape(m.tape)
    ensures fuel > 0 && ExecSeq(body, m, fuel - 1).Some?
    ensures ValidTape(ExecSeq(body, m, fuel - 1).value.tape)
    ensures ExecLoop(body, m, fuel) == ExecLoop(body, ExecSeq(body, m, fuel - 1).value, fuel - 1)
  {
    ValidSeq(body, m, fuel - 1);
  }

  /** One pass of a loop whose counter is not 0. */
  lemma LoopPass(body: seq<Expr>, m: Machine, fuel: nat)
    requires Cell(m.tape, m.ptr) != 0 && fuel > 0 && ExecSeq(body, m, fuel - 1).Some?
    ensures ExecLoop(body, m, fuel) == ExecLoop(body, ExecSeq(body, m, fuel - 1).value, fuel - 1)
  {
  }

  /** Adding `w` once and then `n - 1` more times is adding it `n` times. */
  lemma WrapScaled(c: int, w: int, n: int)
    ensures Wrap(Wrap(c + w) + (n - 1) * w) == Wrap(c + n * w)
  {
    WrapAdd(c + w, (n - 1) * w);
    assert c + w + (n - 1) * w == c + n * w;
  }

  /** A loop whose body is `Add`s and `Nop`s lowering the counter by one runs
      exactly `n` times for a counter `n`, adding `n` times the body's weight
      to every cell (so the counter ends at 0). */
  lemma {:induction false} MultiplyLoopRuns(body: seq<Expr>, m: Machine, fuel: nat)
    requires AllAddOrNop(body) && Weight(body, 0) == -1 && ValidTape(m.tape)
    requires Cell(m.tape, m.ptr) <= fuel
    ensures ExecLoop(body, m, fuel).Some?
    ensures var m' := ExecLoop(body, m, fuel).value;
            && m'.ptr == m.ptr && m'.input == m.input && m'.output == m.output
            && ValidTape(m'.tape)
            && forall a :: Cell(m'.tape, a) ==
                 Wrap(Cell(m.tape, a) + Cell(m.tape, m.ptr) * Weight(body, a - m.ptr))
    decreases fuel
  {
    var n := Cell(m.tape, m.ptr);
    if n != 0 {
      AddsEffect(body, m, fuel - 1);
      var m1 := ExecSeq(body, m, fuel - 1).value;
      assert Cell(m1.tape, m.ptr) == Wrap(n + Weight(body, m.ptr - m.ptr));
      assert Cell(m1.tape, m1.ptr) == n - 1;
      MultiplyLoopRuns(body, m1, fuel - 1);
      LoopPass(body, m, fuel);
      var m' := ExecLoop(body, m1, fuel - 1).value;
      forall a ensures Cell(m'.tape, a) == Wrap(Cell(m.tape, a) + n * Weight(body, a - m.ptr)) {
        WrapScaled(Cell(m.tape, a), Weight(body, a - m.ptr), n);
      }
    }
  }

  /** Soundness of the multiply rewrite: from any machine whose counter cell
      holds `n` (and with fuel for `n` iterations), the block built by
      `optimize_multiplication` ends in the same state as the loop it
      replaces: each target cell gains `n` times its count and the counter is
      0. The `Mul` must add to its target for this to hold. */
  lemma MultiplyLoopSound(body: seq<Expr>, m: Machine, fuel: nat)
    requires CanConvertToMultiplication(body)
    requires ValidTape(m.tape) && Cell(m.tape, m.ptr) <= fuel
    ensures ExecOne(Loop(body), m, fuel).Some?
    ensures ExecOne(OptimizeMultiplication(body), m, fuel).Some?
    ensures SameMachine(ExecOne(Loop(body), m, fuel).value,
                        ExecOne(OptimizeMultiplication(body), m, fuel).value)
  {
    CounterWeight(body);
    MultiplyLoopRuns(body, m, fuel);
    var looped := ExecLoop(body, m, fuel).value;
    var muls := Multiplications(body);
    MultiplicationsAreMuls(body);
    MulsEffect(muls, m, fuel);
    var m1 := ExecSeq(muls, m, fuel).value;
    ExecSeqAppend(muls, [Clear(0)], m, fuel);
    ExecSingle(Clear(0), m1, fuel);
    var blocked := ExecOne(OptimizeMultiplication(body), m, fuel).value;
    assert blocked == m1.(tape := m1.tape[m.ptr := 0]);
    forall a ensures Cell(looped.tape, a) == Cell(blocked.tape, a) {
      MultiplicationsWeight(body, a - m.ptr);
    }
  }

  /** The frontend comment on `Mul` says it assigns:
      data[ptr + index + offset] = count * data[ptr + offset]. */
  function ExecMulAsCommented(count: int, index: int, m: Machine): Machine
  {
    m.(tape := m.tape[m.ptr + index := Wrap(count * Cell(m.tape, m.ptr))])
  }

  /** With the assigning `Mul` of the comment, the rewrite of `[->+<]` is
      wrong as soon as the target cell is not 0: starting from counter 1 and
      target 5 the loop leaves 6 in the target, the assigning `Mul` leaves 1. */
  lemma MulAsCommentedBreaksRewrite(body: seq<Expr>, m: Machine)
    requires body == [Add(-1, 0), Add(1, 1)]
    requires m == Machine(map[0 := 1, 1 := 5], 0, [], [])
    ensures CanConvertToMultiplication(body)
    ensures ExecOne(Loop(body), m, 1).Some?
    ensures Cell(ExecOne(Loop(body), m, 1).value.tape, 1) == 6
    ensures Cell(ExecMulAsCommented(1, 1, m).tape, 1) == 1
  {
    var tail := body[1..];
    assert tail == [Add(1, 1)] && tail[1..] == [];
    assert ZeroOffsetAdds(tail[1..]) == [] && Weight(tail[1..], 0) == 0 && Weight(tail[1..], 1) == 0;
    assert ZeroOffsetAdds(tail) == [] && Weight(tail, 0) == 0 && Weight(tail, 1) == 1;
    assert ZeroOffsetAdds(body) == [Add(-1, 0)] + [];
    assert Weight(body, 0) == -1 && Weight(body, 1) == 1;
    assert ValidTape(m.tape);
    MultiplyLoopRuns(body, m, 1);
    assert ExecOne(Loop(body), m, 1) == ExecLoop(body, m, 1);
  }

  // ---------------------------------------------------------------------------
  // The whole optimizer
  // ---------------------------------------------------------------------------

  /** The index of the first `Loop` of `es`, or `|es|` when it has none. */
  function FirstLoop(es: seq<Expr>): (k: nat)
    ensures k <= |es| && (k < |es| ==> es[k].Loop?)
    ensures forall i :: 0 <= i < k ==> !es[i].Loop?
  {
    if es == [] then 0
    else if es[0].Loop? then 0
    else 1 + FirstLoop(es[1..])
  }

  predicate LoopFree(es: seq<Expr>)
  {
    forall i :: 0 <= i < |es| ==> !es[i].Loop?
  }

  /** Both pieces, concatenated, or `None` when either is `None`. */
  function Concat(x: Option<seq<Expr>>, y: Option<seq<Expr>>): Option<seq<Expr>>
  {
    if x.Some? && y.Some? then Some(x.value + y.value) else None
  }

  function Single(x: Option<Expr>): Option<seq<Expr>>
  {
    if x.Some? then Some([x.value]) else None
  }

  /** `optimize`: the list is cut at its `Loop`s; each loop-free run between
      them, and the tail after the last one, is coalesced; each loop body is
      optimized first and the loop then becomes a multiplication block when it
      has that shape. `None` when some run holds a node coalescing rejects
      (the Rust code panics). */
  function Optimize(es: seq<Expr>): Option<seq<Expr>>
    decreases es, 0
  {
    var k := FirstLoop(es);
    if k == |es| then LazyMove(es)
    else Concat(Concat(LazyMove(es[..k]), Single(OptimizeLoop(es[k].body))), Optimize(es[k + 1..]))
  }

  /** What `optimize` leaves in the slot of `Loop(body)`. */
  function OptimizeLoop(body: seq<Expr>): Option<Expr>
    decreases body, 1
  {
    match Optimize(body)
    case None => None
    case Some(b) => Some(if CanConvertToMultiplication(b) then OptimizeMultiplication(b) else Loop(b))
  }

  lemma ConcatAssoc(x: Option<seq<Expr>>, y: Option<seq<Expr>>, z: Option<seq<Expr>>)
    ensures Concat(Concat(x, y), z) == Concat(x, Concat(y, z))
  {
    if x.Some? && y.Some? && z.Some? {
      assert (x.value + y.value) + z.value == x.value + (y.value + z.value);
    }
  }

  lemma ConcatEmpty(x: Option<seq<Expr>>)
    ensures Concat(Some([]), x) == x
  {
    if x.Some? {
      assert [] + x.value == x.value;
    }
  }

  lemma SplitAround(p: seq<Expr>, r: seq<Expr>, k: nat)
    requires k < |p|
    ensures p == p[..k] + [p[k]] + p[k + 1..]
    ensures p + r == p[..k] + [p[k]] + (p[k + 1..] + r)
  {
  }

  /** A prefix that ends with a `Loop` is optimized on its own: the result is
      the optimized prefix followed by the optimized rest. */
  lemma {:induction false} OptimizeSplit(p: seq<Expr>, r: seq<Expr>)
    requires p == [] || p[|p| - 1].Loop?
    ensures Optimize(p + r) == Concat(Optimize(p), Optimize(r))
    decreases |p|
  {
    if p == [] {
      assert p + r == r;
      assert Optimize(p) == Some([]);
      ConcatEmpty(Optimize(r));
    } else {
      var k := FirstLoop(p);
      OptimizeSplit(p[k + 1..], r);
      OptimizeSplitAt(p, r, k);
    }
  }

  /** One step of `OptimizeSplit`: the run before the first loop, the loop,
      and the rest, whose split is already known. */
  lemma OptimizeSplitAt(p: seq<Expr>, r: seq<Expr>, k: nat)
    requires k < |p| && p[k].Loop? && LoopFree(p[..k])
    requires Optimize(p[k + 1..] + r) == Concat(Optimize(p[k + 1..]), Optimize(r))
    ensures Optimize(p + r) == Concat(Optimize(p), Optimize(r))
  {
    var run := p[..k];
    var body := p[k].body;
    var rest := p[k + 1..];
    SplitAround(p, r, k);
    OptimizeRunLoopRest(run, body, rest);
    OptimizeRunLoopRest(run, body, rest + r);
    ConcatAssoc(Concat(LazyMove(run), Single(OptimizeLoop(body))), Optimize(rest), Optimize(r));
  }

  lemma {:induction false} FirstLoopAfterRun(run: seq<Expr>, rest: seq<Expr>)
    requires LoopFree(run)
    ensures FirstLoop(run + rest) == |run| + FirstLoop(rest)
  {
    if run == [] {
      assert run + rest == rest;
    } else {
      assert (run + rest)[1..] == run[1..] + rest;
      FirstLoopAfterRun(run[1..], rest);
    }
  }

  /** A loop-free run followed by one loop: the coalesced run, then what the
      loop becomes. */
  lemma OptimizeRunThenLoop(run: seq<Expr>, body: seq<Expr>)
    requires LoopFree(run)
    ensures Optimize(run + [Loop(body)]) == Concat(LazyMove(run), Single(OptimizeLoop(body)))
  {
    var es := run + [Loop(body)];
    FirstLoopAfterRun(run, [Loop(body)]);
    assert es[..|run|] == run;
    assert es[|run| + 1..] == [];
    assert Optimize([]) == Some([]);
    var x := Concat(LazyMove(run), Single(OptimizeLoop(body)));
    if x.Some? {
      assert x.value + [] == x.value;
    }
  }

  /** `optimize` never changes the length of a list: every rewrite writes an
      existing slot, and a loop is replaced by exactly one node. */
  lemma {:induction false} OptimizePreservesLength(es: seq<Expr>)
    ensures Optimize(es).Some? ==> |Optimize(es).value| == |es|
    decreases |es|
  {
    var k := FirstLoop(es);
    if k < |es| && Optimize(es).Some? {
      OptimizePreservesLength(es[k + 1..]);
    }
  }

  // ---------------------------------------------------------------------------
  // Optimizing keeps the meaning of a program
  // ---------------------------------------------------------------------------

  /** A loop whose body lowers its counter by one per pass and that finishes
      with `fuel` ran at most `fuel` passes, so its counter was at most `fuel`. */
  lemma {:induction false} LoopFuelBound(body: seq<Expr>, m: Machine, fuel: nat)
    requires AllAddOrNop(body) && Weight(body, 0) == -1 && ValidTape(m.tape)
    requires ExecLoop(body, m, fuel).Some?
    ensures Cell(m.tape, m.ptr) <= fuel
    decreases fuel
  {
    var n := Cell(m.tape, m.ptr);
    if n != 0 {
      AddsEffect(body, m, fuel - 1);
      var m1 := ExecSeq(body, m, fuel - 1).value;
      assert Cell(m1.tape, m.ptr) == Wrap(n + Weight(body, m.ptr - m.ptr));
      assert Cell(m1.tape, m1.ptr) == n - 1;
      LoopPass(body, m, fuel);
      LoopFuelBound(body, m1, fuel - 1);
    }
  }

  /** How `optimize` splits a list at its first loop: the run before it, the
      loop, and the rest each come out optimized, in place. */
  lemma OptimizeAtLoop(es: seq<Expr>, es': seq<Expr>, k: nat, run: seq<Expr>, body: seq<Expr>, rest: seq<Expr>)
    requires Optimize(es) == Some(es') && k == FirstLoop(es) && k < |es|
    requires run == es[..k] && body == es[k].body && rest == es[k + 1..]
    ensures LazyMove(run).Some? && OptimizeLoop(body).Some? && Optimize(rest).Some?
    ensures es' == LazyMove(run).value + ([OptimizeLoop(body).value] + Optimize(rest).value)
  {
    var a, b, c := LazyMove(run), Single(OptimizeLoop(body)), Optimize(rest);
    assert Optimize(es) == Concat(Concat(a, b), c);
    ConcatSome(a, b, c, es');
    Regrouped(a.value, OptimizeLoop(body).value, c.value);
  }

  lemma LazyMoveAccepts(run: seq<Expr>)
    requires LazyMove(run).Some?
    ensures AllCoalescible(run)
  {
  }

  lemma ConcatSome(a: Option<seq<Expr>>, b: Option<seq<Expr>>, c: Option<seq<Expr>>, r: seq<Expr>)
    requires Concat(Concat(a, b), c) == Some(r)
    ensures a.Some? && b.Some? && c.Some? && r == (a.value + b.value) + c.value
  {
  }

  lemma Regrouped(a: seq<Expr>, x: Expr, r: seq<Expr>)
    ensures (a + [x]) + r == a + ([x] + r)
  {
  }

  lemma Around(es: seq<Expr>, k: nat)
    requires k < |es| && es[k].Loop?
    ensures es == es[..k] + ([Loop(es[k].body)] + es[k + 1..])
  {
    assert es == es[..k] + es[k..];
    assert es[k..] == [es[k]] + es[k + 1..];
  }

  /** The optimizer keeps the meaning of every program: when the original
      list finishes from a machine with 32-bit cells, the optimized one
      finishes too, with the same fuel, in a machine with the same pointer,
      the same input left, the same output and the same cells. */
  lemma {:induction false} OptimizeSound(es: seq<Expr>, es': seq<Expr>, m: Machine, fuel: nat)
    requires Optimize(es) == Some(es')
    requires ValidTape(m.tape) && ExecSeq(es, m, fuel).Some?
    ensures ExecSeq(es', m, fuel).Some?
    ensures SameMachine(ExecSeq(es, m, fuel).value, ExecSeq(es', m, fuel).value)
    decreases es, 0, fuel
  {
    var k := FirstLoop(es);
    if k == |es| {
      LazyMoveSound(es, m, fuel);
    } else {
      BeforeLoop(es, es', k, m, fuel);
      var run, body, rest := es[..k], es[k].body, es[k + 1..];
      var lm, x, rest' := LazyMove(run).value, OptimizeLoop(body).value, Optimize(rest).value;
      var ma := ExecSeq(run, m, fuel).value;
      var mb := ExecLoop(body, ma, fuel).value;
      LoopSound(body, x, ma, fuel);
      var mb' := ExecOne(x, ma, fuel).value;
      ExecAroundThen(lm, x, rest', m, fuel);
      OptimizeSound(rest, rest', mb, fuel);
      SameSeq(rest', mb, mb', fuel);
      SameMachineTrans(ExecSeq(rest, mb, fuel).value, ExecSeq(rest', mb, fuel).value, ExecSeq(rest', mb', fuel).value);
    }
  }

  /** The part of a list up to its first loop: the run before the loop
      finishes the same way coalesced or not, and the list then goes on with
      the loop and the rest. */
  lemma BeforeLoop(es: seq<Expr>, es': seq<Expr>, k: nat, m: Machine, fuel: nat)
    requires Optimize(es) == Some(es') && k == FirstLoop(es) && k < |es|
    requires ValidTape(m.tape) && ExecSeq(es, m, fuel).Some?
    ensures var run, body, rest := es[..k], es[k].body, es[k + 1..];
            && LazyMove(run).Some? && OptimizeLoop(body).Some? && Optimize(rest).Some?
            && es' == LazyMove(run).value + ([OptimizeLoop(body).value] + Optimize(rest).value)
            && ExecSeq(run, m, fuel).Some?
            && ExecSeq(LazyMove(run).value, m, fuel) == ExecSeq(run, m, fuel)
            && var ma := ExecSeq(run, m, fuel).value;
               && ValidTape(ma.tape)
               && ExecLoop(body, ma, fuel).Some?
               && ValidTape(ExecLoop(body, ma, fuel).value.tape)
               && ExecSeq(es, m, fuel) == ExecSeq(rest, ExecLoop(body, ma, fuel).value, fuel)
  {
    var run, body, rest := es[..k], es[k].body, es[k + 1..];
    Around(es, k);
    OptimizeAtLoop(es, es', k, run, body, rest);
    LazyMoveAccepts(run);
    RunThenLoopRuns(run, body, rest, m, fuel);
  }

  /** A coalescible run, then a loop, then the rest: how it runs. */
  lemma RunThenLoopRuns(run: seq<Expr>, body: seq<Expr>, rest: seq<Expr>, m: Machine, fuel: nat)
    requires AllCoalescible(run) && ValidTape(m.tape)
    requires ExecSeq(run + ([Loop(body)] + rest), m, fuel).Some?
    ensures ExecSeq(run, m, fuel).Some?
    ensures ExecSeq(LazyMove(run).value, m, fuel) == ExecSeq(run, m, fuel)
    ensures var ma := ExecSeq(run, m, fuel).value;
            && ValidTape(ma.tape)
            && ExecLoop(body, ma, fuel).Some?
            && ValidTape(ExecLoop(body, ma, fuel).value.tape)
            && ExecSeq(run + ([Loop(body)] + rest), m, fuel) == ExecSeq(rest, ExecLoop(body, ma, fuel).value, fuel)
  {
    ExecAroundSome(run, Loop(body), rest, m, fuel);
    var ma := ExecSeq(run, m, fuel).value;
    assert ExecOne(Loop(body), ma, fuel) == ExecLoop(body, ma, fuel);
    LazyMoveSound(run, m, fuel);
    ValidSeq(run, m, fuel);
    ValidLoop(body, ma, fuel);
  }

  /** What `optimize` leaves in the slot of a loop does what the loop does. */
  lemma {:induction false} LoopSound(body: seq<Expr>, x: Expr, m: Machine, fuel: nat)
    requires OptimizeLoop(body) == Some(x)
    requires ValidTape(m.tape) && ExecLoop(body, m, fuel).Some?
    ensures ExecOne(x, m, fuel).Some?
    ensures SameMachine(ExecLoop(body, m, fuel).value, ExecOne(x, m, fuel).value)
    decreases body, 2, fuel
  {
    var b := Optimize(body).value;
    OptimizedBodySound(body, b, m, fuel);
    if CanConvertToMultiplication(b) {
      CounterWeight(b);
      LoopFuelBound(b, m, fuel);
      MultiplyLoopSound(b, m, fuel);
      SameMachineTrans(ExecLoop(body, m, fuel).value, ExecLoop(b, m, fuel).value, ExecOne(x, m, fuel).value);
    }
  }

  /** A loop over the optimized body does what the loop over the original
      body does. */
  lemma {:induction false} OptimizedBodySound(body: seq<Expr>, b: seq<Expr>, m: Machine, fuel: nat)
    requires Optimize(body) == Some(b)
    requires ValidTape(m.tape) && ExecLoop(body, m, fuel).Some?
    ensures ExecLoop(b, m, fuel).Some?
    ensures SameMachine(ExecLoop(body, m, fuel).value, ExecLoop(b, m, fuel).value)
    decreases body, 1, fuel
  {
    if Cell(m.tape, m.ptr) != 0 {
      LoopUnfold(body, m, fuel);
      OptimizeSound(body, b, m, fuel - 1);
      var m1 := ExecSeq(body, m, fuel - 1).value;
      OptimizedBodySound(body, b, m1, fuel - 1);
      LoopsAgree(body, b, m, m1, fuel);
    }
  }

  /** The first pass over `b` agrees with the first pass over `body`, and the
      loops from there agree, so the whole loops agree. */
  lemma LoopsAgree(body: seq<Expr>, b: seq<Expr>, m: Machine, m1: Machine, fuel: nat)
    requires Cell(m.tape, m.ptr) != 0 && fuel > 0 && ExecSeq(b, m, fuel - 1).Some?
    requires ExecLoop(body, m, fuel) == ExecLoop(body, m1, fuel - 1)
    requires SameMachine(m1, ExecSeq(b, m, fuel - 1).value)
    requires ExecLoop(body, m1, fuel - 1).Some? && ExecLoop(b, m1, fuel - 1).Some?
    requires SameMachine(ExecLoop(body, m1, fuel - 1).value, ExecLoop(b, m1, fuel - 1).value)
    ensures ExecLoop(b, m, fuel).Some?
    ensures SameMachine(ExecLoop(body, m, fuel).value, ExecLoop(b, m, fuel).value)
  {
    var m1' := ExecSeq(b, m, fuel - 1).value;
    LoopPass(b, m, fuel);
    SameLoop(b, m1, m1', fuel - 1);
    SameMachineTrans(ExecLoop(body, m1, fuel - 1).value, ExecLoop(b, m1, fuel - 1).value, ExecLoop(b, m1', fuel - 1).value);
  }

  // ---------------------------------------------------------------------------
  // Optimizing twice
  // ---------------------------------------------------------------------------

  /** A `Block` or a `Mul` at the top level of a list sits in one of the runs
      that get coalesced, and coalescing panics on it, so optimizing output
      that already holds a multiplication block fails. */
  lemma {:induction false} OptimizeRejectsBlock(es: seq<Expr>, i: nat)
    requires i < |es| && (es[i].Block? || es[i].Mul?)
    ensures Optimize(es) == None
    decreases |es|
  {
    var k := FirstLoop(es);
    if i < k {
      assert es[..k][i] == es[i];
      RunRejects(es[..k], i);
      if k == |es| {
        assert es[..k] == es;
      } else {
        OptimizeNoneAt(es, k);
      }
    } else {
      assert es[k + 1..][i - k - 1] == es[i];
      OptimizeRejectsBlock(es[k + 1..], i - k - 1);
      OptimizeNoneAt(es, k);
    }
  }

  lemma RunRejects(run: seq<Expr>, i: nat)
    requires i < |run| && (run[i].Block? || run[i].Mul?)
    ensures LazyMove(run) == None
  {
    assert !Coalescible(run[i]);
  }

  /** `optimize` fails when the run before the first loop or the rest after it fails. */
  lemma OptimizeNoneAt(es: seq<Expr>, k: nat)
    requires k == FirstLoop(es) && k < |es|
    requires LazyMove(es[..k]) == None || Optimize(es[k + 1..]) == None
    ensures Optimize(es) == None
  {
  }

  /** Optimizing the output of `test_put_h_optimize` a second time panics. */
  lemma PutHTwice(es: seq<Expr>)
    requires es == [Add(9, 1), Move(1), Block([Mul(8, -1), Clear(0)]), Out(-1), Move(-1)]
    ensures Optimize(es) == None
  {
    OptimizeRejectsBlock(es, 2);
  }

  /** Appending one node to a run extends its relocation and displacement. */
  lemma Snoc(run: seq<Expr>, e: Expr)
    ensures Relocated(run + [e]) == Relocated(run) + Shifted(e, Displacement(run))
    ensures Displacement(run + [e]) == Displacement(run) + (if e.Move? then e.offset else 0)
  {
    assert (run + [e])[..|run|] == run;
  }

  lemma PutHHeadRun()
    ensures LazyMove([Move(1), Add(9, 0)]) == Some([Add(9, 1), Move(1)])
  {
    Snoc([], Move(1));
    Snoc([Move(1)], Add(9, 0));
    var run := [Move(1), Add(9, 0)];
    assert [Move(1)] + [Add(9, 0)] == run;
    assert AllCoalescible(run);
    assert Relocated(run) == [Add(9, 1)];
    assert Displacement(run) == 1;
    assert Coalesced([Add(9, 1)], 1, 2) == [Add(9, 1), Move(1)] by {
      assert [Add(9, 1)] + [Move(1)] == [Add(9, 1), Move(1)];
      assert Nops(0) == [];
    }
  }

  lemma PutHTailRun(r: seq<Expr>)
    requires r == [Move(-1), Out(0)]
    ensures Optimize(r) == Some([Out(-1), Move(-1)])
  {
    Snoc([], Move(-1));
    Snoc([Move(-1)], Out(0));
    assert [Move(-1)] + [Out(0)] == r;
    assert AllCoalescible(r);
    assert Relocated(r) == [Out(-1)];
    assert Displacement(r) == -1;
    assert Coalesced([Out(-1)], -1, 2) == [Out(-1), Move(-1)] by {
      assert [Out(-1)] + [Move(-1)] == [Out(-1), Move(-1)];
      assert Nops(0) == [];
    }
    assert LoopFree(r);
    OptimizeLoopFree(r);
  }

  /** A move followed by one cell operation relocates that operation by the move. */
  lemma MoveThenOp(d: int, e: Expr)
    requires IsCellOp(e)
    ensures Relocated([Move(d), e]) == Shifted(e, d)
    ensures Displacement([Move(d), e]) == d
  {
    Snoc([], Move(d));
    assert [] + [Move(d)] == [Move(d)];
    Snoc([Move(d)], e);
    assert [Move(d)] + [e] == [Move(d), e];
  }

  lemma PutHLoopBodyHalf()
    ensures Relocated([Move(-1), Add(8, 0)]) == [Add(8, -1)]
    ensures Displacement([Move(-1), Add(8, 0)]) == -1
  {
    MoveThenOp(-1, Add(8, 0));
  }

  lemma PutHLoopBodyRelocated()
    ensures Relocated([Move(-1), Add(8, 0), Move(1), Add(-1, 0)]) == [Add(8, -1), Add(-1, 0)]
    ensures Displacement([Move(-1), Add(8, 0), Move(1), Add(-1, 0)]) == 0
  {
    var p2 := [Move(-1), Add(8, 0)];
    var p3 := [Move(-1), Add(8, 0), Move(1)];
    PutHLoopBodyHalf();
    Snoc(p2, Move(1));
    assert p2 + [Move(1)] == p3;
    Snoc(p3, Add(-1, 0));
    assert p3 + [Add(-1, 0)] == [Move(-1), Add(8, 0), Move(1), Add(-1, 0)];
  }

  lemma PutHLoopBody()
    ensures Optimize([Move(-1), Add(8, 0), Move(1), Add(-1, 0)]) == Some([Add(8, -1), Add(-1, 0), Nop, Nop])
  {
    var body := [Move(-1), Add(8, 0), Move(1), Add(-1, 0)];
    PutHLoopBodyRelocated();
    assert AllCoalescible(body);
    assert Coalesced([Add(8, -1), Add(-1, 0)], 0, 4) == [Add(8, -1), Add(-1, 0), Nop, Nop] by {
      assert Nops(2) == [Nop, Nop];
    }
    assert LoopFree(body);
    OptimizeLoopFree(body);
  }

  lemma PutHLoop(body: seq<Expr>)
    requires body == [Move(-1), Add(8, 0), Move(1), Add(-1, 0)]
    ensures OptimizeLoop(body) == Some(Block([Mul(8, -1), Clear(0)]))
  {
    PutHLoopBody();
    PutHLoopCoalesced([Add(8, -1), Add(-1, 0), Nop, Nop]);
  }

  lemma PutHLoopCoalesced(coalesced: seq<Expr>)
    requires coalesced == [Add(8, -1), Add(-1, 0), Nop, Nop]
    ensures CanConvertToMultiplication(coalesced)
    ensures OptimizeMultiplication(coalesced) == Block([Mul(8, -1), Clear(0)])
  {
    var t1, t2, t3 := coalesced[1..], coalesced[2..], coalesced[3..];
    assert t1 == [Add(-1, 0), Nop, Nop] && t1[1..] == t2;
    assert t2 == [Nop, Nop] && t2[1..] == t3;
    assert t3 == [Nop] && t3[1..] == [];
    assert ZeroOffsetAdds(t3[1..]) == [] && Multiplications(t3[1..]) == [];
    assert ZeroOffsetAdds(t3) == [] && Multiplications(t3) == [];
    assert ZeroOffsetAdds(t2) == [] && Multiplications(t2) == [];
    assert ZeroOffsetAdds(t1) == [Add(-1, 0)] && Multiplications(t1) == [];
    assert ZeroOffsetAdds(coalesced) == [Add(-1, 0)];
    assert Multiplications(coalesced) == [Mul(8, -1)];
    assert [Mul(8, -1)] + [Clear(0)] == [Mul(8, -1), Clear(0)];
  }

  lemma PutHHead(p: seq<Expr>, run: seq<Expr>, body: seq<Expr>)
    requires run == [Move(1), Add(9, 0)] && body == [Move(-1), Add(8, 0), Move(1), Add(-1, 0)]
    requires p == run + [Loop(body)]
    ensures Optimize(p) == Some([Add(9, 1), Move(1), Block([Mul(8, -1), Clear(0)])])
  {
    PutHHeadRun();
    PutHLoop(body);
    assert LoopFree(run);
    var block := Block([Mul(8, -1), Clear(0)]);
    RunThenLoopValue(run, body, [Add(9, 1), Move(1)], block);
    assert [Add(9, 1), Move(1)] + [block] == [Add(9, 1), Move(1), block];
  }

  lemma RunThenLoopValue(run: seq<Expr>, body: seq<Expr>, coalesced: seq<Expr>, e: Expr)
    requires LoopFree(run) && LazyMove(run) == Some(coalesced) && OptimizeLoop(body) == Some(e)
    ensures Optimize(run + [Loop(body)]) == Some(coalesced + [e])
  {
    OptimizeRunThenLoop(run, body);
  }

  /** The scenario of `test_put_h_optimize`: the program that prints "H"
      through a multiply loop. */
  lemma PutHScenario(es: seq<Expr>)
    requires es == [Move(1), Add(9, 0), Loop([Move(-1), Add(8, 0), Move(1), Add(-1, 0)]), Move(-1), Out(0)]
    ensures Optimize(es) == Some([Add(9, 1), Move(1), Block([Mul(8, -1), Clear(0)]), Out(-1), Move(-1)])
  {
    var run, body := [Move(1), Add(9, 0)], [Move(-1), Add(8, 0), Move(1), Add(-1, 0)];
    var block := Block([Mul(8, -1), Clear(0)]);
    ThreeThenTwo(Move(1), Add(9, 0), Loop(body), Move(-1), Out(0));
    ThreeThenTwo(Add(9, 1), Move(1), block, Out(-1), Move(-1));
    PutHHead(run + [Loop(body)], run, body);
    PutHTailRun([Move(-1), Out(0)]);
    SplitValue(run + [Loop(body)], [Move(-1), Out(0)], [Add(9, 1), Move(1), block], [Out(-1), Move(-1)]);
  }

  lemma ThreeThenTwo(a: Expr, b: Expr, c: Expr, d: Expr, e: Expr)
    ensures [a, b] + [c] == [a, b, c]
    ensures [a, b, c] + [d, e] == [a, b, c, d, e]
  {
  }

  lemma SplitValue(p: seq<Expr>, r: seq<Expr>, x: seq<Expr>, y: seq<Expr>)
    requires p == [] || p[|p| - 1].Loop?
    requires Optimize(p) == Some(x) && Optimize(r) == Some(y)
    ensures Optimize(p + r) == Some(x + y)
  {
    OptimizeSplit(p, r);
  }

  // ---------------------------------------------------------------------------
  // The passes in place, on an array of nodes
  // ---------------------------------------------------------------------------

  /** How far the two cursors of `optimize_lazy_move` have got: the first `i`
      nodes of `run` (the slice `a[lo..hi]` as it was) have been read, their
      relocated cell operations fill `a[lo..lo + j]`, and the unread part is
      untouched. */
  ghost predicate Compacted(a: array<Expr>, lo: nat, hi: nat, run: seq<Expr>, i: nat, j: nat, currentOffset: int)
    reads a
  {
    && lo <= hi <= a.Length && |run| == hi - lo && i <= |run|
    && AllCoalescible(run[..i])
    && j == |Relocated(run[..i])| <= i
    && currentOffset == Displacement(run[..i])
    && a[lo..lo + j] == Relocated(run[..i])
    && forall t :: lo + i <= t < hi ==> a[t] == run[t - lo]
  }

  /** What reading one more node of the run does to the relocation and the
      displacement. */
  lemma CursorStep(run: seq<Expr>, i: nat)
    requires i < |run| && AllCoalescible(run[..i]) && Coalescible(run[i])
    ensures AllCoalescible(run[..i + 1])
    ensures Relocated(run[..i + 1]) == Relocated(run[..i]) + Shifted(run[i], Displacement(run[..i]))
    ensures Displacement(run[..i + 1]) == Displacement(run[..i]) + (if run[i].Move? then run[i].offset else 0)
    ensures |Relocated(run[..i + 1])| <= i + 1
  {
    assert run[..i + 1] == run[..i] + [run[i]];
    Snoc(run[..i], run[i]);
    WriteCursorBound(run[..i + 1]);
  }

  /** One turn of the read cursor over a coalescible node. */
  method CompactStep(a: array<Expr>, lo: nat, hi: nat, ghost run: seq<Expr>, i: nat, j: nat, currentOffset: int)
    returns (j': nat, currentOffset': int)
    requires Compacted(a, lo, hi, run, i, j, currentOffset) && i < |run| && Coalescible(run[i])
    modifies a
    ensures Compacted(a, lo, hi, run, i + 1, j', currentOffset')
    ensures a[..lo] == old(a[..lo]) && a[hi..] == old(a[hi..])
  {
    var e := a[lo + i];
    assert e == run[i];
    CursorStep(run, i);
    j', currentOffset' := j, currentOffset;
    if e.Move? {
      currentOffset' := currentOffset + e.offset;
    } else if IsCellOp(e) {
      ghost var before := a[lo..lo + j];
      a[lo + j] := Shifted(e, currentOffset)[0];
      assert a[lo..lo + j + 1] == before + Shifted(e, currentOffset);
      j' := j + 1;
    }
  }

  /** The compaction loop of `optimize_lazy_move` on the slice `a[lo..hi]`: a
      read cursor `i` and a write cursor `j` walk the slice, and each cell
      operation is written back at `j` with its offset raised by the moves
      seen so far (`Shifted`, one arm of the Rust `match` per node). The scan
      stops at the first unsupported node, where the Rust code panics, and
      returns false; the rest of the array is never touched. */
  method CompactRun(a: array<Expr>, lo: nat, hi: nat) returns (ok: bool, j: nat, currentOffset: int)
    requires lo <= hi <= a.Length
    modifies a
    ensures j <= hi - lo
    ensures ok == AllCoalescible(old(a[lo..hi]))
    ensures ok ==> j == |Relocated(old(a[lo..hi]))| && currentOffset == Displacement(old(a[lo..hi]))
    ensures ok ==> a[lo..lo + j] == Relocated(old(a[lo..hi]))
    ensures a[..lo] == old(a[..lo]) && a[hi..] == old(a[hi..])
  {
    ghost var run := a[lo..hi];
    var i;
    i, j, currentOffset := ScanRun(a, lo, hi, run);
    ok := i == hi - lo;
    CursorStopped(run, i);
  }

  /** The loop of `CompactRun`: advances the read cursor `i` while the node
      under it is coalescible, keeping `Compacted`. */
  method ScanRun(a: array<Expr>, lo: nat, hi: nat, ghost run: seq<Expr>) returns (i: nat, j: nat, currentOffset: int)
    requires lo <= hi <= a.Length && run == a[lo..hi]
    modifies a
    ensures Compacted(a, lo, hi, run, i, j, currentOffset)
    ensures i < hi - lo ==> !Coalescible(run[i])
    ensures a[..lo] == old(a[..lo]) && a[hi..] == old(a[hi..])
  {
    currentOffset := 0;
    j := 0;
    i := 0;
    assert run[..0] == [];
    while i < hi - lo && Coalescible(a[lo + i])
      invariant i <= hi - lo
      invariant Compacted(a, lo, hi, run, i, j, currentOffset)
      invariant a[..lo] == old(a[..lo]) && a[hi..] == old(a[hi..])
      decreases hi - lo - i
    {
      j, currentOffset := CompactStep(a, lo, hi, run, i, j, currentOffset);
      i := i + 1;
    }
  }

  /** Where the read cursor stops: at the end of a coalescible run, or on the
      first node that is not coalescible. */
  lemma CursorStopped(run: seq<Expr>, i: nat)
    requires i <= |run| && AllCoalescible(run[..i])
    requires i < |run| ==> !Coalescible(run[i])
    ensures AllCoalescible(run) <==> i == |run|
    ensures i == |run| ==> run[..i] == run
  {
  }

  /** The closing loop of `optimize_lazy_move`: `Nop` over `a[lo..hi]`. */
  method FillNops(a: array<Expr>, lo: nat, hi: nat)
    requires lo <= hi <= a.Length
    modifies a
    ensures a[..] == old(a[..lo]) + Nops(hi - lo) + old(a[hi..])
  {
    for k := lo to hi
      invariant forall t :: lo <= t < k ==> a[t] == Nop
      invariant a[..lo] == old(a[..lo]) && a[hi..] == old(a[hi..])
    {
      a[k] := Nop;
    }
    assert a[lo..hi] == Nops(hi - lo);
    assert a[..] == a[..lo] + a[lo..hi] + a[hi..];
  }

  lemma Glue(mid: seq<Expr>, prefix: seq<Expr>, suffix: seq<Expr>, compacted: seq<Expr>, lo: nat, m: nat, hi: nat)
    requires lo <= m <= hi <= |mid|
    requires mid[..lo] == prefix && mid[lo..m] == compacted && mid[hi..] == suffix
    ensures mid[..m] + Nops(hi - m) + mid[hi..] == prefix + (compacted + Nops(hi - m)) + suffix
  {
    assert mid[..m] == mid[..lo] + mid[lo..m];
  }

  /** Writes the trailing `Move(d)` after the `j` compacted operations of the
      slice, unless `d` is 0; returns the new write cursor. */
  method WriteMove(a: array<Expr>, lo: nat, hi: nat, j: nat, ghost ops: seq<Expr>, d: int) returns (j': nat)
    requires lo + j + (if d != 0 then 1 else 0) <= hi <= a.Length
    requires a[lo..lo + j] == ops
    modifies a
    ensures lo + j' <= hi
    ensures a[lo..lo + j'] == if d != 0 then ops + [Move(d)] else ops
    ensures a[..lo] == old(a[..lo]) && a[hi..] == old(a[hi..])
  {
    j' := j;
    if d != 0 {
      a[lo + j] := Move(d);
      assert a[lo..lo + j + 1] == old(a[lo..lo + j]) + [Move(d)];
      j' := j + 1;
    }
  }

  /** `optimize_lazy_move` in full: compaction, then the trailing `Move` by the
      total displacement unless it is 0, then `Nop` over the rest of the slice. */
  method OptimizeLazyMove(a: array<Expr>, lo: nat, hi: nat) returns (ok: bool)
    requires lo <= hi <= a.Length
    modifies a
    ensures ok == AllCoalescible(old(a[lo..hi]))
    ensures ok ==> a[..] == old(a[..lo]) + LazyMove(old(a[lo..hi])).value + old(a[hi..])
  {
    ghost var run := a[lo..hi];
    var j, currentOffset;
    ok, j, currentOffset := CompactRun(a, lo, hi);
    if ok {
      WriteCursorBound(run);
      FinishRun(a, lo, hi, j, currentOffset, Relocated(run));
    }
  }

  /** The second half of `optimize_lazy_move`, once the `j` relocated
      operations `ops` are compacted at the front of the slice: the trailing
      `Move(d)` unless `d` is 0, then `Nop` over the rest. */
  method FinishRun(a: array<Expr>, lo: nat, hi: nat, j: nat, d: int, ghost ops: seq<Expr>)
    requires lo + j + (if d != 0 then 1 else 0) <= hi <= a.Length
    requires a[lo..lo + j] == ops
    modifies a
    ensures a[..] == old(a[..lo]) + Coalesced(ops, d, hi - lo) + old(a[hi..])
  {
    ghost var prefix := a[..lo];
    ghost var suffix := a[hi..];
    ghost var compacted := if d != 0 then ops + [Move(d)] else ops;
    var k := WriteMove(a, lo, hi, j, ops, d);
    assert k == |compacted|;
    ghost var mid := a[..];
    FillNops(a, lo + k, hi);
    Glue(mid, prefix, suffix, compacted, lo, lo + k, hi);
  }

  /** A loop-free list is one run: `optimize` only coalesces it. */
  lemma OptimizeLoopFree(run: seq<Expr>)
    requires LoopFree(run)
    ensures Optimize(run) == LazyMove(run)
  {
    FirstLoopAfterRun(run, []);
    assert run + [] == run;
  }

  /** A run, a loop and whatever follows: the coalesced run, what the loop
      becomes, then the optimized rest. */
  lemma OptimizeRunLoopRest(run: seq<Expr>, body: seq<Expr>, rest: seq<Expr>)
    requires LoopFree(run)
    ensures Optimize(run + [Loop(body)] + rest)
         == Concat(Concat(LazyMove(run), Single(OptimizeLoop(body))), Optimize(rest))
  {
    var es := run + [Loop(body)] + rest;
    RunLoopRestParts(run, body, rest);
    FirstLoopAfterRun(run, [Loop(body)] + rest);
  }

  lemma RunLoopRestParts(run: seq<Expr>, body: seq<Expr>, rest: seq<Expr>)
    ensures var es := run + [Loop(body)] + rest;
            && es == run + ([Loop(body)] + rest)
            && es[..|run|] == run && es[|run|] == Loop(body) && es[|run| + 1..] == rest
  {
  }

  /** The scan of `optimize` has reached `start`: `done` is what the prefix
      before it became, and the whole result is `done` followed by what the
      rest becomes. */
  ghost predicate OptimizedUpTo(orig: seq<Expr>, done: seq<Expr>, start: nat)
  {
    start <= |orig| && Optimize(orig) == Concat(Some(done), Optimize(orig[start..]))
  }

  lemma OptimizedUpToStart(orig: seq<Expr>)
    ensures OptimizedUpTo(orig, [], 0)
  {
    assert orig[0..] == orig;
    if Optimize(orig).Some? {
      assert [] + Optimize(orig).value == Optimize(orig).value;
    }
  }

  lemma SplitAt(s: seq<Expr>, start: nat, i: nat)
    requires start <= i < |s|
    ensures s[start..] == s[start..i] + [s[i]] + s[i + 1..]
  {
  }

  /** Passing a loop at `i`: the run before it is coalesced to `lm` and the
      loop becomes `x`. When either fails, so does the whole. */
  lemma OptimizedUpToLoop(orig: seq<Expr>, done: seq<Expr>, start: nat, i: nat)
    requires OptimizedUpTo(orig, done, start) && start <= i < |orig|
    requires LoopFree(orig[start..i]) && orig[i].Loop?
    ensures LazyMove(orig[start..i]).None? ==> Optimize(orig).None?
    ensures OptimizeLoop(orig[i].body).None? ==> Optimize(orig).None?
    ensures LazyMove(orig[start..i]).Some? && OptimizeLoop(orig[i].body).Some? ==>
      OptimizedUpTo(orig, done + LazyMove(orig[start..i]).value + [OptimizeLoop(orig[i].body).value], i + 1)
  {
    var run := orig[start..i];
    var body := orig[i].body;
    var rest := orig[i + 1..];
    SplitAt(orig, start, i);
    OptimizeRunLoopRest(run, body, rest);
    ConcatAssoc(Some(done), Concat(LazyMove(run), Single(OptimizeLoop(body))), Optimize(rest));
    ConcatAssoc(Some(done), LazyMove(run), Single(OptimizeLoop(body)));
  }

  lemma OptimizedUpToNext(orig: seq<Expr>, done: seq<Expr>, start: nat, i: nat, after: seq<Expr>)
    requires OptimizedUpTo(orig, done, start) && start <= i < |orig|
    requires LoopFree(orig[start..i]) && orig[i].Loop?
    requires LazyMove(orig[start..i]).Some? && OptimizeLoop(orig[i].body).Some?
    requires after == done + LazyMove(orig[start..i]).value + [OptimizeLoop(orig[i].body).value]
    ensures OptimizedUpTo(orig, after, i + 1)
  {
    OptimizedUpToLoop(orig, done, start, i);
  }

  /** Moving past a node that is not a loop keeps the pending run loop-free. */
  lemma LoopFreeExtend(orig: seq<Expr>, start: nat, i: nat)
    requires start <= i < |orig| && LoopFree(orig[start..i]) && !orig[i].Loop?
    ensures LoopFree(orig[start..i + 1])
  {
    assert orig[start..i + 1] == orig[start..i] + [orig[i]];
  }

  /** The end of the scan: what is left is one run. */
  lemma OptimizedUpToEnd(orig: seq<Expr>, done: seq<Expr>, start: nat)
    requires OptimizedUpTo(orig, done, start) && LoopFree(orig[start..])
    ensures Optimize(orig) == Concat(Some(done), LazyMove(orig[start..]))
  {
    OptimizeLoopFree(orig[start..]);
  }

  /** Writing the slot just after a coalesced run. */
  lemma SlotWritten(mid: seq<Expr>, done: seq<Expr>, lm: seq<Expr>, tail: seq<Expr>, x: Expr)
    requires mid == done + lm + tail && tail != []
    ensures mid[|done + lm| := x][..|done + lm| + 1] == done + lm + [x]
    ensures mid[|done + lm| := x][|done + lm| + 1..] == tail[1..]
  {
  }

  /** A fresh array holding `s`: the `Vec` of a loop's children. */
  method ArrayOf(s: seq<Expr>) returns (c: array<Expr>)
    ensures fresh(c) && c[..] == s
  {
    c := new Expr[|s|](k requires 0 <= k < |s| => s[k]);
  }

  /** The scan of `optimize` over `a`, which held `orig`, stands at `i`
      with the pending run starting at `start`. */
  ghost predicate Scanning(a: array<Expr>, orig: seq<Expr>, start: nat, i: nat)
    reads a
  {
    && |orig| == a.Length && start <= i <= a.Length
    && OptimizedUpTo(orig, a[..start], start)
    && a[start..] == orig[start..]
    && LoopFree(orig[start..i])
  }

  /** The scan meets the loop at `i`: the pending run `a[start..i]` is
      coalesced in place. */
  method CoalesceBeforeLoop(a: array<Expr>, ghost orig: seq<Expr>, start: nat, i: nat) returns (ok: bool)
    requires Scanning(a, orig, start, i) && i < a.Length && orig[i].Loop?
    modifies a
    ensures !ok ==> Optimize(orig).None?
    ensures ok ==> LazyMove(orig[start..i]).Some? && |LazyMove(orig[start..i]).value| == i - start
    ensures ok ==> a[..] == old(a[..start]) + LazyMove(orig[start..i]).value + orig[i..]
  {
    OptimizedUpToLoop(orig, a[..start], start, i);
    assert a[start..i] == orig[start..i] && a[i..] == orig[i..];
    ok := OptimizeLazyMove(a, start, i);
    if ok {
      LazyMoveLength(orig[start..i]);
    }
  }

  /** The loop at `i`, its body optimized to `children`, is written back:
      as a multiplication block when it qualifies, else as a loop. */
  method WriteLoop(a: array<Expr>, ghost orig: seq<Expr>, ghost done: seq<Expr>, start: nat, i: nat, children: seq<Expr>)
    requires |orig| == a.Length && start <= i < a.Length && orig[i].Loop?
    requires OptimizedUpTo(orig, done, start) && LoopFree(orig[start..i])
    requires LazyMove(orig[start..i]).Some? && |LazyMove(orig[start..i]).value| == i - start
    requires a[..] == done + LazyMove(orig[start..i]).value + orig[i..]
    requires Optimize(orig[i].body) == Some(children)
    modifies a
    ensures Scanning(a, orig, i + 1, i + 1)
  {
    ghost var mid := a[..];
    if CanConvertToMultiplication(children) {
      a[i] := OptimizeMultiplication(children);
    } else {
      a[i] := Loop(children);
    }
    assert OptimizeLoop(orig[i].body) == Some(a[i]);
    assert a[..] == mid[i := a[i]];
    LoopWritten(orig, done, start, i, mid, a[i]);
    assert orig[i + 1..i + 1] == [];
  }

  /** The ghost side of `WriteLoop`: with the loop's slot overwritten by
      what `optimize` makes of it, everything up to and including the slot
      is optimized and the rest is still the original. */
  lemma LoopWritten(orig: seq<Expr>, done: seq<Expr>, start: nat, i: nat, mid: seq<Expr>, e: Expr)
    requires |orig| == |mid| && start <= i < |orig| && orig[i].Loop?
    requires OptimizedUpTo(orig, done, start) && LoopFree(orig[start..i])
    requires LazyMove(orig[start..i]).Some? && |LazyMove(orig[start..i]).value| == i - start
    requires mid == done + LazyMove(orig[start..i]).value + orig[i..]
    requires OptimizeLoop(orig[i].body) == Some(e)
    ensures OptimizedUpTo(orig, mid[i := e][..i + 1], i + 1)
    ensures mid[i := e][i + 1..] == orig[i + 1..]
  {
    var lm := LazyMove(orig[start..i]).value;
    var s := mid[i := e];
    SlotWritten(mid, done, lm, orig[i..], e);
    assert s[..i + 1] == done + lm + [e] && s[i + 1..] == orig[i + 1..];
    OptimizedUpToNext(orig, done, start, i, s[..i + 1]);
  }

  /** `optimize` on an array: the runs between loops are coalesced in place as
      the scan passes each loop, each loop body is optimized recursively and
      replaced by a multiplication block when it qualifies, and the tail run
      is coalesced last. Returns false where the Rust code panics. */
  method OptimizeInPlace(a: array<Expr>) returns (ok: bool)
    modifies a
    ensures ok == Optimize(old(a[..])).Some?
    ensures ok ==> a[..] == Optimize(old(a[..])).value
    decreases a[..]
  {
    ghost var orig := a[..];
    var start := 0;
    OptimizedUpToStart(orig);
    for i := 0 to a.Length
      invariant Scanning(a, orig, start, i)
    {
      if a[i].Loop? {
        var body := a[i].body;
        assert orig[i] == Loop(body);
        ghost var done := a[..start];
        ok := CoalesceBeforeLoop(a, orig, start, i);
        if !ok {
          return;
        }
        var children := ArrayOf(body);
        ok := OptimizeInPlace(children);
        if !ok {
          OptimizedUpToLoop(orig, done, start, i);
          return;
        }
        WriteLoop(a, orig, done, start, i, children[..]);
        start := i + 1;
      } else {
        LoopFreeExtend(orig, start, i);
      }
    }
    ghost var done := a[..start];
    assert orig[start..a.Length] == orig[start..];
    OptimizedUpToEnd(orig, done, start);
    assert a[start..a.Length] == orig[start..] && a[a.Length..] == [];
    ok := OptimizeLazyMove(a, start, a.Length);
    if ok {
      assert a[..] == done + LazyMove(orig[start..]).value;
    }
  }
}
