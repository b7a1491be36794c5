/** What the two byte-cell Brainfuck interpreters (bf-optimize and
    bf-simple) share: `u8` cells, a 65535-cell tape, and the three ways an
    evaluation can end. */
module BfCommon {
  /** The number of cells of the tape (`MEMORY_SIZE`, and the literal 65535
      in bf-simple). */
  const MemorySize: nat := 65535

  type Byte = x: int | 0 <= x < 256

  /** `u8::wrapping_add` and `u8::wrapping_sub` reduce modulo 256. */
  function WrapByte(x: int): (r: Byte)
    ensures 0 <= x < 256 ==> r == x
    ensures (r - x) % 256 == 0
  {
    x % 256
  }

  /** How an evaluation ends: normally, in a panic (an index outside the tape
      or the program), or with its fuel spent. */
  datatype Outcome<M> = Done(machine: M) | Panic | OutOfFuel

  /** How an imperative evaluation returned, without its final state. */
  datatype Status = Finished | Panicked | Exhausted

  function Conclude<M>(s: Status, m: M): (r: Outcome<M>)
    ensures r.Done? <==> s == Finished
    ensures r.Done? ==> r.machine == m
  {
    match s
    case Finished => Done(m)
    case Panicked => Panic
    case Exhausted => OutOfFuel
  }
}
