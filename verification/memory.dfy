/**
  LC-3 main memory: one 16-bit word for every 16-bit address. The store is a
  map that holds a cell for every `bv16` address, so no address is ever out of
  range.
*/
module Memories {

  import opened Words

  /**
    The key of one memory cell, a wrapper around its address. Dafny's map
    axioms do not give read-after-write for keys of a bit-vector type, so the
    map is keyed by this datatype instead of by `Word` itself.
  */
  datatype Cell = Cell(address: Word)

  /** The map holds a cell for every address. */
  ghost predicate Total(m: map<Cell, Word>) {
    forall a: Word :: Cell(a) in m
  }

  /** The address with number `i` (a helper for building the zeroed store). */
  function AddressOf(i: int): Word
    requires 0 <= i < 0x10000
  {
    i as Word
  }

  /** The zeroed store, over all 65,536 addresses. */
  function Zeros(): (m: map<Cell, Word>)
    ensures Total(m)
    ensures forall a: Word :: m[Cell(a)] == 0
  {
    var m := map i | 0 <= i < 0x10000 :: Cell(AddressOf(i)) := 0 as Word;
    assert Total(m) by {
      forall a: Word ensures Cell(a) in m {
        assert AddressOf(a as int) == a;
      }
    }
    m
  }

  type Memory = m: map<Cell, Word> | Total(m) witness Zeros()

  /** `Memory::new()`: every address reads zero. */
  function New(): (m: Memory)
    ensures forall a :: Read(m, a) == 0
  {
    Zeros()
  }

  /**
    `Memory::read`: the `Total` invariant of `Memory` makes every read
    succeed. Its behaviour is specified by `Write`'s read-after-write and
    frame clauses.
  */
  function Read(m: Memory, address: Word): Word
  {
    m[Cell(address)]
  }

  /** Writing one cell: it then reads the value written, and every other cell reads as before. */
  function Write(m: Memory, address: Word, value: Word): (m': Memory)
    ensures Read(m', address) == value
    ensures forall a :: a != address ==> Read(m', a) == Read(m, a)
  {
    m[Cell(address) := value]
  }

  /** `clear()`: afterwards every address reads zero, whatever was stored before. */
  function Clear(m: Memory): (m': Memory)
    ensures forall a :: Read(m', a) == 0
  {
    New()
  }

  /** `memory[address]` (the `Index` impl) reads the same cell as `read`. */
  function Index(m: Memory, address: Word): (v: Word)
    ensures v == Read(m, address)
  {
    m[Cell(address)]
  }

  /** `memory[address] = value` (the `IndexMut` impl) has the effect of `write`. */
  function IndexSet(m: Memory, address: Word, value: Word): (m': Memory)
    ensures m' == Write(m, address, value)
  {
    m[Cell(address) := value]
  }

  /** Writing back the value a cell already holds leaves memory as it was. */
  lemma WriteSameValue(m: Memory, address: Word)
    ensures Write(m, address, Read(m, address)) == m
  {
  }

  /** The memory module's documented sequence: write, index, clear. */
  lemma MemoryExamples()
    ensures Read(Write(New(), 0x3000, 0x1234), 0x3000) == 0x1234
    ensures Index(IndexSet(New(), 0x3001, 0x5678), 0x3001) == 0x5678
    ensures Index(Clear(IndexSet(Write(New(), 0x3000, 0x1234), 0x3001, 0x5678)), 0x3000) == 0
    ensures Index(Clear(IndexSet(Write(New(), 0x3000, 0x1234), 0x3001, 0x5678)), 0x3001) == 0
  {
  }

}
