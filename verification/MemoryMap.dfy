/** 64-bit addresses, page rounding and the memory map handed over by the boot loader. */
module MemoryMap {
  import opened Basics

  const PAGE := 4096
  const MAX_ENTRIES := 64

  datatype Entry = Entry(baseLo: u32, baseHi: u32, lenLo: u32, lenHi: u32, typ: u32)

  /** 64-bit addition wraps. */
  function Wrap(x: nat): u64 { x % TWO64 }

  function FromHiLo(hi: u32, lo: u32): u64 { hi * TWO32 + lo }

  function Base(e: Entry): u64 { FromHiLo(e.baseHi, e.baseLo) }

  function Size(e: Entry): u64 { FromHiLo(e.lenHi, e.lenLo) }

  /** The end address the kernel computes, wrap-around included. */
  function End(e: Entry): u64 { Wrap(Base(e) + Size(e)) }

  predicate Available(e: Entry) { e.typ == 1 }

  function AlignUp(v: u64): u64 { Wrap(v + (PAGE - 1)) / PAGE * PAGE }

  function AlignDown(v: u64): u64 { v / PAGE * PAGE }

  /** Rounding up gives the least page boundary at or above an address, unless the sum wraps. */
  lemma AlignUpLeast(v: u64)
    requires v + (PAGE - 1) < TWO64
    ensures v <= AlignUp(v) < v + PAGE && AlignUp(v) % PAGE == 0
    ensures forall p: nat :: p * PAGE >= v <==> p * PAGE >= AlignUp(v)
  {}

  /** The number of pages to the boundary above. */
  lemma AlignUpPages(v: u64) returns (q: nat)
    requires v + (PAGE - 1) < TWO64
    ensures AlignUp(v) == q * PAGE && v <= q * PAGE < v + PAGE
  {
    q := (v + (PAGE - 1)) / PAGE;
  }

  lemma Multiple(q: nat)
    ensures q * PAGE % PAGE == 0 && q * PAGE / PAGE == q
  {}

  lemma WrapNone(x: nat)
    requires x < TWO64
    ensures Wrap(x) == x
  {}

  lemma AlignDownGreatest(v: u64)
    ensures AlignDown(v) <= v < AlignDown(v) + PAGE && AlignDown(v) % PAGE == 0
    ensures forall p: nat :: p * PAGE <= v <==> p * PAGE <= AlignDown(v)
  {}
}
