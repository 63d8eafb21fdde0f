/**
 The processor's view of memory: CR3, a translation lookaside buffer that is filled only by
 the kernel's own accesses, and physical memory behind it.
 */
module Mmu {
  import opened Bytes
  import opened Paging

  class Mmu {
    var mem: Ram
    var cr3: nat
    /** Page number to frame number. Absent translations are not cached. */
    var tlb: map<nat, nat>

    constructor (ram: Ram)
      requires Physical(ram)
      ensures mem == ram && tlb == map[]
    {
      mem := ram;
      cr3 := 0;
      tlb := map[];
    }

    /** Every cached translation is still what the page walk gives. */
    ghost predicate Coherent()
      reads this
    {
      Physical(mem) && Agrees(mem, cr3, tlb)
    }

    /** The frame of an address: from the buffer if it is there, else by the walk, which fills the buffer. */
    method Translate(a: nat) returns (f: Option<nat>)
      requires Coherent()
      modifies this`tlb
      ensures Coherent()
      ensures f == Frame(mem, cr3, a / PAGE_BYTES)
      ensures tlb == match f case None => old(tlb) case Some(g) => old(tlb)[a / PAGE_BYTES := g]
    {
      var p := a / PAGE_BYTES;
      if p in tlb {
        assert tlb == tlb[p := tlb[p]];
        return Some(tlb[p]);
      }
      f := Frame(mem, cr3, p);
      if f.Some? {
        tlb := tlb[p := f.value];
      }
    }

    /** None is a page fault. */
    method Load(a: nat) returns (w: Option<nat>)
      requires Coherent()
      modifies this`tlb
      ensures Coherent()
      ensures w == match Frame(mem, cr3, a / PAGE_BYTES)
        case None => None
        case Some(f) => Some(Word(mem, f, a % PAGE_BYTES / 4))
      ensures tlb == match Frame(mem, cr3, a / PAGE_BYTES)
        case None => old(tlb)
        case Some(f) => old(tlb)[a / PAGE_BYTES := f]
    {
      var f := Translate(a);
      if f == None {
        return None;
      }
      w := Some(Word(mem, f.value, a % PAGE_BYTES / 4));
    }

    /** A store can make cached translations stale; whoever stores to a table has to repair that. */
    method StoreWord(a: nat, w: nat)
      requires Coherent() && Frame(mem, cr3, a / PAGE_BYTES).Some?
      modifies this`tlb, this`mem
      ensures mem == SetWord(old(mem), old(Frame(mem, cr3, a / PAGE_BYTES)).value, a % PAGE_BYTES / 4, w)
      ensures tlb == old(tlb)[a / PAGE_BYTES := old(Frame(mem, cr3, a / PAGE_BYTES)).value]
    {
      var f := Translate(a);
      mem := SetWord(mem, f.value, a % PAGE_BYTES / 4, w);
    }

    method Invlpg(a: nat)
      modifies this`tlb
      ensures tlb == old(tlb) - {a / PAGE_BYTES}
    {
      tlb := tlb - {a / PAGE_BYTES};
    }

    method WriteCr3(d: nat)
      modifies this`cr3, this`tlb
      ensures cr3 == d && tlb == map[]
    {
      cr3 := d;
      tlb := map[];
    }

    /** A store before paging is enabled. */
    method Poke(f: nat, i: nat, w: nat)
      modifies this`mem
      ensures mem == SetWord(old(mem), f, i, w)
    {
      mem := SetWord(mem, f, i, w);
    }
  }

  ghost predicate Agrees(m: Ram, d: nat, tlb: map<nat, nat>) {
    forall p :: p in tlb ==> Frame(m, d, p) == Some(tlb[p])
  }
}
