/** The physical page allocator (kernel/mem.c).

    RAM is one array with a row of 1024 words per 4 KiB page.  Free pages form a
    linked list threaded through word 0 of the pages themselves.  The ghost field
    `owner` names the single purpose every page serves; because it is a function of
    the page, pages with different purposes are disjoint by construction. */
module Mem {
  import opened Layout

  type Page = w: seq<int> | |w| == 1024 witness seq(1024, _ => 0)

  // memset(page, c, PGSIZE): the byte c in every position.
  function Filled(c: nat): (p: Page)
    ensures forall j :: 0 <= j < 1024 ==> p[j] == c * 0x0101_0101
  {
    seq(1024, _ => c * 0x0101_0101)
  }

  datatype Role =
    | Free(rank: nat)                 // on the free list, with `rank` pages behind it
    | Kernel                          // kernel data, or allocated and not yet linked
    | Dir                             // a page directory
    | Table(dir: nat, pdx: nat)       // the page table behind entry pdx of directory dir
    | Frame(table: nat, ptx: nat)     // the user frame behind entry ptx of a page table

  class Machine {
    const ram: array<Page>
    var freelist: int
    ghost var free: seq<nat>          // the free list, last page first
    ghost var owner: seq<Role>

    // The pointer to the first of the k last pages of the list.
    static ghost function Link(free: seq<nat>, k: nat): int
      requires k <= |free|
    {
      if k == 0 then 0 else Kva(free[k - 1])
    }

    /** The free list is null-terminated, without repetition, and holds exactly the
        pages owned by nobody. */
    ghost predicate Valid()
      reads this, ram
      ensures Valid() ==> ram.Length == NPAGES && |owner| == NPAGES
    {
      && ram.Length == NPAGES && |owner| == NPAGES
      && freelist == Link(free, |free|)
      && (forall k :: 0 <= k < |free| ==> free[k] < NPAGES && owner[free[k]] == Free(k))
      && (forall k {:trigger ram[free[k]]} :: 0 <= k < |free| ==> ram[free[k]][0] == Link(free, k))
      && (forall p :: 0 <= p < NPAGES && owner[p].Free? ==>
            owner[p].rank < |free| && free[owner[p].rank] == p)
    }

    // Power-on: every page belongs to the kernel until it is freed.
    constructor ()
      ensures Valid() && fresh(ram) && free == [] && owner == seq(0x8000, _ => Kernel)
    {
      ram := new Page[0x8000](_ => Filled(0));
      freelist, free, owner := 0, [], seq(0x8000, _ => Kernel);
    }

    // Record what a page in use is used for.
    ghost method Assign(p: nat, role: Role)
      requires Valid() && p < NPAGES && !owner[p].Free? && !role.Free?
      modifies this`owner
      ensures Valid() && owner == old(owner)[p := role]
    {
      owner := owner[p := role];
    }

    // A store to word i of a page that is in use.
    method Store(p: nat, i: nat, w: int)
      requires Valid() && p < NPAGES && !owner[p].Free? && i < 1024
      modifies ram
      ensures Valid()
      ensures ram[..] == old(ram[..])[p := old(ram[p])[i := w]]
    {
      ram[p] := ram[p][i := w];
    }

    // memset of a whole page that is in use.
    method Fill(p: nat, c: nat)
      requires Valid() && p < NPAGES && !owner[p].Free?
      modifies ram
      ensures Valid()
      ensures ram[..] == old(ram[..])[p := Filled(c)]
    {
      ram[p] := Filled(c);
    }

    method Kfree(v: int, ghost p: nat)
      requires Valid() && p < NPAGES && v == Kva(p)
      requires !owner[p].Free?
      modifies this, ram
      ensures Valid()
      ensures free == old(free) + [p] && owner == old(owner)[p := Free(|old(free)|)]
      ensures ram[..] == old(ram[..])[p := Filled(1)[0 := old(freelist)]]
    {
      KvaPage(p);
      var r := PageAt(v);
      ram[r] := Filled(1);
      ram[r] := ram[r][0 := freelist];
      freelist := v;
      owner := owner[p := Free(|free|)];
      free := free + [p];
    }

    method Kalloc() returns (r: int)
      requires Valid()
      modifies this
      ensures Valid()
      ensures old(free) == [] ==> r == 0 && free == [] && owner == old(owner)
      ensures old(free) != [] ==>
                && old(free)[|old(free)| - 1] < NPAGES
                  && old(owner)[old(free)[|old(free)| - 1]] == Free(|old(free)| - 1)
                && r == Kva(old(free)[|old(free)| - 1]) && free == old(free)[..|old(free)| - 1]
                && owner == old(owner)[old(free)[|old(free)| - 1] := Kernel]
    {
      r := freelist;
      if r != 0 {
        ghost var top := free[|free| - 1];
        KvaPage(top);
        freelist := ram[PageAt(r)][0];
        owner := owner[top := Kernel];
        free := free[..|free| - 1];
      }
    }

    // Does page p lie inside [vstart, vend), both kernel addresses?
    static predicate InRange(p: nat, vstart: nat, vend: nat) {
      PgRoundUp(vstart) <= Kva(p) && Kva(p) + 0x1000 <= vend
    }

    static lemma InRangeOfPages(a: nat, b: nat)
      ensures forall p: nat :: InRange(p, Kva(a), Kva(b)) <==> a <= p < b
    {
    }

    /** Free every whole page of a range of kernel memory. */
    method Freerange(vstart: nat, vend: nat)
      requires Valid() && 0x8000_0000 <= vstart && vend <= 0x8800_0000
      requires forall p :: 0 <= p < NPAGES && InRange(p, vstart, vend) ==> owner[p].Kernel?
      modifies this, ram
      ensures Valid()
      ensures forall p :: 0 <= p < NPAGES ==>
        if InRange(p, vstart, vend) then owner[p].Free?
        else owner[p] == old(owner[p]) && ram[p] == old(ram[p])
    {
      var v := PgRoundUp(vstart);
      ghost var k := PageAt(v);
      while v + 0x1000 <= vend
        invariant Valid() && 0 <= k && v == Kva(k) && PgRoundUp(vstart) <= v
        invariant forall p :: 0 <= p < NPAGES ==>
          if InRange(p, vstart, vend) && p < k then owner[p].Free?
          else owner[p] == old(owner[p]) && ram[p] == old(ram[p])
        decreases vend - v
      {
        assert InRange(k, vstart, vend);
        Kfree(v, k);
        v := v + 0x1000;
        k := k + 1;
      }
    }
  }
}
