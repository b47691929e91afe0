/** Page arithmetic and the address-space constants of `config.rs`. Addresses and page
    numbers are `nat`; the shifts and masks of the kernel are written as division and
    remainder by the same powers of two. */
module Address {

  const PAGE_SIZE: nat := 4096

  const USER_SPACE_SIZE: nat := 0x30_0000_0000
  const THREAD_MAX_NUM: nat := 3000
  const USER_STACK_SIZE: nat := 4096 * 16 * 16 * 10

  const MMAP_TOP: nat :=
    USER_SPACE_SIZE - PAGE_SIZE * THREAD_MAX_NUM - USER_STACK_SIZE * THREAD_MAX_NUM - PAGE_SIZE
  const MMAP_BASE: nat := MMAP_TOP - 134217728 * 4

  /** Page numbers that bound the mmap window. */
  const TOP_PAGE: nat := MMAP_TOP / PAGE_SIZE
  const BASE_PAGE: nat := MMAP_BASE / PAGE_SIZE

  /** The window is 512 MiB of whole pages, below the stacks of the threads. */
  lemma MmapWindow()
    ensures TOP_PAGE * PAGE_SIZE == MMAP_TOP && BASE_PAGE * PAGE_SIZE == MMAP_BASE
    ensures MMAP_TOP - MMAP_BASE == 512 * 1024 * 1024
    ensures MMAP_TOP + PAGE_SIZE + 3000 * (USER_STACK_SIZE + PAGE_SIZE) == 192 * 1024 * 1024 * 1024
  {
  }

  /** The page that holds address `va`. */
  function Floor(va: nat): (p: nat)
    ensures p * PAGE_SIZE <= va < (p + 1) * PAGE_SIZE
  {
    va / PAGE_SIZE
  }

  /** The first page at or above `va`; the kernel asserts `va != 0`. */
  function Ceil(va: nat): (p: nat)
    requires va != 0
    ensures (p - 1) * PAGE_SIZE < va <= p * PAGE_SIZE
  {
    (va - 1 + PAGE_SIZE) / PAGE_SIZE
  }

  function PageOffset(va: nat): (off: nat)
    ensures off < PAGE_SIZE && va == Floor(va) * PAGE_SIZE + off
  {
    va % PAGE_SIZE
  }

  /** The pages from `Floor` of the first address to `Ceil` of the end are those that hold a byte of the range. */
  lemma PagesOfRange(start: nat, size: nat, p: nat)
    requires size > 0
    ensures Floor(start) <= p < Ceil(start + size) <==>
              exists a: nat :: start <= a < start + size && a / PAGE_SIZE == p
  {
    if Floor(start) <= p < Ceil(start + size) {
      var a := if p == Floor(start) then start else p * PAGE_SIZE;
      assert start <= a < start + size && a / PAGE_SIZE == p;
    }
  }

  /** Entries per table: nine index bits. */
  const FANOUT: nat := 512

  /** The page number without its low `9 * n` bits: `vpn >> 9n`, as `n` shifts by nine. */
  function Drop(vpn: nat, n: nat): nat
    decreases n
  {
    if n == 0 then vpn else Drop(vpn / FANOUT, n - 1)
  }

  /** Its low `9 * n` bits. */
  function Keep(vpn: nat, n: nat): nat
    decreases n
  {
    if n == 0 then 0 else Keep(vpn / FANOUT, n - 1) * FANOUT + vpn % FANOUT
  }

  /** Nine bits of the page number starting at bit `9 * n`: `(vpn >> 9n) & 0x1ff`. */
  function PnIndex(vpn: nat, n: nat): (i: nat)
    ensures i < FANOUT
  {
    Drop(vpn, n) % FANOUT
  }

  /** How many page numbers `n` groups of nine bits can tell apart. */
  function PageCount(n: nat): nat {
    if n == 0 then 1 else FANOUT * PageCount(n - 1)
  }

  lemma {:induction false} DropStep(vpn: nat, n: nat)
    ensures Drop(vpn, n) == Drop(vpn, n + 1) * FANOUT + PnIndex(vpn, n)
    decreases n
  {
    if n > 0 {
      DropStep(vpn / FANOUT, n - 1);
    }
  }

  /** Bits above the kept ones do not change an index. */
  lemma {:induction false} KeepIndex(vpn: nat, n: nat, i: nat)
    requires i < n
    ensures PnIndex(Keep(vpn, n), i) == PnIndex(vpn, i)
    decreases n
  {
    if i > 0 {
      KeepIndex(vpn / FANOUT, n - 1, i - 1);
    }
  }

  lemma {:induction false} DropKept(vpn: nat, n: nat)
    ensures Drop(Keep(vpn, n), n) == 0
    decreases n
  {
    if n > 0 {
      DropKept(vpn / FANOUT, n - 1);
    }
  }

  lemma {:induction false} KeepSmall(vpn: nat, n: nat)
    ensures Keep(vpn, n) < PageCount(n)
    ensures vpn < PageCount(n) ==> Keep(vpn, n) == vpn
    decreases n
  {
    if n > 0 {
      KeepSmall(vpn / FANOUT, n - 1);
    }
  }

  /** The indexes along a walk determine the page number, as far as the walk looks at it. */
  lemma {:induction false} IndexesDetermine(v: nat, w: nat, n: nat)
    ensures Keep(v, n) == Keep(w, n) <==> forall i: nat :: i < n ==> PnIndex(v, i) == PnIndex(w, i)
    decreases n
  {
    if Keep(v, n) == Keep(w, n) {
      forall i: nat | i < n ensures PnIndex(v, i) == PnIndex(w, i) {
        KeepIndex(v, n, i);
        KeepIndex(w, n, i);
      }
    } else {
      IndexesDetermine(v / FANOUT, w / FANOUT, n - 1);
      if v % FANOUT == w % FANOUT {
        var i: nat :| i < n - 1 && PnIndex(v / FANOUT, i) != PnIndex(w / FANOUT, i);
        assert PnIndex(v, i + 1) == PnIndex(v / FANOUT, i) && PnIndex(w, i + 1) == PnIndex(w / FANOUT, i);
      } else {
        assert PnIndex(v, 0) != PnIndex(w, 0);
      }
    }
  }
}
