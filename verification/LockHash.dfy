/** Record-lock addressing of gdb-helpers/innodb.gdb: hash cells live in an array in which every group of
    cells is preceded by latches and followed by filler. */
module LockHash {
  import opened Arithmetic

  /** LATCH, ELEMENTS_PER_LATCH and EMPTY_SLOTS_PER_LATCH. */
  datatype Layout = Layout(latch: nat, elements: nat, empty: nat)
  {
    predicate Valid() { elements >= 1 }

    function Stride(): nat { latch + elements + empty }
  }

  function Pad(g: Layout, h: nat): nat
    requires g.Valid()
  {
    g.latch + g.latch * (h / g.elements) + (h / g.elements) * g.empty + h
  }

  lemma ProductAtLeast(d: nat, n: int)
    requires n >= 1
    ensures d * n >= d
  {
    assert d * n == d * (n - 1) + d;
    assert d * (n - 1) >= 0;
  }

  lemma DivisionIsUnique(x: int, d: int, q: int, r: int)
    requires d > 0 && x == d * q + r && 0 <= r < d
    ensures x / d == q && x % d == r
  {
    var q', r' := x / d, x % d;
    assert x == d * q' + r' && 0 <= r' < d;
    Unique(d, q, r, q', r');
  }

  lemma Unique(d: int, q: int, r: int, q': int, r': int)
    requires d > 0 && 0 <= r < d && 0 <= r' < d && d * q + r == d * q' + r'
    ensures q == q' && r == r'
  {
    assert d * (q - q') == d * q - d * q' && d * (q' - q) == d * q' - d * q;
    if q > q' {
      ProductAtLeast(d, q - q');
    } else if q < q' {
      ProductAtLeast(d, q' - q);
    }
  }

  lemma PadOf(g: Layout, q: nat, r: nat)
    requires r < g.elements
    ensures Pad(g, g.elements * q + r) == g.Stride() * q + (g.latch + r)
  {
    DivisionIsUnique(g.elements * q + r, g.elements, q, r);
    StrideTimes(g, q);
  }

  lemma StrideTimes(g: Layout, q: nat)
    ensures g.Stride() * q == g.latch * q + g.elements * q + q * g.empty
  {
  }

  /** Cell h is in group h / elements, behind the latches, at place h % elements. */
  lemma PadIsGroupAndPlace(g: Layout, h: nat)
    requires g.Valid()
    ensures Pad(g, h) / g.Stride() == h / g.elements
    ensures Pad(g, h) % g.Stride() == g.latch + h % g.elements
  {
    var q, r := h / g.elements, h % g.elements;
    assert h == g.elements * q + r;
    PadOf(g, q, r);
    DivisionIsUnique(Pad(g, h), g.Stride(), q, g.latch + r);
  }

  function Unpad(g: Layout, x: nat): int
    requires g.Valid()
  {
    x / g.Stride() * g.elements + (x % g.Stride() - g.latch)
  }

  /** The slots used by cells are exactly those that are neither latch nor filler, and the cell can be
      computed back from its slot. */
  lemma SlotHoldsCellIff(g: Layout, x: nat)
    requires g.Valid()
    ensures (exists h: nat :: Pad(g, h) == x) <==> g.latch <= x % g.Stride() < g.latch + g.elements
    ensures forall h: nat :: Pad(g, h) == x ==> Unpad(g, x) == h
  {
    forall h: nat | Pad(g, h) == x
      ensures g.latch <= x % g.Stride() < g.latch + g.elements && Unpad(g, x) == h
    {
      UnpadPad(g, h);
    }
    if g.latch <= x % g.Stride() < g.latch + g.elements {
      CellOfSlot(g, x);
    }
  }

  lemma UnpadPad(g: Layout, h: nat)
    requires g.Valid()
    ensures g.latch <= Pad(g, h) % g.Stride() < g.latch + g.elements && Unpad(g, Pad(g, h)) == h
  {
    PadIsGroupAndPlace(g, h);
    assert h == g.elements * (h / g.elements) + h % g.elements;
  }

  lemma CellOfSlot(g: Layout, x: nat)
    requires g.Valid() && g.latch <= x % g.Stride() < g.latch + g.elements
    ensures Unpad(g, x) >= 0 && Pad(g, Unpad(g, x)) == x
  {
    var q, r := x / g.Stride(), x % g.Stride() - g.latch;
    assert x == g.Stride() * q + (g.latch + r);
    PadOf(g, q, r);
    assert Unpad(g, x) == g.elements * q + r;
  }

  lemma PadIsIncreasing(g: Layout, h: nat, k: nat)
    requires g.Valid() && h < k
    ensures Pad(g, h) < Pad(g, k)
  {
    var q, q' := h / g.elements, k / g.elements;
    QuotientGrows(h, k, g.elements);
    ProductGrows(g.latch, q, q');
    ProductGrows(g.empty, q, q');
  }

  lemma QuotientGrows(h: nat, k: nat, e: nat)
    requires e >= 1 && h <= k
    ensures h / e <= k / e
  {
    var q, q' := h / e, k / e;
    assert h == e * q + h % e && k == e * q' + k % e;
    assert e * (q - q') == e * q - e * q';
    if q > q' {
      ProductAtLeast(e, q - q');
    }
  }

  // ----- The walks over the chains

  /** A page id: the number of its tablespace in the upper half, its own number in the lower. */
  type PageId = id: nat | id < 0x1_0000_0000_0000_0000 witness 0

  const HALF := 0x1_0000_0000

  function Fold(id: PageId): nat
  {
    id / HALF * 0x10_0000 + id / HALF + id % HALF
  }

  /** Two pages have the same fold exactly when their tablespace and page numbers make up for each other;
      in particular the pages of one tablespace all have different folds. */
  lemma FoldsMeetIff(space: nat, page: nat, space': nat, page': nat)
    requires space < 0x1_0000_0000 && page < 0x1_0000_0000 && space' < 0x1_0000_0000 && page' < 0x1_0000_0000
    ensures Fold(space * 0x1_0000_0000 + page) == Fold(space' * 0x1_0000_0000 + page')
            <==> (space - space') * 0x10_0001 == page' - page
  {
    FoldOf(space, page);
    FoldOf(space', page');
  }

  lemma FoldOf(space: nat, page: nat)
    requires space < 0x1_0000_0000 && page < 0x1_0000_0000
    ensures Fold(space * 0x1_0000_0000 + page) == space * 0x10_0001 + page
  {
    assert (space * HALF + page) / HALF == space;
  }

  /** The exclusive or of two numbers. */
  function Xor(a: nat, b: nat): nat
    decreases a + b
  {
    if a == 0 && b == 0 then 0 else 2 * Xor(a / 2, b / 2) + if a % 2 == b % 2 then 0 else 1
  }

  /** Bit i of n. */
  predicate Bit(n: nat, i: nat)
  {
    if i == 0 then n % 2 == 1 else Bit(n / 2, i - 1)
  }

  lemma {:induction false} ZeroHasNoBits(i: nat)
    ensures !Bit(0, i)
  {
    if i > 0 {
      ZeroHasNoBits(i - 1);
    }
  }

  lemma {:induction false} XorBits(a: nat, b: nat, i: nat)
    ensures Bit(Xor(a, b), i) <==> Bit(a, i) != Bit(b, i)
  {
    if a == 0 && b == 0 {
      ZeroHasNoBits(i);
    } else if i > 0 {
      XorBits(a / 2, b / 2, i - 1);
    }
  }

  lemma {:induction false} XorIsAtMostSum(a: nat, b: nat)
    ensures Xor(a, b) <= a + b
    decreases a + b
  {
    if a > 0 || b > 0 {
      XorIsAtMostSum(a / 2, b / 2);
    }
  }

  lemma {:induction false} SameKeyCancels(a: nat, b: nat, key: nat)
    ensures Xor(Xor(a, key), Xor(b, key)) == Xor(a, b)
    decreases a + b + key
  {
    if a + b + key > 0 {
      SameKeyCancels(a / 2, b / 2, key / 2);
      Halves(a, key);
      Halves(b, key);
    }
  }

  lemma Halves(a: nat, b: nat)
    ensures Xor(a, b) / 2 == Xor(a / 2, b / 2) && (Xor(a, b) % 2 == 0 <==> a % 2 == b % 2)
  {
  }

  lemma {:induction false} XorWithSelf(a: nat)
    ensures Xor(a, a) == 0
  {
    if a > 0 {
      XorWithSelf(a / 2);
    }
  }

  function Cell(id: PageId, cells: nat): (h: nat)
    requires cells >= 1
    ensures h < cells
  {
    Xor(Fold(id), 1653893711) % cells
  }

  /** A number of cells beyond every fold, so that every fold has a cell of its own. */
  const ALL_CELLS := 0x1_0000_0000_0000_0000

  /** The exclusive or with any key of 32 bits still fits. */
  lemma MixedFits(id: PageId, key: nat)
    requires key < HALF
    ensures Xor(Fold(id), key) % ALL_CELLS == Xor(Fold(id), key)
  {
    XorIsAtMostSum(Fold(id), key);
    NoRemainder(Xor(Fold(id), key));
  }

  lemma NoRemainder(n: nat)
    requires n < ALL_CELLS
    ensures n % ALL_CELLS == n
  {
  }

  lemma CellOfAll(id: PageId)
    ensures Cell(id, ALL_CELLS) == Xor(Fold(id), 1653893711)
  {
    MixedFits(id, 1653893711);
  }

  lemma Mixed(a: nat, b: nat, key: nat, i: nat)
    ensures Xor(Xor(a, key), Xor(b, key)) == Xor(a, b)
    ensures a == key ==> Xor(a, key) == 0
    ensures Bit(Xor(a, key), i) <==> Bit(a, i) != Bit(key, i)
  {
    SameKeyCancels(a, b, key);
    XorWithSelf(key);
    XorBits(a, key, i);
  }

  /** In a table of that size two cells differ in exactly the bits in which the folds differ, and a page of
      fold 1653893711 is in cell 0; so the cell has the bits in which the fold differs from that number. */
  lemma CellsDifferAsFoldsDo(id: PageId, id': PageId, i: nat)
    ensures Xor(Cell(id, ALL_CELLS), Cell(id', ALL_CELLS)) == Xor(Fold(id), Fold(id'))
    ensures Fold(id) == 1653893711 ==> Cell(id, ALL_CELLS) == 0
    ensures Bit(Cell(id, ALL_CELLS), i) <==> Bit(Fold(id), i) != Bit(1653893711, i)
  {
    CellOfAll(id);
    CellOfAll(id');
    Mixed(Fold(id), Fold(id'), 1653893711, i);
  }

  /** A table of any other size takes the remainder. */
  lemma CellIsRemainder(id: PageId, cells: nat)
    requires cells >= 1
    ensures exists q: nat :: Cell(id, ALL_CELLS) == cells * q + Cell(id, cells)
  {
    CellOfAll(id);
    Quotient(Xor(Fold(id), 1653893711), cells);
  }

  lemma Quotient(n: nat, d: nat)
    requires d >= 1
    ensures exists q: nat :: n == d * q + n % d
  {
    assert n == d * (n / d) + n % d;
  }

  /** Where the walk starts. */
  function Slot(g: Layout, id: PageId, cells: nat): nat
    requires g.Valid() && cells >= 1
  {
    Pad(g, Cell(id, cells))
  }

  /** It starts in the group of the page's cell, behind the latches, at the cell's place. */
  lemma SlotIsOfCell(g: Layout, id: PageId, cells: nat)
    requires g.Valid() && cells >= 1
    ensures Cell(id, cells) == Slot(g, id, cells) / g.Stride() * g.elements + Slot(g, id, cells) % g.Stride() - g.latch
    ensures g.latch <= Slot(g, id, cells) % g.Stride() < g.latch + g.elements
  {
    UnpadPad(g, Cell(id, cells));
  }

  /** A record lock: where it is and which page it is on. */
  datatype Lock = Lock(address: nat, page: PageId)

  /** The locks of a cell, linked by their hash pointers, the last of which is null. */
  datatype Chain = Null | Link(lock: Lock, hash: Chain)

  /** The locks of a chain, first to last. */
  function Locks(c: Chain): seq<Lock>
  {
    if c.Null? then [] else [c.lock] + Locks(c.hash)
  }

  function OnPage(locks: seq<Lock>, id: PageId): seq<Lock>
  {
    if locks == [] then [] else (if locks[0].page == id then [locks[0]] else []) + OnPage(locks[1..], id)
  }

  /** get_lock_rec_for_page_106: what it prints. */
  method GetLockRecForPage(g: Layout, slots: seq<Chain>, cells: nat, id: PageId) returns (printed: seq<Lock>)
    requires g.Valid() && cells >= 1 && Slot(g, id, cells) < |slots|
    ensures printed == OnPage(Locks(slots[Slot(g, id, cells)]), id)
  {
    printed := PrintOnPage(slots[Slot(g, id, cells)], id);
  }

  method PrintOnPage(first: Chain, id: PageId) returns (printed: seq<Lock>)
    ensures printed == OnPage(Locks(first), id)
  {
    printed := [];
    var lock := first;
    while lock != Null
      invariant OnPage(Locks(first), id) == printed + OnPage(Locks(lock), id)
      decreases lock
    {
      FirstLink(lock, id, printed);
      if lock.lock.page == id {
        printed := printed + [lock.lock];
      }
      lock := lock.hash;
    }
  }

  lemma FirstLink(c: Chain, id: PageId, printed: seq<Lock>)
    requires c.Link?
    ensures printed + OnPage(Locks(c), id)
            == (if c.lock.page == id then printed + [c.lock] else printed) + OnPage(Locks(c.hash), id)
  {
    var all, rest := Locks(c), Locks(c.hash);
    assert all == [c.lock] + rest && all[1..] == rest;
    assert OnPage(all, id) == (if c.lock.page == id then [c.lock] else []) + OnPage(rest, id);
    Regroup(printed, if c.lock.page == id then [c.lock] else [], OnPage(rest, id));
  }

  lemma Regroup(a: seq<Lock>, b: seq<Lock>, c: seq<Lock>)
    ensures a + b + c == a + (b + c) && a + [] == a
  {
  }

  /** Every lock hangs in the chain of the cell its page hashes to. */
  ghost predicate WellHashed(g: Layout, slots: seq<Chain>, cells: nat)
    requires g.Valid() && cells >= 1
  {
    forall x, l :: 0 <= x < |slots| && l in Locks(slots[x]) ==> Slot(g, l.page, cells) == x
  }

  /** What is printed keeps the order of the chain: the locks of one part of it, then those of the rest. */
  lemma {:induction false} OnPageAdds(a: seq<Lock>, b: seq<Lock>, id: PageId)
    ensures OnPage(a + b, id) == OnPage(a, id) + OnPage(b, id)
  {
    if a == [] {
      assert a + b == b;
    } else {
      assert (a + b)[1..] == a[1..] + b;
      OnPageAdds(a[1..], b, id);
      Regroup(if a[0].page == id then [a[0]] else [], OnPage(a[1..], id), OnPage(b, id));
    }
  }

  lemma {:induction false} OnPageIff(locks: seq<Lock>, id: PageId, l: Lock)
    ensures l in OnPage(locks, id) <==> l in locks && l.page == id
  {
    if locks != [] {
      OnPageIff(locks[1..], id, l);
      assert locks == [locks[0]] + locks[1..];
    }
  }

  /** In such a table walking the one chain finds every lock of the page in the whole table, and only
      those. */
  lemma OneChainHasThemAll(g: Layout, slots: seq<Chain>, cells: nat, id: PageId, l: Lock)
    requires g.Valid() && cells >= 1 && WellHashed(g, slots, cells) && Slot(g, id, cells) < |slots|
    ensures l in OnPage(Locks(slots[Slot(g, id, cells)]), id) <==>
            exists x :: 0 <= x < |slots| && l in Locks(slots[x]) && l.page == id
  {
    var slot := Slot(g, id, cells);
    OnPageIff(Locks(slots[slot]), id, l);
    if x :| 0 <= x < |slots| && l in Locks(slots[x]) && l.page == id {
      assert x == slot;
    }
  }
}
