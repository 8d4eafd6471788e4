/** The cache of the pages of one transaction, which moves from memory to a spill file when it
    grows (`bottomless/src/transaction_cache.rs`). */
module TransactionCache {
  import opened PageFile

  /** Where slot `i` of a spill file starts. */
  function SlotStart(i: nat, pageSize: nat): (start: nat)
    ensures i == 0 ==> start == 0
  {
    assert i * pageSize >= 0;
    i * pageSize
  }

  lemma NextSlot(i: nat, pageSize: nat)
    ensures SlotStart(i + 1, pageSize) == SlotStart(i, pageSize) + pageSize
  {
  }

  lemma {:induction false} SlotsInOrder(i: nat, j: nat, pageSize: nat)
    requires i < j
    ensures SlotStart(i, pageSize) + pageSize <= SlotStart(j, pageSize)
  {
    hide SlotStart;
    NextSlot(j - 1, pageSize);
    if i < j - 1 {
      SlotsInOrder(i, j - 1, pageSize);
    }
  }

  /** Slot `i` of the file holds `page`. */
  ghost predicate Holds(file: Bytes, i: nat, page: Bytes) {
    var start := SlotStart(i, |page|);
    start + |page| <= |file| && file[start..start + |page|] == page
  }

  /** Writes `page` over existing bytes. */
  function Overwrite(file: Bytes, offset: nat, page: Bytes): Bytes {
    if offset + |page| <= |file| then file[..offset] + page + file[offset + |page|..] else file
  }

  lemma OverwriteSlot(file: Bytes, i: nat, page: Bytes)
    requires SlotStart(i, |page|) + |page| <= |file|
    ensures var file' := Overwrite(file, SlotStart(i, |page|), page);
      && |file'| == |file| && Holds(file', i, page)
      && forall j, q: Bytes :: 0 <= j && j != i && |q| == |page| && Holds(file, j, q) ==> Holds(file', j, q)
  {
    hide SlotStart;
    var file' := Overwrite(file, SlotStart(i, |page|), page);
    forall j, q: Bytes | 0 <= j && j != i && |q| == |page| && Holds(file, j, q)
      ensures Holds(file', j, q)
    {
      if i < j {
        SlotsInOrder(i, j, |page|);
      } else {
        SlotsInOrder(j, i, |page|);
      }
      assert file'[SlotStart(j, |q|)..SlotStart(j, |q|) + |q|] == file[SlotStart(j, |q|)..SlotStart(j, |q|) + |q|];
    }
  }

  /** No two pages share a slot, and all slots are in use. */
  ghost predicate Distinct(slots: map<PageNo, nat>) {
    && (forall p :: p in slots ==> slots[p] < |slots|)
    && (forall p, q :: p in slots && q in slots && p != q ==> slots[p] != slots[q])
  }

  ghost predicate AllHold(file: Bytes, slots: map<PageNo, nat>, pages: map<PageNo, Bytes>, pageSize: nat) {
    && slots.Keys == pages.Keys
    && (forall p :: p in slots ==> |pages[p]| == pageSize && Holds(file, slots[p], pages[p]))
  }

  /** A spill file: `slots` says which slot holds which page. */
  ghost predicate IsSpill(file: Bytes, slots: map<PageNo, nat>, pages: map<PageNo, Bytes>, pageSize: nat) {
    && |file| == SlotStart(|slots|, pageSize)
    && Distinct(slots)
    && AllHold(file, slots, pages, pageSize)
  }

  /** Offsets are the starts of slots. */
  ghost predicate AtSlots(index: map<PageNo, nat>, slots: map<PageNo, nat>, pageSize: nat) {
    index.Keys == slots.Keys && forall p :: p in index ==> index[p] == SlotStart(slots[p], pageSize)
  }

  lemma EmptySpill(pageSize: nat)
    ensures IsSpill([], map[], map[], pageSize) && AtSlots(map[], map[], pageSize)
  {
  }

  lemma AtNextSlot(index: map<PageNo, nat>, slots: map<PageNo, nat>, pageSize: nat, p: PageNo)
    requires AtSlots(index, slots, pageSize) && p !in slots
    ensures AtSlots(index[p := SlotStart(|slots|, pageSize)], slots[p := |slots|], pageSize)
    ensures |slots[p := |slots|]| == |slots| + 1
    ensures SlotStart(|slots[p := |slots|]|, pageSize) == SlotStart(|slots|, pageSize) + pageSize
  {
    assert slots[p := |slots|].Keys == slots.Keys + {p};
    NextSlot(|slots|, pageSize);
    hide SlotStart;
  }

  lemma SpillKeys(file: Bytes, slots: map<PageNo, nat>, pages: map<PageNo, Bytes>, pageSize: nat)
    requires IsSpill(file, slots, pages, pageSize)
    ensures slots.Keys == pages.Keys
  {
  }

  lemma DistinctAppend(slots: map<PageNo, nat>, p: PageNo)
    requires Distinct(slots) && p !in slots
    ensures Distinct(slots[p := |slots|]) && |slots[p := |slots|]| == |slots| + 1
  {
    assert slots[p := |slots|].Keys == slots.Keys + {p};
  }

  lemma SpillAppend(file: Bytes, slots: map<PageNo, nat>, pages: map<PageNo, Bytes>, pageSize: nat,
                    p: PageNo, page: Bytes)
    requires IsSpill(file, slots, pages, pageSize) && p !in slots && |page| == pageSize
    ensures IsSpill(file + page, slots[p := |slots|], pages[p := page], pageSize)
  {
    hide SlotStart, Holds, Distinct;
    DistinctAppend(slots, p);
    NextSlot(|slots|, pageSize);
    AppendHolds(file, |slots|, page);
    forall q | q in slots
      ensures Holds(file + page, slots[q], pages[q])
    {
      StillHolds(file, page, slots[q], pages[q]);
    }
  }

  lemma AppendHolds(file: Bytes, n: nat, page: Bytes)
    requires |file| == SlotStart(n, |page|)
    ensures Holds(file + page, n, page)
  {
    hide SlotStart;
    assert (file + page)[|file|..|file| + |page|] == page;
  }

  lemma StillHolds(file: Bytes, more: Bytes, i: nat, page: Bytes)
    requires Holds(file, i, page)
    ensures Holds(file + more, i, page)
  {
    hide SlotStart;
    var start := SlotStart(i, |page|);
    assert (file + more)[start..start + |page|] == file[start..start + |page|];
  }

  lemma SpillOverwrite(file: Bytes, slots: map<PageNo, nat>, pages: map<PageNo, Bytes>, pageSize: nat,
                       p: PageNo, page: Bytes)
    requires IsSpill(file, slots, pages, pageSize) && p in slots && |page| == pageSize
    ensures IsSpill(Overwrite(file, SlotStart(slots[p], pageSize), page), slots, pages[p := page], pageSize)
  {
    hide SlotStart, Overwrite, Holds;
    SlotsInOrder(slots[p], |slots|, pageSize);
    OverwriteSlot(file, slots[p], page);
  }

  /** The next page number, as an ordered map yields them. */
  method NextPage(rest: set<PageNo>) returns (p: PageNo)
    requires rest != {}
    ensures IsLeast(p, rest)
  {
    ghost var any :| any in rest;
    ghost var least := LeastExists(rest, any);
    p :| p in rest && forall q :: q in rest ==> p <= q;
  }

  class TransactionPageCache {
    const swapAfterPages: nat
    const pageSize: nat
    var onDisk: bool
    /** the pages, while they are in memory */
    var memory: map<PageNo, Bytes>
    /** offsets into the spill file, once it is in use */
    var index: map<PageNo, nat>
    var file: Bytes
    /** the last page inserted under each number */
    ghost var contents: map<PageNo, Bytes>
    ghost var slots: map<PageNo, nat>

    ghost predicate Valid()
      reads this
    {
      && (forall p :: p in contents ==> |contents[p]| == pageSize)
      && (if onDisk then
            && AtSlots(index, slots, pageSize)
            && IsSpill(file, slots, contents, pageSize)
          else memory == contents)
    }

    constructor (swapAfterPages: nat, pageSize: nat)
      ensures Valid() && contents == map[] && !onDisk
      ensures this.swapAfterPages == swapAfterPages && this.pageSize == pageSize
    {
      this.swapAfterPages, this.pageSize := swapAfterPages, pageSize;
      onDisk, memory, index, file := false, map[], map[], [];
      contents, slots := map[], map[];
    }

    /** Inserts a page.  A swap may fail to open the spill file, or fail after `swapWrites`
        writes to it; then the pages stay in memory. */
    method Insert(p: PageNo, page: Bytes, swapWrites: nat, swapOpens: bool)
      requires Valid() && |page| == pageSize
      modifies this
      ensures Valid() && contents == old(contents)[p := page]
      ensures onDisk <==>
        (old(onDisk)
         || (p !in old(memory) && |old(memory)| > swapAfterPages && swapOpens && |old(memory)| <= swapWrites))
    {
      if onDisk {
        Persist(p, page);
      } else if p !in memory && |memory| > swapAfterPages {
        Swap(swapWrites, swapOpens);
        if onDisk {
          Persist(p, page);
        } else {
          memory := memory[p := page];
          contents := contents[p := page];
        }
      } else {
        memory := memory[p := page];
        contents := contents[p := page];
      }
    }

    method Persist(p: PageNo, page: Bytes)
      requires Valid() && onDisk && |page| == pageSize
      modifies this
      ensures Valid() && onDisk && contents == old(contents)[p := page]
    {
      hide IsSpill, Overwrite, AtSlots, SlotStart;
      var end := SlotStart(|index|, pageSize);
      SlotCount();
      if p !in index {
        SpillAppend(file, slots, contents, pageSize, p, page);
        AtNextSlot(index, slots, pageSize, p);
        file := file + page;
        index := index[p := end];
        slots := slots[p := |slots|];
      } else {
        SpillOverwrite(file, slots, contents, pageSize, p, page);
        file := Overwrite(file, index[p], page);
      }
      contents := contents[p := page];
    }

    /** Moves the pages to a spill file, in ascending order of page numbers. */
    method Swap(writes: nat, opens: bool)
      requires Valid() && !onDisk
      modifies this`onDisk, this`index, this`file, this`slots
      ensures Valid() && (onDisk <==> opens && |memory| <= writes)
    {
      if !opens {
        return;
      }
      hide IsSpill, AtSlots, SlotStart, Without;
      var newIndex: map<PageNo, nat> := map[];
      var newFile: Bytes := [];
      ghost var newSlots: map<PageNo, nat> := map[];
      var rest := memory.Keys;
      var n, end := 0, 0;
      EmptySpill(pageSize);
      WithoutEnds(memory);
      while rest != {}
        invariant !onDisk && memory == contents && rest <= memory.Keys
        invariant n + |rest| == |memory.Keys| && n <= writes
        invariant IsSpill(newFile, newSlots, Without(memory, rest), pageSize)
        invariant AtSlots(newIndex, newSlots, pageSize)
        invariant end == SlotStart(|newSlots|, pageSize)
        decreases rest
      {
        var p := NextPage(rest);
        if n >= writes {
          return;
        }
        WithoutStep(memory, rest, p);
        SpillKeys(newFile, newSlots, Without(memory, rest), pageSize);
        SpillAppend(newFile, newSlots, Without(memory, rest), pageSize, p, memory[p]);
        AtNextSlot(newIndex, newSlots, pageSize, p);
        newFile := newFile + memory[p];
        newIndex := newIndex[p := end];
        newSlots := newSlots[p := |newSlots|];
        end := end + |memory[p]|;
        rest := rest - {p};
        n := n + 1;
      }
      onDisk, index, file, slots := true, newIndex, newFile, newSlots;
    }

    /** Writes the pages of the transaction to the database file, in ascending order. */
    method Flush(db: DbFile) returns (db': DbFile)
      requires Valid()
      ensures db' == Overlay(db, pageSize, contents)
    {
      StoredKeys();
      hide Overlay, Without, IsSpill, AtSlots, WritePage;
      var rest := if onDisk then index.Keys else memory.Keys;
      db' := db;
      OverlayNothing(db, pageSize);
      WithoutEnds(contents);
      while rest != {}
        invariant rest <= contents.Keys
        invariant db' == Overlay(db, pageSize, Without(contents, rest))
        decreases rest
      {
        var p := NextPage(rest);
        var page;
        if onDisk {
          SlotOf(p);
          page := file[index[p]..index[p] + pageSize];
        } else {
          page := memory[p];
        }
        WithoutStep(contents, rest, p);
        OverlayInsert(db, pageSize, Without(contents, rest), p, page);
        db' := WritePage(db', pageSize, p, page);
        rest := rest - {p};
      }
    }

    lemma StoredKeys()
      requires Valid()
      ensures onDisk ==> index.Keys == contents.Keys
      ensures !onDisk ==> memory == contents
    {
    }

    lemma SlotCount()
      requires Valid() && onDisk
      ensures index.Keys == slots.Keys && |index| == |slots|
      ensures forall p :: p in index ==> index[p] == SlotStart(slots[p], pageSize)
    {
      assert |index| == |index.Keys| == |slots.Keys| == |slots|;
    }

    lemma SlotOf(p: PageNo)
      requires Valid() && onDisk && p in contents
      ensures p in index
      ensures index[p] + pageSize <= |file| && file[index[p]..index[p] + pageSize] == contents[p]
    {
      hide SlotStart;
      assert p in slots && Holds(file, slots[p], contents[p]);
    }
  }
}
