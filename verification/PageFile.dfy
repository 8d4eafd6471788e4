/** Files as the backup code sees them: the database file, a sequence of pages, and the bytes
    of the spill file. */
module PageFile {

  type Byte = x: int | 0 <= x < 256 witness 0
  type Bytes = seq<Byte>

  /** Pages are numbered from 1. */
  type PageNo = x: nat | 1 <= x witness 1
  type DbFile = seq<Bytes>

  function ZeroPage(pageSize: nat): Bytes {
    seq(pageSize, _ => 0)
  }

  function Zeros(n: nat, pageSize: nat): DbFile {
    seq(n, _ => ZeroPage(pageSize))
  }

  /** Seeks to the place of page `p` and writes it; a file that is too short is extended, with
      zeros in the gap. */
  function WritePage(db: DbFile, pageSize: nat, p: PageNo, page: Bytes): DbFile {
    if p <= |db| then db[p - 1 := page]
    else db + Zeros(p - 1 - |db|, pageSize) + [page]
  }

  // ---------------------------------------------------------------- overlaying a set of pages

  ghost function MaxPage(pages: map<PageNo, Bytes>): (m: nat)
    ensures forall p :: p in pages ==> p <= m
    ensures m == 0 <==> pages == map[]
    ensures m > 0 ==> m in pages
  {
    if pages == map[] then 0
    else
      var p :| p in pages;
      assert pages == (pages - {p})[p := pages[p]];
      var m := MaxPage(pages - {p});
      if p < m then m else p
  }

  /** The file with the given pages laid over it; this does not depend on any order. */
  ghost function Overlay(db: DbFile, pageSize: nat, pages: map<PageNo, Bytes>): DbFile {
    seq(if |db| < MaxPage(pages) then MaxPage(pages) else |db|,
        i requires 0 <= i => if i + 1 in pages then pages[i + 1]
                             else if i < |db| then db[i]
                             else ZeroPage(pageSize))
  }

  lemma MaxPageInsert(pages: map<PageNo, Bytes>, p: PageNo, page: Bytes)
    ensures MaxPage(pages[p := page]) == if MaxPage(pages) < p then p else MaxPage(pages)
  {
    var m := pages[p := page];
    assert p in m;
    if MaxPage(pages) > 0 {
      assert MaxPage(pages) in m;
    }
  }

  /** Writing one page after the others is overlaying one page more. */
  lemma OverlayInsert(db: DbFile, pageSize: nat, pages: map<PageNo, Bytes>, p: PageNo, page: Bytes)
    ensures Overlay(db, pageSize, pages[p := page]) == WritePage(Overlay(db, pageSize, pages), pageSize, p, page)
  {
    MaxPageInsert(pages, p, page);
  }

  /** Pages that nobody has written are zeros. */
  lemma GapsAreZero(db: DbFile, pageSize: nat, pages: map<PageNo, Bytes>, i: nat)
    requires |db| <= i < |Overlay(db, pageSize, pages)| && i + 1 !in pages
    ensures |Overlay(db, pageSize, pages)[i]| == pageSize
    ensures forall j :: 0 <= j < pageSize ==> Overlay(db, pageSize, pages)[i][j] == 0
  {
  }

  lemma OverlayNothing(db: DbFile, pageSize: nat)
    ensures Overlay(db, pageSize, map[]) == db
  {
  }

  ghost predicate IsLeast(p: PageNo, s: set<PageNo>) {
    p in s && forall q :: q in s ==> p <= q
  }

  lemma {:induction false} LeastExists(s: set<PageNo>, p: PageNo) returns (m: PageNo)
    requires p in s
    ensures IsLeast(m, s)
    decreases p
  {
    if q :| q in s && q < p {
      m := LeastExists(s, q);
    } else {
      m := p;
    }
  }

  /** The pages of a map that have been dealt with, when those in `rest` have not. */
  ghost function Without(pages: map<PageNo, Bytes>, rest: set<PageNo>): map<PageNo, Bytes> {
    map p | p in pages && p !in rest :: pages[p]
  }

  lemma WithoutStep(pages: map<PageNo, Bytes>, rest: set<PageNo>, p: PageNo)
    requires p in rest && p in pages
    ensures Without(pages, rest - {p}) == Without(pages, rest)[p := pages[p]]
    ensures p !in Without(pages, rest)
  {
  }

  lemma WithoutEnds(pages: map<PageNo, Bytes>)
    ensures Without(pages, pages.Keys) == map[] && Without(pages, {}) == pages
  {
  }
}
