/** Replication frames and the databases they describe.

A frame carries one page.  Applying frames in order overlays pages, as the SQLite
write-ahead log does: the last frame of a page decides the content of that page. */
module Frames {
  import opened Basics

  type PageNo = nat
  type Page = seq<bv8>

  /** `sizeAfter` is the size of the database in pages for the last frame of a
      transaction, and 0 for every other frame. */
  datatype Frame = Frame(frameNo: nat, pageNo: PageNo, sizeAfter: nat, data: Page)

  /** A database: its pages, and its size in pages after the last commit. */
  datatype Db = Db(pages: map<PageNo, Page>, size: nat)

  /** A history lists every committed frame; frame `n` stands at position `n`. */
  ghost predicate IsHistory(h: seq<Frame>) {
    forall i :: 0 <= i < |h| ==> h[i].frameNo == i
  }

  /** The last frame of `h` ends a transaction. */
  ghost predicate Closed(h: seq<Frame>) {
    h != [] ==> h[|h| - 1].sizeAfter != 0
  }

  /** Overlays the pages of `fs`, in order, on `m`. */
  function ApplyPages(m: map<PageNo, Page>, fs: seq<Frame>): map<PageNo, Page> {
    if fs == [] then m
    else
      var last := fs[|fs| - 1];
      ApplyPages(m, fs[..|fs| - 1])[last.pageNo := last.data]
  }

  /** The size set by the last commit in `fs`, or `size` when there is none. */
  function ApplySize(size: nat, fs: seq<Frame>): nat {
    if fs == [] then size
    else
      var last := fs[|fs| - 1];
      if last.sizeAfter != 0 then last.sizeAfter else ApplySize(size, fs[..|fs| - 1])
  }

  const EmptyDb := Db(map[], 0)

  /** The database after every frame of `fs`, one by one. */
  function Replay(fs: seq<Frame>): Db {
    Db(ApplyPages(EmptyDb.pages, fs), ApplySize(EmptyDb.size, fs))
  }

  function Lookup(m: map<PageNo, Page>, p: PageNo): Option<Page> {
    if p in m then Some(m[p]) else None
  }

  /** What the last frame of page `p` in `fs` wrote. */
  function LastData(fs: seq<Frame>, p: PageNo): Option<Page> {
    if fs == [] then None
    else if fs[|fs| - 1].pageNo == p then Some(fs[|fs| - 1].data)
    else LastData(fs[..|fs| - 1], p)
  }

  ghost predicate Writes(fs: seq<Frame>, p: PageNo) {
    exists i :: 0 <= i < |fs| && fs[i].pageNo == p
  }

  /** Applying frames is decided page by page by the last frame of the page. */
  lemma {:induction false} ApplyLookup(m: map<PageNo, Page>, fs: seq<Frame>, p: PageNo)
    ensures Lookup(ApplyPages(m, fs), p)
         == if LastData(fs, p).Some? then LastData(fs, p) else Lookup(m, p)
  {
    if fs != [] {
      ApplyLookup(m, fs[..|fs| - 1], p);
    }
  }

  lemma {:induction false} LastDataIsLast(fs: seq<Frame>, p: PageNo, i: nat)
    requires i < |fs| && fs[i].pageNo == p
    requires forall j :: i < j < |fs| ==> fs[j].pageNo != p
    ensures LastData(fs, p) == Some(fs[i].data)
  {
    if i < |fs| - 1 {
      LastDataIsLast(fs[..|fs| - 1], p, i);
    }
  }

  lemma {:induction false} LastDataSome(fs: seq<Frame>, p: PageNo)
    ensures LastData(fs, p).Some? <==> Writes(fs, p)
  {
    if fs != [] {
      var front := fs[..|fs| - 1];
      LastDataSome(front, p);
      if Writes(front, p) {
        var i :| 0 <= i < |front| && front[i].pageNo == p;
        assert fs[i].pageNo == p;
      }
      if fs[|fs| - 1].pageNo != p && Writes(fs, p) {
        var i :| 0 <= i < |fs| && fs[i].pageNo == p;
        assert front[i].pageNo == p;
      }
    }
  }

  lemma {:induction false} LastDataConcat(a: seq<Frame>, b: seq<Frame>, p: PageNo)
    ensures LastData(a + b, p) == if LastData(b, p).Some? then LastData(b, p) else LastData(a, p)
  {
    if b == [] {
      assert a + b == a;
    } else {
      assert (a + b)[..|a + b| - 1] == a + b[..|b| - 1];
      LastDataConcat(a, b[..|b| - 1], p);
    }
  }

  lemma {:induction false} ApplyConcat(m: map<PageNo, Page>, a: seq<Frame>, b: seq<Frame>)
    ensures ApplyPages(m, a + b) == ApplyPages(ApplyPages(m, a), b)
  {
    if b == [] {
      assert a + b == a;
    } else {
      assert (a + b)[..|a + b| - 1] == a + b[..|b| - 1];
      ApplyConcat(m, a, b[..|b| - 1]);
    }
  }

  /** Two maps that answer every lookup alike are the same map. */
  lemma SameLookups(a: map<PageNo, Page>, b: map<PageNo, Page>)
    requires forall p: PageNo :: Lookup(a, p) == Lookup(b, p)
    ensures a == b
  {
    assert forall p: PageNo :: p in a ==> Lookup(b, p).Some? && Lookup(b, p).value == a[p] by {
      forall p: PageNo | p in a
        ensures Lookup(b, p).Some? && Lookup(b, p).value == a[p]
      {
        assert Lookup(a, p) == Some(a[p]);
      }
    }
    assert forall p: PageNo :: p in b ==> Lookup(a, p).Some? by {
      forall p: PageNo | p in b
        ensures Lookup(a, p).Some?
      {
        assert Lookup(b, p) == Some(b[p]);
      }
    }
    assert a.Keys == b.Keys;
  }

  /** Frame lists that agree on the last frame of every page have the same effect. */
  lemma SameEffect(m: map<PageNo, Page>, a: seq<Frame>, b: seq<Frame>)
    requires forall p: PageNo :: LastData(a, p) == LastData(b, p)
    ensures ApplyPages(m, a) == ApplyPages(m, b)
  {
    forall p: PageNo
      ensures Lookup(ApplyPages(m, a), p) == Lookup(ApplyPages(m, b), p)
    {
      ApplyLookup(m, a, p);
      ApplyLookup(m, b, p);
    }
    SameLookups(ApplyPages(m, a), ApplyPages(m, b));
  }
}
