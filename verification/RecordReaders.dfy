/**
 The two buffered readers of records: drainIterator over the iterator of the data access layer,
 and the record iterator of workflow loops, proved to read what module Records says.
 */
module RecordReaders {
  import opened WorkflowTypes
  import opened Records

  /** store/adapters/rdbms/dal/iterator.go:34-63: rows are fetched on the first Next. */
  class DalIterator {
    const table: Table
    var cursor: nat
    var limit: nat
    var open: bool
    var next: nat
    var end: nat

    ghost predicate Valid()
      reads this
    {
      && cursor <= |table|
      && (open ==> end == FetchEnd(table, cursor, limit) && cursor <= next <= end)
    }

    constructor (table: Table, cursor: nat, limit: nat)
      requires cursor <= |table|
      ensures Valid() && !open
      ensures this.table == table && this.cursor == cursor && this.limit == limit
    {
      this.table, this.cursor, this.limit := table, cursor, limit;
      open, next, end := false, 0, 0;
    }

    /** Moves to the next row of the fetch, which is then row `next - 1`. */
    method Next() returns (has: bool)
      requires Valid()
      modifies this`open, this`next, this`end
      ensures Valid() && open
      ensures has <==> (if old(open) then old(next) else cursor) < FetchEnd(table, cursor, limit)
      ensures next == (if old(open) then old(next) else cursor) + (if has then 1 else 0)
    {
      if !open {
        open, next, end := true, cursor, FetchEnd(table, cursor, limit);
      }
      has := next < end;
      if has {
        next := next + 1;
      }
    }

    /** Prepares to fetch more rows from behind the given one. */
    method More(max: nat, last: nat)
      requires Valid() && last < |table|
      modifies this`open, this`limit, this`cursor
      ensures Valid() && !open && limit == max && cursor == last + 1
    {
      open := false;
      limit := max;
      cursor := last + 1;
    }
  }

  /** Reads the rows of one fetch: those that pass, or a failure. */
  method DrainFetch(it: DalIterator, rows: seq<nat>) returns (all: seq<nat>, fetched: nat, checked: nat, ok: bool)
    requires it.Valid() && !it.open
    modifies it`open, it`next, it`end
    ensures it.Valid() && it.open
    ensures var end := FetchEnd(it.table, it.cursor, it.limit);
            && ok == Sound(it.table, it.cursor, end)
            && (ok ==> it.next == end && fetched == end - it.cursor)
            && (ok ==> checked == |Passing(it.table, it.cursor, end)|)
            && (ok ==> all == rows + Passing(it.table, it.cursor, end))
  {
    all, fetched, checked, ok := rows, 0, 0, true;
    assert rows + [] == rows;
    var has := it.Next();
    while has
      invariant it.Valid() && it.open && fetched == it.next - it.cursor - (if has then 1 else 0)
      invariant has ==> it.cursor < it.next
      invariant !has ==> it.next == it.end
      invariant Sound(it.table, it.cursor, it.cursor + fetched)
      invariant all == rows + Passing(it.table, it.cursor, it.cursor + fetched)
      invariant checked == |Passing(it.table, it.cursor, it.cursor + fetched)|
      decreases it.end - it.next, has
    {
      var r := it.next - 1;
      assert r == it.cursor + fetched;
      fetched := fetched + 1;
      if it.table[r].Broken? {
        return all, fetched, checked, false;
      }
      if it.table[r].Pass? {
        checked := checked + 1;
        all := all + [r];
      }
      has := it.Next();
    }
  }

  /** Collects the records of an iterator whose first fetch has the limit of the filter. */
  method DrainIterator(it: DalIterator, want: nat)
    returns (rows: seq<nat>, nextPage: Option<nat>, rounds: nat, ok: bool)
    requires it.Valid() && !it.open && it.limit == want
    modifies it
    ensures var r := FindPage(it.table, old(it.cursor), want);
            ok == r.ok && (ok ==> rows == r.rows && rounds == r.rounds)
    ensures ok ==> nextPage == if rows == [] then None else Some(rows[|rows| - 1] + 1)
  {
    hide Drain, Passing, Sound;
    ghost var full := FindPage(it.table, it.cursor, want);
    rows, nextPage, rounds, ok := [], None, 0, true;
    while want == 0 || |rows| < want
      invariant it.Valid() && ok
      invariant !it.open ==>
                  var r := Drain(it.table, rows, it.cursor, it.limit, want);
                  full == r.(rounds := rounds + r.rounds)
      invariant it.open ==> |rows| < want && it.next == it.end && full == Drained(rows, it.end, rounds + 1, true)
      decreases if |rows| < want then want - |rows| else 0, !it.open
    {
      rounds := rounds + 1;
      if it.open {
        // the previous fetch is used up and nothing more was asked for
        var has := it.Next();
        assert !has;
        break;
      }
      var fetched, checked;
      ghost var before := rows;
      DrainRound(it.table, rows, it.cursor, it.limit, want);
      rows, fetched, checked, ok := DrainFetch(it, rows);
      if !ok {
        return;
      }
      if fetched == 0 || want == 0 || (0 < want && fetched < want) {
        break;
      }
      if checked > 0 {
        it.More(HowMuchMore(checked), it.next - 1);
      } else {
        assert rows == before;
      }
    }
    if !it.open {
      DrainDone(it.table, rows, it.cursor, it.limit, want);
    }
    if |rows| > 0 {
      nextPage := Some(rows[|rows| - 1] + 1);
    }
  }

  lemma DrainDone(d: Table, rows: seq<nat>, pos: nat, limit: nat, want: nat)
    requires pos <= |d| && want > 0 && |rows| >= want
    ensures Drain(d, rows, pos, limit, want) == Drained(rows, pos, 0, true)
  {
  }

  // ----- The record iterator of workflow loops -----

  /** wfexec.GenericResourceNextCheck (pkg/wfexec/iterator.go:102-115) */
  function NextCheck(useLimit: bool, ptr: nat, size: nat, total: nat, limit: nat, hasMore: bool): bool {
    if useLimit && ptr + total >= limit then false
    else if ptr < size then true
    else hasMore
  }

  /** A record and its index as the loop body sees them. */
  datatype Item = Item(record: nat, index: nat)

  class RecordSetIterator {
    const book: Book
    const useLimit: bool
    const limit: nat
    var ptr: nat
    var total: nat
    var buffer: seq<nat>
    // cursors of the filter, as page numbers
    var pageCursor: Option<nat>
    var nextPage: Option<nat>

    function Page(): nat
      reads this
    {
      if pageCursor.Some? then pageCursor.value else 0
    }

    ghost predicate Valid()
      reads this
    {
      && Proper(book) && Page() < |book.pages|
      && buffer == book.pages[Page()] && ptr <= |buffer|
      && total == |Flat(book.pages[..Page()])|
      && nextPage == NextOf(Page())
    }

    /** The cursor that comes with a page. */
    function NextOf(k: nat): Option<nat>
      requires k < |book.pages|
    {
      if book.pages[k] != [] && (k + 1 < |book.pages| || book.dangling) then Some(k + 1) else None
    }

    constructor (book: Book, useLimit: bool, limit: nat)
      requires Proper(book)
      ensures Valid() && ptr == 0 && total == 0 && pageCursor.None?
      ensures this.book == book && this.useLimit == useLimit && this.limit == limit
    {
      this.book, this.useLimit, this.limit := book, useLimit, limit;
      ptr, total, buffer, pageCursor, nextPage := 0, 0, [], None, None;
      new;
      Load();
      assert book.pages[..0] == [];
    }

    /** Loads the next page, unless a page was loaded already and none follows. */
    method Load()
      requires Proper(book)
      modifies this`ptr, this`total, this`buffer, this`pageCursor, this`nextPage
      ensures if old(pageCursor).Some? && old(nextPage).None? then
                ptr == old(ptr) && total == old(total) && buffer == old(buffer)
                && pageCursor == old(pageCursor) && nextPage == None
              else
                && ptr == 0 && total == old(total) + old(ptr) && pageCursor == old(nextPage)
                && (if Page() < |book.pages| then buffer == book.pages[Page()] && nextPage == NextOf(Page())
                    else buffer == [] && nextPage == None)
    {
      if pageCursor.Some? && nextPage.None? {
        return;
      }
      total := total + ptr;
      ptr := 0;
      pageCursor := nextPage;
      nextPage := None;
      var k := Page();
      buffer := [];
      if k < |book.pages| {
        buffer := book.pages[k];
        nextPage := NextOf(k);
      }
    }

    method More() returns (more: bool)
      ensures more == NextCheck(useLimit, ptr, |buffer|, total, limit, nextPage.Some?)
    {
      if useLimit && ptr + total >= limit {
        return false;
      }
      if ptr < |buffer| {
        return true;
      }
      return nextPage.Some?;
    }

    method Start()
      modifies this`ptr
      ensures ptr == 0
    {
      ptr := 0;
    }

    /** The next record; None is the panic of an access behind the buffer. */
    method Next() returns (item: Option<Item>)
      requires Valid()
      modifies this`ptr, this`total, this`buffer, this`pageCursor, this`nextPage
      ensures old(ptr) < old(|buffer|) ==>
                && item == Some(Item(old(buffer)[old(ptr)], old(total) + old(ptr)))
                && ptr == old(ptr) + 1 && total == old(total) && pageCursor == old(pageCursor) && Valid()
      ensures old(ptr) == old(|buffer|) && old(nextPage).Some? && old(Page()) + 1 < |book.pages| ==>
                && item == Some(Item(book.pages[old(Page()) + 1][0], old(total) + old(ptr)))
                && ptr == 1 && total == old(total) + old(ptr) && pageCursor == Some(old(Page()) + 1) && Valid()
      ensures old(ptr) == old(|buffer|) && old(pageCursor).Some?
              && (old(nextPage).None? || old(Page()) + 1 == |book.pages|)
              ==> item.None?
      ensures old(ptr) == old(|buffer|) && old(nextPage).Some? && old(Page()) + 1 == |book.pages| ==> item.None?
    {
      if |buffer| - ptr <= 0 {
        FlatNext(book.pages, Page());
        Load();
      }
      if ptr >= |buffer| {
        return None;
      }
      item := Some(Item(buffer[ptr], total + ptr));
      ptr := ptr + 1;
    }

    /** Drives the iterator like a workflow loop: until there is no more, or it panics. */
    method Drive() returns (items: seq<Item>, panicked: bool)
      requires Valid() && ptr == 0 && total == 0 && pageCursor.None?
      modifies this
      ensures var all := Cut(book, useLimit, limit);
              && |items| == |all|
              && forall i | 0 <= i < |all| :: items[i] == Item(all[i], i)
      ensures panicked <==> book.dangling && !(useLimit && limit <= |Flat(book.pages)|)
    {
      hide Flat;
      NoPages();
      Start();
      items, panicked := [], false;
      var more := More();
      assert book.pages[..0] == [];
      while more
        invariant Valid() && !panicked
        invariant more == NextCheck(useLimit, ptr, |buffer|, total, limit, nextPage.Some?)
        invariant |items| == total + ptr <= |Flat(book.pages)|
        invariant useLimit ==> |items| <= limit
        invariant forall i | 0 <= i < |items| :: items[i] == Item(Flat(book.pages)[i], i)
        decreases |Flat(book.pages)| - |items|
      {
        var all := Flat(book.pages);
        if ptr < |buffer| {
          FlatAt(book.pages, Page(), ptr);
        } else if Page() + 1 < |book.pages| {
          FlatNext(book.pages, Page());
          FlatAt(book.pages, Page() + 1, 0);
        } else {
          FlatEnd(book.pages);
        }
        var item := Next();
        if item.None? {
          panicked := true;
          return;
        }
        items := items + [item.value];
        more := More();
      }
      FlatRest(book.pages, Page());
      if Page() + 1 == |book.pages| {
        FlatEnd(book.pages);
      }
    }
  }

  lemma {:induction false} FlatAppend(a: seq<seq<nat>>, b: seq<seq<nat>>)
    ensures Flat(a + b) == Flat(a) + Flat(b)
  {
    if b == [] {
      assert a + b == a;
    } else {
      var k := |b| - 1;
      assert (a + b)[..|a| + k] == a + b[..k];
      FlatAppend(a, b[..k]);
    }
  }

  lemma FlatOne(page: seq<nat>)
    ensures Flat([page]) == page
  {
    assert [page][..0] == [];
  }

  lemma FlatNext(pages: seq<seq<nat>>, k: nat)
    requires k < |pages|
    ensures Flat(pages[..k + 1]) == Flat(pages[..k]) + pages[k]
  {
    assert pages[..k + 1] == pages[..k] + [pages[k]];
    FlatAppend(pages[..k], [pages[k]]);
    FlatOne(pages[k]);
  }

  // Where the i-th record of page k is in the flat list.
  lemma FlatAt(pages: seq<seq<nat>>, k: nat, i: nat)
    requires k < |pages| && i < |pages[k]|
    ensures var n := |Flat(pages[..k])| + i; n < |Flat(pages)| && Flat(pages)[n] == pages[k][i]
  {
    assert pages == pages[..k + 1] + pages[k + 1..];
    FlatAppend(pages[..k + 1], pages[k + 1..]);
    FlatNext(pages, k);
  }

  lemma FlatEnd(pages: seq<seq<nat>>)
    requires pages != []
    ensures Flat(pages) == Flat(pages[..|pages| - 1]) + pages[|pages| - 1]
  {
  }

  lemma FlatRest(pages: seq<seq<nat>>, k: nat)
    requires k < |pages|
    ensures |Flat(pages[..k])| + |pages[k]| <= |Flat(pages)|
  {
    assert pages == pages[..k + 1] + pages[k + 1..];
    FlatAppend(pages[..k + 1], pages[k + 1..]);
    FlatNext(pages, k);
  }

  /**
   The each iterator over any table: unless its first page fails, it yields the passing rows that its
   pages reach, each once, in order, with consecutive indexes and cut at the limit. It then panics,
   because the last page has a cursor although nothing follows or the next page fails, unless nothing
   was found or the limit stops it first.
   */
  method Each(d: Table, hasLimit: bool, limit: nat) returns (items: seq<Item>, panicked: bool, failed: bool)
    ensures failed <==> FailsAtOnce(d, hasLimit, limit)
    ensures failed ==> items == [] && !panicked
    ensures !failed ==>
              && |items| == |Yield(d, hasLimit, limit)|
              && (forall i | 0 <= i < |items| :: items[i] == Item(Yield(d, hasLimit, limit)[i], i))
              && (panicked <==> Panics(d, hasLimit, limit))
  {
    hide Flat, PagesFrom, PagesEnd, Passing, Sound, FindPage;
    var perPage := PageLimit(hasLimit, limit);
    var first := FindPage(d, 0, perPage);
    if !first.ok {
      return [], false, true;
    }
    failed := false;
    var book := BookOf(d, perPage);
    PagesArePrefix(d, 0, perPage);
    NoPages();
    assert Proper(book);
    assert Flat(book.pages) == Passing(d, 0, PagesEnd(d, 0, perPage));
    FlatRest(book.pages, 0);
    assert book.dangling <==> Flat(book.pages) != [];
    var it := new RecordSetIterator(book, hasLimit, limit);
    items, panicked := it.Drive();
  }
}
