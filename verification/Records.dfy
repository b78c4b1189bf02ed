/**
 Paged consumption of records: the drained pages of the record list
 (compose/dalutils/records.go:130-241 over store/adapters/rdbms/dal/iterator.go) and the iterator
 of workflow loops over them (compose/automation/records_handler.go:169-241, 380-400).

 Rows are the positions of a sorted table; a verdict says what checking a row gives.
 */
module Records {
  import opened WorkflowTypes

  /** `Broken` rows fail to scan or to check. */
  datatype Verdict = Pass | Reject | Broken

  type Table = seq<Verdict>

  const MIN_REFETCH: nat := 10
  const MAX_BUFFER: nat := 1000

  function Max(a: nat, b: nat): nat { if a < b then b else a }

  function Min(a: nat, b: nat): nat { if a < b then a else b }

  /** How many rows are asked for after `checked` rows passed: a fifth more, at least of ten. */
  function HowMuchMore(checked: nat): nat {
    Max(checked, MIN_REFETCH) * 6 / 5
  }

  /** Rows from a to b that pass, in order. */
  function Passing(d: Table, a: nat, b: nat): seq<nat>
    requires a <= b <= |d|
    decreases b
  {
    if a == b then [] else Passing(d, a, b - 1) + (if d[b - 1].Pass? then [b - 1] else [])
  }

  lemma {:induction false} PassingMeaning(d: Table, a: nat, b: nat)
    requires a <= b <= |d|
    ensures forall r :: r in Passing(d, a, b) <==> a <= r < b && d[r].Pass?
    ensures |Passing(d, a, b)| <= b - a
    decreases b
  {
    if a < b {
      PassingMeaning(d, a, b - 1);
      var before := Passing(d, a, b - 1);
      assert forall r :: r in Passing(d, a, b) <==> r in before || (r == b - 1 && d[r].Pass?);
    }
  }

  predicate Ascending(rows: seq<nat>) {
    forall i, j | 0 <= i < j < |rows| :: rows[i] < rows[j]
  }

  lemma {:induction false} PassingAscends(d: Table, a: nat, b: nat)
    requires a <= b <= |d|
    ensures Ascending(Passing(d, a, b))
    decreases b
  {
    if a < b {
      PassingAscends(d, a, b - 1);
      PassingMeaning(d, a, b - 1);
      var before := Passing(d, a, b - 1);
      assert forall i | 0 <= i < |before| :: before[i] in before;
    }
  }

  // Nothing passes behind the last passing row.
  lemma {:induction false} PassingUpToLast(d: Table, a: nat, b: nat)
    requires a <= b <= |d| && Passing(d, a, b) != []
    ensures var rows := Passing(d, a, b);
            var next := rows[|rows| - 1] + 1;
            a < next <= b && rows == Passing(d, a, next)
    decreases b
  {
    if !d[b - 1].Pass? {
      PassingUpToLast(d, a, b - 1);
    }
  }

  lemma {:induction false} PassingSplit(d: Table, a: nat, m: nat, b: nat)
    requires a <= m <= b <= |d|
    ensures Passing(d, a, b) == Passing(d, a, m) + Passing(d, m, b)
    decreases b
  {
    if m < b {
      PassingSplit(d, a, m, b - 1);
    }
  }

  /** End of a fetch from a position; limit zero fetches everything. */
  function FetchEnd(d: Table, pos: nat, limit: nat): (r: nat)
    requires pos <= |d|
    ensures pos <= r <= |d|
  {
    if limit == 0 then |d| else Min(pos + limit, |d|)
  }

  predicate Sound(d: Table, a: nat, b: nat)
    requires a <= b <= |d|
  {
    forall r | a <= r < b :: !d[r].Broken?
  }

  /** Rows collected, how far the table was scanned, and in how many rounds; ok unless broken. */
  datatype Drained = Drained(rows: seq<nat>, end: nat, rounds: nat, ok: bool)

  /** The rounds of a drain that wants `want` rows and fetches `limit` in this round. */
  function Drain(d: Table, rows: seq<nat>, pos: nat, limit: nat, want: nat): (r: Drained)
    requires pos <= |d|
    ensures pos <= r.end <= |d|
    decreases if |rows| < want then want - |rows| else 0
  {
    if want > 0 && |rows| >= want then Drained(rows, pos, 0, true)
    else
      var end := FetchEnd(d, pos, limit);
      if !Sound(d, pos, end) then Drained(rows, pos, 1, false)
      else
        var found := Passing(d, pos, end);
        var all := rows + found;
        if end == pos || want == 0 || end - pos < want then Drained(all, end, 1, true)
        else if found == [] then Drained(all, end, 2, true)
        else
          var r := Drain(d, all, end, HowMuchMore(|found|), want);
          r.(rounds := r.rounds + 1)
  }

  /**
   A successful drain returns exactly the scanned rows that pass, in order; the number of rounds
   is bounded by the number of rows still wanted, not by the table.
   */
  lemma {:induction false} DrainReturnsScannedPassing(d: Table, rows: seq<nat>, pos: nat, limit: nat, want: nat)
    requires pos <= |d|
    ensures var r := Drain(d, rows, pos, limit, want);
            && (r.ok ==> r.rows == rows + Passing(d, pos, r.end) && Sound(d, pos, r.end))
            && r.rounds <= 2 + (if |rows| < want then want - |rows| else 0)
    decreases if |rows| < want then want - |rows| else 0
  {
    if !(want > 0 && |rows| >= want) {
      var end := FetchEnd(d, pos, limit);
      if Sound(d, pos, end) {
        var found := Passing(d, pos, end);
        if !(end == pos || want == 0 || end - pos < want) && found != [] {
          DrainReturnsScannedPassing(d, rows + found, end, HowMuchMore(|found|), want);
          var r := Drain(d, rows + found, end, HowMuchMore(|found|), want);
          PassingSplit(d, pos, end, r.end);
        }
      }
    }
  }

  // The outcomes of a single round.
  lemma DrainRound(d: Table, rows: seq<nat>, pos: nat, limit: nat, want: nat)
    requires pos <= |d| && !(want > 0 && |rows| >= want)
    ensures var end := FetchEnd(d, pos, limit);
            var r := Drain(d, rows, pos, limit, want);
            if !Sound(d, pos, end) then r == Drained(rows, pos, 1, false)
            else
              var found := Passing(d, pos, end);
              if end == pos || want == 0 || end - pos < want then r == Drained(rows + found, end, 1, true)
              else if found == [] then r == Drained(rows + found, end, 2, true)
              else
                var rest := Drain(d, rows + found, end, HowMuchMore(|found|), want);
                r == rest.(rounds := rest.rounds + 1)
  {
  }

  /** What one refetch may add to fewer than `want` rows. */
  function Overshoot(want: nat): nat
    requires want > 0
  {
    HowMuchMore(Max(want - 1, MIN_REFETCH))
  }

  lemma {:induction false} DrainSize(d: Table, rows: seq<nat>, pos: nat, limit: nat, want: nat)
    requires pos <= |d| && want > 0 && limit > 0
    requires |rows| < want ==> limit <= Max(want, Overshoot(want))
    requires |rows| <= want - 1 + Overshoot(want)
    requires rows == [] || limit <= Overshoot(want)
    ensures |Drain(d, rows, pos, limit, want).rows| <= want - 1 + Overshoot(want)
    decreases if |rows| < want then want - |rows| else 0
  {
    if |rows| < want {
      var end := FetchEnd(d, pos, limit);
      if Sound(d, pos, end) {
        var found := Passing(d, pos, end);
        PassingMeaning(d, pos, end);
        if !(end == pos || end - pos < want) && found != [] {
          if |rows + found| < want {
            assert HowMuchMore(|found|) <= Overshoot(want);
          }
          DrainSizeStep(d, rows, found, end, want);
        }
      }
    }
  }

  lemma DrainSizeStep(d: Table, rows: seq<nat>, found: seq<nat>, end: nat, want: nat)
    requires end <= |d| && want > 0 && found != []
    requires |rows| < want && |rows + found| <= want - 1 + Overshoot(want)
    ensures |Drain(d, rows + found, end, HowMuchMore(|found|), want).rows| <= want - 1 + Overshoot(want)
    decreases want - |rows|, 0
  {
    if |rows + found| < want {
      DrainSize(d, rows + found, end, HowMuchMore(|found|), want);
    }
  }

  /** The page that Find returns from a position: limit rows are wanted and fetched first. */
  function FindPage(d: Table, pos: nat, limit: nat): Drained
    requires pos <= |d|
  {
    Drain(d, [], pos, limit, limit)
  }

  /** A page may exceed its limit, by at most one refetch. */
  lemma PageSize(d: Table, pos: nat, limit: nat)
    requires pos <= |d| && limit > 0
    ensures |FindPage(d, pos, limit).rows| <= limit - 1 + (if limit - 1 < 10 then 10 else limit - 1) * 6 / 5
  {
    DrainSize(d, [], pos, limit, limit);
  }

  /** A page is empty exactly when nothing passes in the first fetch. */
  lemma EmptyPage(d: Table, pos: nat, limit: nat)
    requires pos <= |d|
    ensures var r := FindPage(d, pos, limit);
            r.ok ==> (r.rows == [] <==> Passing(d, pos, FetchEnd(d, pos, limit)) == [])
    ensures Sound(d, pos, |d|) ==> FindPage(d, pos, limit).ok
  {
    if Sound(d, pos, |d|) {
      SoundDrainIsOk(d, [], pos, limit, limit);
    }
    var end := FetchEnd(d, pos, limit);
    var found := Passing(d, pos, end);
    assert [] + found == found;
    if Sound(d, pos, end) && found != [] && !(end == pos || limit == 0 || end - pos < limit) {
      DrainReturnsScannedPassing(d, found, end, HowMuchMore(|found|), limit);
    }
  }

  lemma {:induction false} SoundDrainIsOk(d: Table, rows: seq<nat>, pos: nat, limit: nat, want: nat)
    requires pos <= |d| && Sound(d, pos, |d|)
    ensures Drain(d, rows, pos, limit, want).ok
    decreases if |rows| < want then want - |rows| else 0
  {
    if !(want > 0 && |rows| >= want) {
      var end := FetchEnd(d, pos, limit);
      var found := Passing(d, pos, end);
      if !(end == pos || want == 0 || end - pos < want) && found != [] {
        SoundDrainIsOk(d, rows + found, end, HowMuchMore(|found|), want);
      }
    }
  }

  // ----- Pages -----

  /**
   The pages behind a record iterator. After the last one there may be a dangling cursor, to a
   page without rows.
   */
  datatype Book = Book(pages: seq<seq<nat>>, dangling: bool)

  predicate Proper(b: Book) {
    && b.pages != []
    && (forall k | 0 < k < |b.pages| :: b.pages[k] != [])
    && (b.pages[0] == [] ==> |b.pages| == 1 && !b.dangling)
  }

  function Flat(pages: seq<seq<nat>>): seq<nat> {
    if pages == [] then [] else Flat(pages[..|pages| - 1]) + pages[|pages| - 1]
  }

  /** What an iterator over a book should yield. */
  function Cut(b: Book, useLimit: bool, limit: nat): seq<nat> {
    var all := Flat(b.pages);
    if useLimit && limit < |all| then all[..limit] else all
  }

  /** The record handler's limit per page. */
  function PageLimit(hasLimit: bool, limit: nat): nat {
    if hasLimit then Min(limit, MAX_BUFFER) else MAX_BUFFER
  }

  /**
   The pages of a table from a position: each next page starts behind the last row of the page
   before. The cursor behind the last row is always set, whether or not rows follow. A page without
   rows is the last one, and so is the one before a page that fails.
   */
  function PagesFrom(d: Table, pos: nat, limit: nat): (r: seq<seq<nat>>)
    requires pos <= |d|
    decreases |d| - pos
  {
    var page := FindPage(d, pos, limit);
    if !page.ok || page.rows == [] then []
    else
      NextCursor(d, pos, limit);
      [page.rows] + PagesFrom(d, page.rows[|page.rows| - 1] + 1, limit)
  }

  function BookOf(d: Table, limit: nat): Book {
    var pages := PagesFrom(d, 0, limit);
    if pages == [] then Book([[]], false) else Book(pages, true)
  }

  /** The position behind the last page. */
  function PagesEnd(d: Table, pos: nat, limit: nat): (r: nat)
    requires pos <= |d|
    ensures pos <= r <= |d|
    decreases |d| - pos
  {
    var page := FindPage(d, pos, limit);
    if !page.ok || page.rows == [] then pos
    else
      NextCursor(d, pos, limit);
      PagesEnd(d, page.rows[|page.rows| - 1] + 1, limit)
  }

  // A page ends where its last row is, as far as passing rows go.
  lemma NextCursor(d: Table, pos: nat, limit: nat)
    requires pos <= |d| && FindPage(d, pos, limit).ok && FindPage(d, pos, limit).rows != []
    ensures var rows := FindPage(d, pos, limit).rows;
            var next := rows[|rows| - 1] + 1;
            pos < next <= |d| && rows == Passing(d, pos, next)
  {
    hide Drain, Passing;
    DrainReturnsScannedPassing(d, [], pos, limit, limit);
    PassingUpToLast(d, pos, FindPage(d, pos, limit).end);
  }

  lemma {:induction false} FlatCons(page: seq<nat>, pages: seq<seq<nat>>)
    ensures Flat([page] + pages) == page + Flat(pages)
  {
    if pages == [] {
      assert [page] + pages == [page] && [page][..0] == [];
    } else {
      var k := |pages| - 1;
      assert ([page] + pages)[..k + 1] == [page] + pages[..k];
      FlatCons(page, pages[..k]);
    }
  }

  /**
   The pages of a table together are its passing rows, each once and in order, up to a position
   where the next page fails, or behind which nothing passes in the next fetch.
   */
  lemma {:induction false} PagesArePrefix(d: Table, pos: nat, limit: nat)
    requires pos <= |d|
    ensures var q := PagesEnd(d, pos, limit);
            && pos <= q <= |d|
            && Flat(PagesFrom(d, pos, limit)) == Passing(d, pos, q)
            && (FindPage(d, q, limit).ok ==> Passing(d, q, FetchEnd(d, q, limit)) == [])
            && (forall k | 0 <= k < |PagesFrom(d, pos, limit)| :: PagesFrom(d, pos, limit)[k] != [])
            && Ascending(Flat(PagesFrom(d, pos, limit)))
    decreases |d| - pos
  {
    hide FindPage, Drain, Flat, Passing, Ascending;
    var page := FindPage(d, pos, limit);
    var rows := page.rows;
    EmptyPage(d, pos, limit);
    PassingAscends(d, pos, PagesEnd(d, pos, limit));
    if !page.ok || rows == [] {
      NoPages();
      NoRows(d, pos);
    } else {
      NextCursor(d, pos, limit);
      var next := rows[|rows| - 1] + 1;
      PagesArePrefix(d, next, limit);
      FlatCons(rows, PagesFrom(d, next, limit));
      PassingSplit(d, pos, next, PagesEnd(d, pos, limit));
    }
  }

  lemma NoRows(d: Table, pos: nat)
    requires pos <= |d|
    ensures Passing(d, pos, pos) == []
  {
  }

  lemma NoPages()
    ensures Flat([]) == [] && Flat([[]]) == []
  {
    var none: seq<nat> := [];
    assert [none][..0] == [];
  }

  /** Where pages start: at the beginning and behind passing rows. */
  predicate CursorAt(d: Table, pos: nat) {
    pos <= |d| && (pos == 0 || d[pos - 1].Pass?)
  }

  /** A page as long as `limit` has no passing row, and a passing row comes later. */
  predicate Stops(d: Table, pos: nat, limit: nat)
    requires pos <= |d|
  {
    limit > 0 && pos + limit <= |d| && Passing(d, pos, pos + limit) == [] && Passing(d, pos + limit, |d|) != []
  }

  predicate Complete(d: Table, pos: nat, limit: nat)
    requires pos <= |d| && Sound(d, pos, |d|)
  {
    Flat(PagesFrom(d, pos, limit)) == Passing(d, pos, |d|)
  }

  lemma {:induction false} PagesEndAtCursor(d: Table, pos: nat, limit: nat)
    requires CursorAt(d, pos)
    ensures CursorAt(d, PagesEnd(d, pos, limit))
    decreases |d| - pos
  {
    hide FindPage;
    var rows := FindPage(d, pos, limit).rows;
    if FindPage(d, pos, limit).ok && rows != [] {
      NextCursor(d, pos, limit);
      var next := rows[|rows| - 1] + 1;
      PassingMeaning(d, pos, next);
      assert rows[|rows| - 1] in rows;
      PagesEndAtCursor(d, next, limit);
    }
  }

  /** From one position the pages are complete if and only if they do not end where a later row is missed. */
  lemma CompleteIffNotStopped(d: Table, pos: nat, limit: nat)
    requires pos <= |d| && Sound(d, pos, |d|)
    ensures Complete(d, pos, limit) <==> !Stops(d, PagesEnd(d, pos, limit), limit)
  {
    hide FindPage, PagesFrom, PagesEnd, Flat, Passing;
    PagesArePrefix(d, pos, limit);
    var q := PagesEnd(d, pos, limit);
    EmptyPage(d, q, limit);
    var end := FetchEnd(d, q, limit);
    PassingSplit(d, pos, q, |d|);
    PassingSplit(d, q, end, |d|);
    NoRows(d, |d|);
  }

  /**
   The pages from all cursors hold all passing rows behind them if and only if behind no cursor a
   page without passing rows is followed by a passing row.
   */
  lemma PagesAreComplete(d: Table, limit: nat)
    requires Sound(d, 0, |d|)
    ensures (forall pos | 0 <= pos <= |d| && CursorAt(d, pos) :: Complete(d, pos, limit)) <==>
            (forall pos | 0 <= pos <= |d| && CursorAt(d, pos) :: !Stops(d, pos, limit))
  {
    hide PagesFrom, Flat, Passing;
    forall pos | 0 <= pos <= |d| && CursorAt(d, pos)
      ensures Stops(d, pos, limit) ==> !Complete(d, pos, limit)
      ensures !Complete(d, pos, limit) ==>
                CursorAt(d, PagesEnd(d, pos, limit)) && Stops(d, PagesEnd(d, pos, limit), limit)
    {
      CompleteIffNotStopped(d, pos, limit);
      PagesEndAtCursor(d, pos, limit);
      EmptyPage(d, pos, limit);
    }
  }

  /** A page of two misses the third row: the first two are rejected and reading stops. */
  lemma RejectedPageHidesRow()
    ensures var d := [Reject, Reject, Pass];
            && Sound(d, 0, 3) && Flat(BookOf(d, 2).pages) == [] && Passing(d, 0, 3) == [2]
            && !Complete(d, 0, 2) && Stops(d, 0, 2)
  {
    var d := [Reject, Reject, Pass];
    assert Passing(d, 0, 0) == [] && Passing(d, 0, 1) == [] && Passing(d, 0, 2) == [];
    assert Passing(d, 2, 2) == [] && Passing(d, 2, 3) == [2];
    EmptyPage(d, 0, 2);
    assert PagesEnd(d, 0, 2) == 0;
    CompleteIffNotStopped(d, 0, 2);
    NoPages();
  }

  // ----- Pages in closed form -----

  /** Without a limit a page is everything that passes. */
  lemma PageWithoutLimit(d: Table, pos: nat)
    requires pos <= |d|
    ensures FindPage(d, pos, 0).ok <==> forall r | pos <= r < |d| :: !d[r].Broken?
    ensures FindPage(d, pos, 0).ok ==> FindPage(d, pos, 0).rows == Passing(d, pos, |d|)
  {
    assert [] + Passing(d, pos, |d|) == Passing(d, pos, |d|);
  }

  /** A first fetch that is short, full or without passing rows is the page. */
  lemma PageOfOneFetch(d: Table, pos: nat, limit: nat)
    requires pos <= |d| && limit > 0
    requires var end := if pos + limit < |d| then pos + limit else |d|;
             && (forall r | pos <= r < end :: !d[r].Broken?)
             && (end < pos + limit || |Passing(d, pos, end)| in {0, limit})
    ensures var end := if pos + limit < |d| then pos + limit else |d|;
            FindPage(d, pos, limit).ok && FindPage(d, pos, limit).rows == Passing(d, pos, end)
  {
    var end := FetchEnd(d, pos, limit);
    DrainRound(d, [], pos, limit, limit);
    assert [] + Passing(d, pos, end) == Passing(d, pos, end);
  }

  /**
   A full first fetch in which some rows pass, but not all, is followed by a second one, for a fifth more
   rows than passed and at least twelve. If that is less than the limit the two are the page, even if it
   is short and more rows follow.
   */
  lemma PageOfTwoFetches(d: Table, pos: nat, limit: nat)
    requires pos + limit <= |d| && 0 < |Passing(d, pos, pos + limit)| < limit
    requires var passed := |Passing(d, pos, pos + limit)|;
             var more := if passed < 10 then 12 else passed * 6 / 5;
             var end := if pos + limit + more < |d| then pos + limit + more else |d|;
             more < limit && forall r | pos <= r < end :: !d[r].Broken?
    ensures var passed := |Passing(d, pos, pos + limit)|;
            var more := if passed < 10 then 12 else passed * 6 / 5;
            var end := if pos + limit + more < |d| then pos + limit + more else |d|;
            FindPage(d, pos, limit) == Drained(Passing(d, pos, end), end, 2, true)
  {
    hide Passing, Drain;
    var first, mid := Passing(d, pos, pos + limit), pos + limit;
    var more := HowMuchMore(|first|);
    LastFetch(d, first, mid, more, limit);
    PassingSplit(d, pos, mid, FetchEnd(d, mid, more));
    DrainRound(d, [], pos, limit, limit);
    assert [] + first == first;
  }

  // A fetch for less than is wanted is the last one.
  lemma LastFetch(d: Table, rows: seq<nat>, pos: nat, limit: nat, want: nat)
    requires pos <= |d| && 0 < limit < want && |rows| < want && Sound(d, pos, FetchEnd(d, pos, limit))
    ensures var end := FetchEnd(d, pos, limit);
            Drain(d, rows, pos, limit, want) == Drained(rows + Passing(d, pos, end), end, 1, true)
  {
    hide Passing;
    DrainRound(d, rows, pos, limit, want);
  }

  // ----- The loop over all pages -----

  /** The records that the loop reaches. */
  function Yield(d: Table, hasLimit: bool, limit: nat): seq<nat> {
    var reached := Passing(d, 0, PagesEnd(d, 0, PageLimit(hasLimit, limit)));
    if hasLimit && limit < |reached| then reached[..limit] else reached
  }

  /** Loading the first page fails, and there is no loop at all. */
  predicate FailsAtOnce(d: Table, hasLimit: bool, limit: nat) {
    !FindPage(d, 0, PageLimit(hasLimit, limit)).ok
  }

  /**
   The loop panics behind its last record: the cursor there leads to a page without records or to one
   that fails. It does not if there is no record, or the limit stops it first.
   */
  predicate Panics(d: Table, hasLimit: bool, limit: nat) {
    var n := |Passing(d, 0, PagesEnd(d, 0, PageLimit(hasLimit, limit)))|;
    n > 0 && !(hasLimit && limit <= n)
  }

  /**
   On a table without broken rows, where no page of up to 1000, or up to the limit if that is less, hides
   passing rows, the loop yields all passing rows of the table in order, cut at the limit.
   */
  lemma YieldsAllPassing(d: Table, hasLimit: bool, limit: nat)
    requires forall r | 0 <= r < |d| :: !d[r].Broken?
    requires var size := if hasLimit && limit < 1000 then limit else 1000;
             forall pos | 0 <= pos <= |d| && CursorAt(d, pos) :: !Stops(d, pos, size)
    ensures !FailsAtOnce(d, hasLimit, limit)
    ensures var all := Passing(d, 0, |d|);
            && Yield(d, hasLimit, limit) <= all
            && |Yield(d, hasLimit, limit)| == if hasLimit && limit < |all| then limit else |all|
  {
    hide FindPage, PagesFrom, PagesEnd, Flat, Passing;
    var size := PageLimit(hasLimit, limit);
    assert size == if hasLimit && limit < 1000 then limit else 1000;
    EmptyPage(d, 0, size);
    PagesEndAtCursor(d, 0, size);
    CompleteIffNotStopped(d, 0, size);
    PagesArePrefix(d, 0, size);
  }

  /** The loop over a single record yields it and panics. */
  lemma LoneRecordPanics()
    ensures Yield([Pass], false, 0) == [0] && !FailsAtOnce([Pass], false, 0) && Panics([Pass], false, 0)
  {
    var d := [Pass];
    assert Passing(d, 0, 0) == [] && Passing(d, 0, 1) == [0];
    assert Passing(d, 1, 1) == [];
    DrainRound(d, [], 0, MAX_BUFFER, MAX_BUFFER);
    DrainRound(d, [], 1, MAX_BUFFER, MAX_BUFFER);
    hide Drain, Passing, PagesFrom;
    assert [] + [0] == [0];
    assert FindPage(d, 0, MAX_BUFFER) == Drained([0], 1, 1, true);
    assert FindPage(d, 1, MAX_BUFFER).rows == [];
    assert PagesEnd(d, 1, MAX_BUFFER) == 1;
    assert PagesEnd(d, 0, MAX_BUFFER) == 1;
  }

  /** A broken row behind the pages read so far ends the loop in a panic, after the records before. */
  lemma BrokenRowPanics()
    ensures var d := [Pass, Pass, Broken];
            && FindPage(d, 0, 1).ok && PagesEnd(d, 0, 1) == 2 && !FindPage(d, 2, 1).ok
            && Flat(PagesFrom(d, 0, 1)) == [0, 1]
  {
    var d := [Pass, Pass, Broken];
    assert Passing(d, 0, 0) == [] && Passing(d, 0, 1) == [0] && Passing(d, 0, 2) == [0, 1];
    assert Passing(d, 1, 1) == [] && Passing(d, 1, 2) == [1];
    assert Passing(d, 2, 2) == [];
    OneRowPage(d, 0);
    OneRowPage(d, 1);
    assert FetchEnd(d, 2, 1) == 3 && !Sound(d, 2, 3) by {
      assert d[2].Broken?;
    }
    assert PagesEnd(d, 2, 1) == 2;
    assert PagesEnd(d, 1, 1) == 2;
    assert PagesEnd(d, 0, 1) == 2;
    PagesArePrefix(d, 0, 1);
  }

  // A page of one at a passing row is that row.
  lemma OneRowPage(d: Table, pos: nat)
    requires pos < |d| && d[pos].Pass?
    ensures FindPage(d, pos, 1) == Drained([pos], pos + 1, 1, true)
  {
    assert FetchEnd(d, pos, 1) == pos + 1 && Sound(d, pos, pos + 1);
    assert Passing(d, pos, pos) == [] && Passing(d, pos, pos + 1) == [pos];
    DrainRound(d, [], pos, 1, 1);
    assert [] + [pos] == [pos];
    assert Drain(d, [pos], pos + 1, HowMuchMore(1), 1) == Drained([pos], pos + 1, 0, true);
  }
}
