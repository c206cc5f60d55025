/** The paging cursor of a table: the index of the first record shown. A page length of -1 shows
    all records. */
module Paging {
  import opened Arithmetic

  datatype Action = First | Previous | Next | Last | Jump(page: int) | Unknown

  predicate PageLength(len: int) { len == -1 || len > 0 }

  // fnDisplayEnd with pagination on: the end of the window of records shown.
  function DisplayEnd(start: int, len: int, records: nat): int {
    if start + len > records || len == -1 then records else start + len
  }

  // _fnLengthOverflow: back up if there is nothing to show, then align to a page.
  function LengthOverflow(start: int, len: int, records: nat): int
    requires PageLength(len)
  {
    var end := DisplayEnd(start, len, records);
    var s := if start >= end then end - len else start;
    var aligned := s - Rem(s, if len < 0 then -len else len);
    if len == -1 || aligned < 0 then 0 else aligned
  }

  function PageChange(start: int, len: int, records: nat, action: Action): int
    requires PageLength(len)
  {
    if records == 0 || len == -1 then 0
    else match action
      case Jump(page) => if page * len > records then 0 else page * len
      case First => 0
      case Previous =>
        var s := if len >= 0 then start - len else 0;
        if s < 0 then 0 else s
      case Next => if start + len < records then start + len else start
      case Last => (records - 1) / len * len
      case Unknown => start
  }

  // The cursor is at the beginning of a page that has records, or at 0.
  predicate OnPage(start: int, len: int, records: nat) {
    0 <= start && (start < records || start == 0) && (len > 0 ==> start % len == 0) && (len == -1 ==> start == 0)
  }

  // A jump to a page that exists.
  predicate InRange(page: int, len: int, records: nat) {
    records == 0 || len == -1 || (0 <= page && page * len != records)
  }

  lemma Multiples(start: int, len: int)
    requires len > 0 && start % len == 0
    ensures (start + len) % len == 0 && (start - len) % len == 0
    ensures start == start / len * len
  {
    var k := start / len;
    assert start == k * len && start + len == (k + 1) * len && start - len == (k - 1) * len;
    MultipleOf(k + 1, len);
    MultipleOf(k - 1, len);
  }

  // Every change of page, jumps included, keeps the cursor on a page; a jump fails to exactly when
  // its page is negative or starts right behind the last record.
  lemma PageChangeKeeps(start: int, len: int, records: nat, action: Action)
    requires PageLength(len) && OnPage(start, len, records)
    ensures OnPage(PageChange(start, len, records, action), len, records) <==>
      (action.Jump? ==> InRange(action.page, len, records))
  {
    if records > 0 && len > 0 {
      match action
      case Jump(page) => JumpKeeps(len, records, page);
      case Last => FloorMultiple(records - 1, len);
      case _ => Multiples(start, len);
    }
  }

  lemma JumpKeeps(len: int, records: nat, page: int)
    requires len > 0 && records > 0
    ensures OnPage(PageChange(0, len, records, Jump(page)), len, records) <==> InRange(page, len, records)
    ensures forall start :: PageChange(start, len, records, Jump(page)) == PageChange(0, len, records, Jump(page))
  {
    MultipleOf(page, len);
    ProductSign(page, len);
  }

  // Whatever the cursor was, changing the length or losing records puts it on a page.
  lemma OverflowEstablishes(start: int, len: int, records: nat)
    requires PageLength(len)
    ensures OnPage(LengthOverflow(start, len, records), len, records)
  {
    if len > 0 {
      var end := DisplayEnd(start, len, records);
      var s := if start >= end then end - len else start;
      if s >= 0 { FloorMultiple(s, len); } else { FloorMultiple(-s, len); }
    }
  }

  // An overflow that is none leaves the cursor where it is.
  lemma OverflowKeeps(start: int, len: int, records: nat)
    requires PageLength(len) && OnPage(start, len, records)
    ensures LengthOverflow(start, len, records) == start
  {
  }

  // Where an overflow puts the cursor: at the page it lies in, or, if there is no record left there, at
  // the last page that is full, or at 0 without such a page.
  predicate BackedUp(start: int, len: int, records: nat, r: int) {
    if len == -1 || start < 0 then r == 0
    else if start < records then r <= start < r + len
    else if records < len then r == 0
    else r + len <= records < r + 2 * len
  }

  lemma OverflowIs(start: int, len: int, records: nat)
    requires PageLength(len)
    ensures BackedUp(start, len, records, LengthOverflow(start, len, records))
  {
    if len > 0 {
      var s := if start >= DisplayEnd(start, len, records) then records - len else start;
      if s >= 0 { FloorMultiple(s, len); } else { FloorMultiple(-s, len); }
    }
  }

  // Which page each change goes to, from a page with records: the window of the previous page ends where
  // the present one starts, that of the next starts where it ends, and the last ends with the records.
  lemma PageTargets(start: int, len: int, records: nat, action: Action)
    requires len > 0 && records > 0 && OnPage(start, len, records)
    ensures var r := PageChange(start, len, records, action);
      match action
      case First => r == 0
      case Previous => if start == 0 then r == 0 else 0 <= r && DisplayEnd(r, len, records) == start == r + len
      case Next => if DisplayEnd(start, len, records) < records then r == DisplayEnd(start, len, records) else r == start
      case Last => r < records && DisplayEnd(r, len, records) == records && OnPage(r, len, records)
      case Jump(page) => r == if page * len <= records then page * len else 0
      case Unknown => r == start
  {
    if action.Last? { FloorMultiple(records - 1, len); }
    if action.Previous? && start > 0 {
      Multiples(start, len);
      FloorMultiple(start, len);
      var k := start / len;
      assert start == k * len;
      ProductSign(k - 1, len);
    }
  }

  // Going on and back again.
  lemma NextPrevious(start: int, len: int, records: nat)
    requires PageLength(len) && OnPage(start, len, records)
    ensures var r := PageChange(start, len, records, Next); r != start ==> PageChange(r, len, records, Previous) == start
  {
  }

  datatype Event = Change(action: Action) | SetLength(len: int) | Removed(stillShown: nat)

  datatype Cursor = Cursor(start: int, len: int, records: nat)

  // What a listed event does to the cursor; removing a row leaves as many records or one less.
  function After(c: Cursor, e: Event): Cursor
    requires PageLength(c.len) && (e.SetLength? ==> PageLength(e.len))
  {
    match e
    case Change(action) => c.(start := PageChange(c.start, c.len, c.records, action))
    case SetLength(len) => Cursor(LengthOverflow(c.start, len, c.records), len, c.records)
    case Removed(n) => Cursor(LengthOverflow(c.start, c.len, n), c.len, n)
  }

  predicate Allowed(c: Cursor, e: Event) {
    match e
    case Change(action) => action.Jump? ==> InRange(action.page, c.len, c.records)
    case SetLength(len) => PageLength(len)
    case Removed(n) => n == c.records || n + 1 == c.records
  }

  predicate Run(cs: seq<Cursor>, es: seq<Event>) {
    |cs| == |es| + 1 && cs[0].start == 0 && PageLength(cs[0].len) &&
    forall i :: 0 <= i < |es| ==>
      PageLength(cs[i].len) && Allowed(cs[i], es[i]) && cs[i + 1] == After(cs[i], es[i])
  }

  // From position 0, no run of page changes, length changes and removals leaves the pages.
  lemma {:induction false} RunsStayOnPage(cs: seq<Cursor>, es: seq<Event>, i: nat)
    requires Run(cs, es) && i < |cs|
    ensures PageLength(cs[i].len) && OnPage(cs[i].start, cs[i].len, cs[i].records)
  {
    if i > 0 {
      RunsStayOnPage(cs, es, i - 1);
      var c, e := cs[i - 1], es[i - 1];
      assert Allowed(c, e) && cs[i] == After(c, e);
      match e
      case Change(action) => PageChangeKeeps(c.start, c.len, c.records, action);
      case SetLength(len) => OverflowEstablishes(c.start, len, c.records);
      case Removed(n) => OverflowEstablishes(c.start, c.len, n);
    }
  }

  // Walking next from the first page until nothing changes.
  function Walk<T>(start: nat, len: int, records: seq<T>): (windows: seq<seq<T>>)
    requires PageLength(len) && start <= DisplayEnd(start, len, |records|)
    decreases |records| - start
  {
    var window := records[start..DisplayEnd(start, len, |records|)];
    var next := PageChange(start, len, |records|, Next);
    if next == start || next < start then [window] else [window] + Walk(next, len, records)
  }

  function Flatten<T>(windows: seq<seq<T>>): seq<T> {
    if windows == [] then [] else windows[0] + Flatten(windows[1..])
  }

  function WalkEnd(start: nat, len: int, records: nat): int
    requires PageLength(len)
    decreases records - start
  {
    var next := PageChange(start, len, records, Next);
    if next <= start then start else WalkEnd(next, len, records)
  }

  // The windows of the walk are the records from its start on, each once and in order, and the
  // walk ends where last goes.
  lemma {:induction false} WalkCovers<T>(start: nat, len: int, records: seq<T>)
    requires PageLength(len) && OnPage(start, len, |records|)
    ensures start <= DisplayEnd(start, len, |records|)
    ensures Flatten(Walk(start, len, records)) == records[start..]
    ensures WalkEnd(start, len, |records|) == PageChange(start, len, |records|, Last)
    decreases |records| - start
  {
    var next := PageChange(start, len, |records|, Next);
    if next > start {
      PageChangeKeeps(start, len, |records|, Next);
      WalkCovers(next, len, records);
      assert records[start..] == records[start..next] + records[next..];
    } else if len > 0 && |records| > 0 {
      LastPage(start, len, |records|);
    }
  }

  lemma LastPage(start: nat, len: int, records: nat)
    requires len > 0 && start % len == 0 && start < records <= start + len
    ensures (records - 1) / len * len == start
  {
    var k := start / len;
    Commutes(k, len);
    assert start == len * k + start % len;
    DivUnique(records - 1, len, k, records - 1 - start);
  }
}
