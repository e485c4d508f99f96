/** The read side of the chat list: filters, the plain list and the keyset pages over store order. */
module ChatCatalog {
  import opened Wrappers
  import opened Decimal
  import opened Sublists
  import opened ParentGraph
  import opened ChatTree
  import opened ChatListDelta
  import opened ChatListClient

  datatype ArchiveFilter = Include | Exclude | Only | TreeFilter

  datatype CatalogError = InvalidArgument | StaleCursor

  /** One immutable view of the chat list. */
  datatype Catalog = Catalog(rows: seq<Row>, revision: string, matcher: (ScopeFields, Scope) -> bool)

  datatype Query = Query(scope: Scope, archived: ArchiveFilter)

  /** A page and the store position of the first row after it. The position travels as a cursor that is
      bound to the revision. */
  datatype Page = Page(items: seq<Row>, next: Option<nat>) {
    function NextCursor(revision: string): Option<string> {
      if next.Some? then Some(EncodeCursor(next.value, revision)) else None
    }
  }

  const PAGE_DEFAULT_LIMIT := 100
  const PAGE_MAX_LIMIT := 500

  // ---- Filters ------------------------------------------------------------------------------

  function AsChat(row: Row): Chat {
    Chat(row.scope.id, row.forkParentChatId, row.archivedAt)
  }

  function AsChats(rows: seq<Row>): (chats: seq<Chat>)
    ensures |chats| == |rows|
  {
    seq(|rows|, i requires 0 <= i < |rows| => AsChat(rows[i]))
  }

  /** Rows that satisfy `want`, in store order. */
  function Select(rows: seq<Row>, want: Row -> bool): seq<Row> {
    if rows == [] then []
    else
      var last := rows[|rows| - 1];
      Select(rows[..|rows| - 1], want) + if want(last) then [last] else []
  }

  predicate HasScope(scope: Scope) {
    scope.workspaceFolder != "" || scope.workspaceFile != "" || scope.widgetInstallationId != ""
  }

  function InScope(cat: Catalog, scope: Scope): Row -> bool {
    (row: Row) => IsChatInScope(row.scope, scope, cat.matcher)
  }

  predicate PassesArchiveFilter(row: Row, archived: ArchiveFilter, keep: set<Id>) {
    match archived
    case Include => true
    case TreeFilter => row.archivedAt == "" || row.scope.id in keep
    case Exclude => row.archivedAt == ""
    case Only => row.archivedAt != ""
  }

  /** Archived ancestors of live rows, computed within the scoped rows. */
  ghost function KeepIds(cat: Catalog, query: Query): set<Id> {
    if query.archived == TreeFilter then ArchivedAncestors(AsChats(Select(cat.rows, InScope(cat, query.scope)))) else {}
  }

  /** What a query asks for. */
  ghost function Wanted(cat: Catalog, query: Query): Row -> bool {
    var keep := KeepIds(cat, query);
    (row: Row) => PassesArchiveFilter(row, query.archived, keep) && IsChatInScope(row.scope, query.scope, cat.matcher)
  }

  /** What a query promises of a row: it is in the scope, and live, archived, or a live row or one of the archived
      ancestors of live rows, as the filter says. */
  ghost function AskedFor(cat: Catalog, query: Query): Row -> bool {
    var keep := KeepIds(cat, query);
    (row: Row) =>
      && MaySee(row.scope, query.scope, cat.matcher)
      && (query.archived == Exclude ==> row.archivedAt == "")
      && (query.archived == Only ==> row.archivedAt != "")
      && (query.archived == TreeFilter ==> row.archivedAt == "" || row.scope.id in keep)
  }

  lemma WantedIsAskedFor(cat: Catalog, query: Query, row: Row)
    ensures Wanted(cat, query)(row) <==> AskedFor(cat, query)(row)
  {
    ScopeExact(row.scope, query.scope, cat.matcher);
  }

  lemma {:induction false} SelectIsSublist(rows: seq<Row>, want: Row -> bool)
    ensures IsSublist(Select(rows, want), rows, want)
  {
    if rows == [] {
      SublistEmpty(want);
    } else {
      var rest, last := rows[..|rows| - 1], rows[|rows| - 1];
      SelectIsSublist(rest, want);
      SublistSnoc(Select(rest, want), rest, last, want);
      assert rows == rest + [last];
    }
  }

  lemma SelectedAskedFor(cat: Catalog, query: Query, rows: seq<Row>)
    ensures IsSublist(Select(rows, Wanted(cat, query)), rows, AskedFor(cat, query))
  {
    SelectIsSublist(rows, Wanted(cat, query));
    forall row | row in rows ensures Wanted(cat, query)(row) <==> AskedFor(cat, query)(row) {
      WantedIsAskedFor(cat, query, row);
    }
    SublistSame(Select(rows, Wanted(cat, query)), rows, Wanted(cat, query), AskedFor(cat, query));
  }

  lemma {:induction false} SelectConcat(a: seq<Row>, b: seq<Row>, want: Row -> bool)
    ensures Select(a + b, want) == Select(a, want) + Select(b, want)
  {
    if b == [] {
      assert a + b == a;
    } else {
      SelectConcat(a, b[..|b| - 1], want);
      assert (a + b)[..|a + b| - 1] == a + b[..|b| - 1];
    }
  }

  lemma {:induction false} SelectAll(rows: seq<Row>, want: Row -> bool)
    requires forall row :: row in rows ==> want(row)
    ensures Select(rows, want) == rows
  {
    if rows != [] {
      var rest, last := rows[..|rows| - 1], rows[|rows| - 1];
      assert rows == rest + [last] && last in rows;
      forall row | row in rest ensures want(row) {
        assert row in rows;
      }
      SelectAll(rest, want);
    }
  }

  lemma {:induction false} SelectMember(rows: seq<Row>, want: Row -> bool, row: Row)
    ensures row in Select(rows, want) <==> row in rows && want(row)
  {
    if rows != [] {
      SelectMember(rows[..|rows| - 1], want, row);
      assert rows == rows[..|rows| - 1] + [rows[|rows| - 1]];
    }
  }

  lemma {:induction false} SelectUnique(rows: seq<Row>, want: Row -> bool)
    requires UniqueIds(AsChats(rows))
    ensures UniqueIds(AsChats(Select(rows, want)))
  {
    if rows != [] {
      var rest, last := rows[..|rows| - 1], rows[|rows| - 1];
      assert forall i :: 0 <= i < |rest| ==> AsChats(rest)[i] == AsChats(rows)[i];
      SelectUnique(rest, want);
      var sub := Select(rest, want);
      assert forall i :: 0 <= i < |sub| ==> AsChats(Select(rows, want))[i] == AsChats(sub)[i];
      forall i | 0 <= i < |sub| && sub[i].scope.id != NoId ensures sub[i].scope.id != last.scope.id {
        SelectMember(rest, want, sub[i]);
        var j :| 0 <= j < |rest| && rest[j] == sub[i];
        assert AsChats(rows)[j].id != AsChats(rows)[|rows| - 1].id;
      }
    }
  }

  // ---- The plain list -----------------------------------------------------------------------

  method TreeKeepIds(cat: Catalog, query: Query) returns (keep: set<Id>)
    requires query.archived == TreeFilter ==> UniqueIds(AsChats(cat.rows))
    ensures keep == KeepIds(cat, query)
  {
    if query.archived != TreeFilter {
      return {};
    }
    var scoped := cat.rows;
    if HasScope(query.scope) {
      scoped := Select(cat.rows, InScope(cat, query.scope));
      SelectUnique(cat.rows, InScope(cat, query.scope));
    } else {
      SelectAll(cat.rows, InScope(cat, query.scope));
    }
    keep := CollectArchivedAncestorIds(AsChats(scoped));
  }

  method List(cat: Catalog, query: Query) returns (rows: seq<Row>)
    requires query.archived == TreeFilter ==> UniqueIds(AsChats(cat.rows))
    ensures rows == Select(cat.rows, Wanted(cat, query))
    ensures IsSublist(rows, cat.rows, AskedFor(cat, query))
  {
    SelectedAskedFor(cat, query, cat.rows);
    if !HasScope(query.scope) && query.archived == ArchiveFilter.Include {
      SelectAll(cat.rows, Wanted(cat, query));
      return cat.rows;
    }
    var keep := TreeKeepIds(cat, query);
    var hasScope := HasScope(query.scope);
    rows := [];
    for i := 0 to |cat.rows|
      invariant rows == Select(cat.rows[..i], Wanted(cat, query))
    {
      assert cat.rows[..i + 1][..i] == cat.rows[..i];
      var row := cat.rows[i];
      if PassesArchiveFilter(row, query.archived, keep)
        && (!hasScope || IsChatInScope(row.scope, query.scope, cat.matcher)) {
        rows := rows + [row];
      }
    }
    assert cat.rows[..|cat.rows|] == cat.rows;
  }

  // ---- Cursors ------------------------------------------------------------------------------

  predicate IsLineTerminator(c: char) {
    c == '\n' || c == '\r' || c == '\U{2028}' || c == '\U{2029}'
  }

  /** What the cursor pattern's dot accepts. */
  predicate SingleLine(s: string) {
    forall i :: 0 <= i < |s| ==> !IsLineTerminator(s[i])
  }

  function DigitRun(s: string): (n: nat)
    ensures n <= |s| && AllDigits(s[..n]) && forall i :: 0 <= i < n ==> IsDigit(s[i])
    ensures n < |s| ==> !IsDigit(s[n])
  {
    if s == "" || !IsDigit(s[0]) then 0
    else
      var n := DigitRun(s[1..]);
      assert s[1..n + 1] == s[1..][..n];
      assert forall i :: 1 <= i < n + 1 ==> s[i] == s[1..][i - 1];
      n + 1
  }

  function EncodeCursor(pos: nat, revision: string): string {
    Print(pos) + "@" + revision
  }

  /** The store position to resume from; an absent cursor starts at the first row. */
  function DecodeCursor(cursor: string, revision: string): Result<nat, CatalogError> {
    var n := DigitRun(cursor);
    if cursor == "" then Ok(0)
    else if n == 0 || n == |cursor| || cursor[n] != '@' || !SingleLine(cursor[n + 1..]) then Err(InvalidArgument)
    else if cursor[n + 1..] != revision then Err(StaleCursor)
    else Ok(Read(cursor[..n]))
  }

  /** A cursor made of a store position and a revision that is a single line. */
  predicate CursorParts(cursor: string, digits: string, revision: string) {
    cursor == digits + "@" + revision && digits != "" && AllDigits(digits) && SingleLine(revision)
  }

  lemma PartsRead(cursor: string, digits: string, revision: string)
    requires CursorParts(cursor, digits, revision)
    ensures DigitRun(cursor) == |digits| && cursor[..|digits|] == digits && cursor[|digits| + 1..] == revision
  {
    assert forall i :: 0 <= i < |digits| ==> cursor[i] == digits[i];
    assert cursor[|digits|] == '@';
  }

  /** Every text is read in exactly one way: empty, as a position of this revision, as a stale cursor, or not at all. */
  lemma CursorExact(cursor: string, revision: string)
    ensures cursor == "" ==> DecodeCursor(cursor, revision) == Ok(0)
    ensures cursor != "" && (forall d, r :: !CursorParts(cursor, d, r)) ==>
      DecodeCursor(cursor, revision) == Err(InvalidArgument)
    ensures forall d, r :: CursorParts(cursor, d, r) ==>
      DecodeCursor(cursor, revision) == if r == revision then Ok(Read(d)) else Err(StaleCursor)
  {
    forall d, r | CursorParts(cursor, d, r)
      ensures DecodeCursor(cursor, revision) == if r == revision then Ok(Read(d)) else Err(StaleCursor)
    {
      PartsRead(cursor, d, r);
      assert cursor[|d|] == '@';
    }
    var n := DigitRun(cursor);
    if 0 < n < |cursor| && cursor[n] == '@' && SingleLine(cursor[n + 1..]) {
      assert cursor == cursor[..n] + "@" + cursor[n + 1..];
      assert CursorParts(cursor, cursor[..n], cursor[n + 1..]);
    }
  }

  /** A cursor is read back at its own revision if and only if the revision is a single line, and is
      refused as stale at every other revision. */
  lemma CursorRoundTrip(pos: nat, issued: string, current: string)
    ensures DecodeCursor(EncodeCursor(pos, issued), current)
         == if !SingleLine(issued) then Err(InvalidArgument)
            else if issued != current then Err(StaleCursor) else Ok(pos)
    ensures SingleLine(issued)
       <==> '\n' !in issued && '\r' !in issued && '\U{2028}' !in issued && '\U{2029}' !in issued
  {
    var cursor, digits := EncodeCursor(pos, issued), Print(pos);
    var n := DigitRun(cursor);
    assert forall i :: 0 <= i < |digits| ==> cursor[i] == digits[i];
    assert cursor[|digits|] == '@';
    assert cursor[n + 1..] == issued && cursor[..n] == digits;
    ReadPrint(pos);
  }

  // ---- Pages --------------------------------------------------------------------------------

  function ClampLimit(requested: Option<int>): (limit: nat)
    ensures 1 <= limit <= PAGE_MAX_LIMIT
  {
    if requested.None? then PAGE_DEFAULT_LIMIT
    else if requested.value < 1 then 1
    else if requested.value > PAGE_MAX_LIMIT then PAGE_MAX_LIMIT
    else requested.value
  }

  /** The limit is the one from 1 to 500 nearest to the requested one, and 100 if none is requested. */
  lemma ClampNearest(requested: int, other: nat)
    requires 1 <= other <= 500
    ensures ClampLimit(None) == 100 && 1 <= ClampLimit(Some(requested)) <= 500
    ensures var limit := ClampLimit(Some(requested));
      if requested >= limit then requested - limit <= if requested >= other then requested - other
        else other - requested
      else limit - requested <= if requested >= other then requested - other else other - requested
  {
  }

  /** What a page promises: the rows asked for between its start and the next position, or to the end, at most
      `limit`, and the next position only if there is a row asked for at it. */
  ghost predicate ServesPage(cat: Catalog, query: Query, limit: nat, start: nat, page: Page) {
    match page.next
    case None =>
      |page.items| <= limit
        && IsSublist(page.items, if start <= |cat.rows| then cat.rows[start..] else [], AskedFor(cat, query))
    case Some(next) =>
      && start < next < |cat.rows| && AskedFor(cat, query)(cat.rows[next])
      && |page.items| == limit && IsSublist(page.items, cat.rows[start..next], AskedFor(cat, query))
  }

  lemma PageServes(cat: Catalog, query: Query, limit: nat, start: nat, page: Page)
    requires IsPage(cat.rows, Wanted(cat, query), limit, start, page)
    ensures ServesPage(cat, query, limit, start, page)
  {
    match page.next
    case None =>
      SelectedAskedFor(cat, query, if start <= |cat.rows| then cat.rows[start..] else []);
    case Some(next) =>
      SelectedAskedFor(cat, query, cat.rows[start..next]);
      WantedIsAskedFor(cat, query, cat.rows[next]);
  }

  /** A page that starts at `start`: either the rest of the wanted rows, or exactly `limit` of them and
      the position of the next one. */
  ghost predicate IsPage(rows: seq<Row>, want: Row -> bool, limit: nat, start: nat, page: Page) {
    match page.next
    case None => |page.items| <= limit && page.items == if start <= |rows| then Select(rows[start..], want) else []
    case Some(next) =>
      && start < next < |rows| && want(rows[next])
      && |page.items| == limit && page.items == Select(rows[start..next], want)
  }

  lemma SelectNext(rows: seq<Row>, want: Row -> bool, start: nat, pos: nat)
    requires start <= pos < |rows|
    ensures Select(rows[start..pos + 1], want) == Select(rows[start..pos], want)
      + if want(rows[pos]) then [rows[pos]] else []
  {
    assert rows[start..pos + 1][..pos - start] == rows[start..pos];
  }

  lemma WantedRow(cat: Catalog, query: Query, keep: set<Id>, row: Row)
    requires keep == KeepIds(cat, query)
    ensures Wanted(cat, query)(row)
       <==> (PassesArchiveFilter(row, query.archived, keep)
             && (!HasScope(query.scope) || IsChatInScope(row.scope, query.scope, cat.matcher)))
  {
  }

  /** Scans from `start` and stops at the first wanted row after a full page. */
  method Scan(cat: Catalog, query: Query, keep: set<Id>, limit: nat, start: nat) returns (page: Page)
    requires keep == KeepIds(cat, query) && limit > 0
    ensures IsPage(cat.rows, Wanted(cat, query), limit, start, page)
  {
    ghost var want := Wanted(cat, query);
    var hasScope := HasScope(query.scope);
    if start >= |cat.rows| {
      return Page([], None);
    }
    var items, pos := [], start;
    while pos < |cat.rows|
      invariant start <= pos <= |cat.rows|
      invariant |items| <= limit && items == Select(cat.rows[start..pos], want)
    {
      var row := cat.rows[pos];
      SelectNext(cat.rows, want, start, pos);
      var fits := PassesArchiveFilter(row, query.archived, keep)
        && (!hasScope || IsChatInScope(row.scope, query.scope, cat.matcher));
      assert fits == want(row) by {
        WantedRow(cat, query, keep, row);
      }
      if fits {
        if |items| >= limit {
          return Page(items, Some(pos));
        }
        items := items + [row];
      }
      pos := pos + 1;
    }
    assert cat.rows[start..|cat.rows|] == cat.rows[start..];
    return Page(items, None);
  }

  method GetPage(cat: Catalog, query: Query, requested: Option<int>, cursor: string)
    returns (r: Result<Page, CatalogError>)
    requires query.archived == TreeFilter ==> UniqueIds(AsChats(cat.rows))
    ensures r.Err? <==> DecodeCursor(cursor, cat.revision).Err?
    ensures r.Err? ==> r.error == DecodeCursor(cursor, cat.revision).error
    ensures r.Ok? ==> Answers(cat, Wanted(cat, query), ClampLimit(requested), cursor, r.value)
    ensures r.Ok? ==>
      ServesPage(cat, query, ClampLimit(requested), DecodeCursor(cursor, cat.revision).value, r.value)
  {
    var keep := TreeKeepIds(cat, query);
    var start := DecodeCursor(cursor, cat.revision);
    if start.Err? {
      return Err(start.error);
    }
    var page := Scan(cat, query, keep, ClampLimit(requested), start.value);
    PageServes(cat, query, ClampLimit(requested), start.value, page);
    return Ok(page);
  }

  // ---- Following the cursors ----------------------------------------------------------------

  /** `page` is what the catalog answers to `cursor`. */
  ghost predicate Answers(cat: Catalog, want: Row -> bool, limit: nat, cursor: string, page: Page) {
    var start := DecodeCursor(cursor, cat.revision);
    start.Ok? && IsPage(cat.rows, want, limit, start.value, page)
  }

  /** Pages requested one after the other, each with the cursor of the one before. */
  ghost predicate IsWalk(cat: Catalog, want: Row -> bool, limit: nat, pages: seq<Page>)
    decreases pages
  {
    if |pages| == 0 then false
    else if |pages| == 1 then Answers(cat, want, limit, "", pages[0])
    else
      var earlier := pages[..|pages| - 1];
      var cursor := earlier[|earlier| - 1].NextCursor(cat.revision);
      IsWalk(cat, want, limit, earlier) && cursor.Some? && Answers(cat, want, limit, cursor.value, pages[|pages| - 1])
  }

  function AllItems(pages: seq<Page>): seq<Row> {
    if pages == [] then [] else AllItems(pages[..|pages| - 1]) + pages[|pages| - 1].items
  }

  /** A page takes the rows collected so far from its start to its end. */
  lemma PageAdvances(rows: seq<Row>, want: Row -> bool, limit: nat, start: nat, page: Page)
    requires start <= |rows| && IsPage(rows, want, limit, start, page)
    ensures Select(rows[..start], want) + page.items
      == Select(if page.next.Some? then rows[..page.next.value] else rows, want)
  {
    var end := if page.next.Some? then page.next.value else |rows|;
    SelectConcat(rows[..start], rows[start..end], want);
    assert rows[..start] + rows[start..end] == rows[..end];
    assert rows[..|rows|] == rows && rows[start..|rows|] == rows[start..];
  }

  lemma Resumes(cat: Catalog, want: Row -> bool, limit: nat, last: Page, page: Page)
    requires last.next.Some? && Answers(cat, want, limit, last.NextCursor(cat.revision).value, page)
    ensures IsPage(cat.rows, want, limit, last.next.value, page)
  {
    CursorRoundTrip(last.next.value, cat.revision, cat.revision);
  }

  /** The last page of a walk starts where the pages before it stopped. */
  lemma {:induction false} WalkStart(cat: Catalog, want: Row -> bool, limit: nat, pages: seq<Page>) returns (start: nat)
    requires IsWalk(cat, want, limit, pages)
    ensures start <= |cat.rows| && IsPage(cat.rows, want, limit, start, pages[|pages| - 1])
    ensures AllItems(pages[..|pages| - 1]) == Select(cat.rows[..start], want)
    decreases pages
  {
    if |pages| == 1 {
      start := 0;
      assert pages[..0] == [] && cat.rows[..0] == [];
    } else {
      var earlier := pages[..|pages| - 1];
      var before := WalkStart(cat, want, limit, earlier);
      PageAdvances(cat.rows, want, limit, before, earlier[|earlier| - 1]);
      start := earlier[|earlier| - 1].next.value;
      Resumes(cat, want, limit, earlier[|earlier| - 1], pages[|pages| - 1]);
    }
  }

  lemma OneMore(k: nat, limit: nat)
    ensures (k + 1) * limit == k * limit + limit
  {
  }

  lemma FullPage(cat: Catalog, want: Row -> bool, limit: nat, pages: seq<Page>)
    requires IsWalk(cat, want, limit, pages) && pages[|pages| - 1].next.Some?
    ensures |pages[|pages| - 1].items| == limit
  {
    var start := WalkStart(cat, want, limit, pages);
  }

  /** Every page of a walk but the last is full. */
  lemma {:induction false} WalkCounts(cat: Catalog, want: Row -> bool, limit: nat, pages: seq<Page>)
    requires IsWalk(cat, want, limit, pages)
    ensures forall i :: 0 <= i < |pages| - 1 ==> |pages[i].items| == limit
    ensures |AllItems(pages)| == (|pages| - 1) * limit + |pages[|pages| - 1].items|
    decreases pages
  {
    if |pages| == 1 {
      assert pages[..0] == [];
    } else {
      var earlier := pages[..|pages| - 1];
      WalkCounts(cat, want, limit, earlier);
      FullPage(cat, want, limit, earlier);
      OneMore(|earlier| - 1, limit);
    }
  }

  /** Paging agrees with the plain list: a finished walk has collected exactly the list, and every page
      but the last has exactly `limit` rows. */
  lemma WalkIsList(cat: Catalog, want: Row -> bool, limit: nat, pages: seq<Page>)
    requires IsWalk(cat, want, limit, pages) && pages[|pages| - 1].next.None?
    ensures AllItems(pages) == Select(cat.rows, want)
    ensures forall i :: 0 <= i < |pages| - 1 ==> |pages[i].items| == limit
  {
    var start := WalkStart(cat, want, limit, pages);
    PageAdvances(cat.rows, want, limit, start, pages[|pages| - 1]);
    WalkCounts(cat, want, limit, pages);
  }

  lemma SelectedAhead(rows: seq<Row>, want: Row -> bool, next: nat)
    requires next < |rows| && want(rows[next])
    ensures |Select(rows[..next], want)| < |Select(rows, want)|
  {
    SelectNext(rows, want, 0, next);
    SelectConcat(rows[..next + 1], rows[next + 1..], want);
    assert rows[..next + 1] + rows[next + 1..] == rows;
  }

  /** A walk that has not finished still has rows to fetch, so it stops after at most
      `|list| / limit + 1` pages. */
  lemma WalkEnds(cat: Catalog, want: Row -> bool, limit: nat, pages: seq<Page>)
    requires IsWalk(cat, want, limit, pages) && pages[|pages| - 1].next.Some?
    ensures |pages| * limit < |Select(cat.rows, want)|
  {
    var start := WalkStart(cat, want, limit, pages);
    PageAdvances(cat.rows, want, limit, start, pages[|pages| - 1]);
    WalkCounts(cat, want, limit, pages);
    SelectedAhead(cat.rows, want, pages[|pages| - 1].next.value);
    OneMore(|pages| - 1, limit);
  }

  /** The next request of a walk resumes where the walk stopped, if and only if the revision is a single
      line; otherwise its cursor is refused as malformed. */
  lemma WalkContinues(cat: Catalog, want: Row -> bool, limit: nat, pages: seq<Page>)
    requires IsWalk(cat, want, limit, pages) && pages[|pages| - 1].next.Some?
    ensures DecodeCursor(pages[|pages| - 1].NextCursor(cat.revision).value, cat.revision)
         == if SingleLine(cat.revision) then Ok(pages[|pages| - 1].next.value) else Err(InvalidArgument)
  {
    CursorRoundTrip(pages[|pages| - 1].next.value, cat.revision, cat.revision);
  }

  // ---- The list a resync gives --------------------------------------------------------------

  lemma {:induction false} AbsentDto(rows: seq<Row>, worktrees: set<string>, id: Id)
    requires forall row :: row in rows ==> row.scope.id != id
    ensures id !in DtoMap(rows, worktrees)
  {
    if rows != [] {
      AbsentDto(rows[..|rows| - 1], worktrees, id);
    }
  }

  lemma {:induction false} DtoOfRow(rows: seq<Row>, worktrees: set<string>, row: Row)
    requires UniqueIds(AsChats(rows)) && row in rows && row.scope.id != NoId
    ensures row.scope.id in DtoMap(rows, worktrees)
      && DtoMap(rows, worktrees)[row.scope.id] == ToChatListDto(row, worktrees)
  {
    var rest, last := rows[..|rows| - 1], rows[|rows| - 1];
    assert rows == rest + [last];
    assert forall i :: 0 <= i < |rest| ==> AsChats(rest)[i] == AsChats(rows)[i];
    if row in rest {
      DtoOfRow(rest, worktrees, row);
    } else {
      assert forall i :: 0 <= i < |rest| ==> AsChats(rows)[i].id == rest[i].scope.id;
      assert AsChats(rows)[|rest|].id == last.scope.id;
      AbsentDto(rest, worktrees, last.scope.id);
    }
  }

  lemma {:induction false} RowOfDto(rows: seq<Row>, worktrees: set<string>, id: Id) returns (row: Row)
    requires id in DtoMap(rows, worktrees)
    ensures row in rows && row.scope.id == id != NoId && DtoMap(rows, worktrees)[id] == ToChatListDto(row, worktrees)
  {
    if id in DtoMap(rows[..|rows| - 1], worktrees) {
      row := RowOfDto(rows[..|rows| - 1], worktrees, id);
    } else {
      row := rows[|rows| - 1];
    }
  }

  /** Filtering rows and filtering their DTOs is the same. */
  lemma SelectedDtos(rows: seq<Row>, worktrees: set<string>, want: Row -> bool, id: Id)
    requires UniqueIds(AsChats(rows))
    ensures id in DtoMap(Select(rows, want), worktrees)
      <==> exists row :: row in rows && row.scope.id == id != NoId && want(row)
    ensures id in DtoMap(Select(rows, want), worktrees) ==> id in DtoMap(rows, worktrees)
    ensures id in DtoMap(Select(rows, want), worktrees) ==>
      DtoMap(Select(rows, want), worktrees)[id] == DtoMap(rows, worktrees)[id]
  {
    SelectUnique(rows, want);
    if id in DtoMap(Select(rows, want), worktrees) {
      var row := RowOfDto(Select(rows, want), worktrees, id);
      SelectMember(rows, want, row);
      DtoOfRow(rows, worktrees, row);
    }
    if row :| row in rows && row.scope.id == id != NoId && want(row) {
      SelectMember(rows, want, row);
      DtoOfRow(Select(rows, want), worktrees, row);
    }
  }

  /** The scoped mirror is the mirror of the scoped rows. */
  lemma ScopedDtos(cat: Catalog, scope: Scope, worktrees: set<string>)
    requires UniqueIds(AsChats(cat.rows))
    ensures Scoped(DtoMap(cat.rows, worktrees), (f: ScopeFields) => IsChatInScope(f, scope, cat.matcher))
         == DtoMap(Select(cat.rows, InScope(cat, scope)), worktrees)
  {
    var all, part := DtoMap(cat.rows, worktrees), DtoMap(Select(cat.rows, InScope(cat, scope)), worktrees);
    var inScope := (f: ScopeFields) => IsChatInScope(f, scope, cat.matcher);
    forall id ensures id in Scoped(all, inScope) <==> id in part {
      SelectedDtos(cat.rows, worktrees, InScope(cat, scope), id);
      if id in Scoped(all, inScope) {
        var row := RowOfDto(cat.rows, worktrees, id);
      }
      if row :| row in cat.rows && row.scope.id == id != NoId && InScope(cat, scope)(row) {
        DtoOfRow(cat.rows, worktrees, row);
      }
    }
    forall id | id in part ensures part[id] == Scoped(all, inScope)[id] {
      SelectedDtos(cat.rows, worktrees, InScope(cat, scope), id);
    }
  }

  /** The DTO map sees the same forest as the rows it was made of. */
  lemma DtosSameForest(rows: seq<Row>, worktrees: set<string>)
    requires UniqueIds(AsChats(rows))
    ensures ParentsOf(DtoMap(rows, worktrees)) == ParentOf(AsChats(rows))
    ensures LiveOf(DtoMap(rows, worktrees)) == LiveIds(AsChats(rows))
    ensures ArchivedOf(DtoMap(rows, worktrees)) == ArchivedIds(AsChats(rows))
  {
    var m, chats := DtoMap(rows, worktrees), AsChats(rows);
    forall c | c in chats && c.id != NoId
      ensures c.id in m && m[c.id].forkParentChatId == c.parentId && m[c.id].archivedAt == c.archivedAt
    {
      var i :| 0 <= i < |chats| && chats[i] == c;
      DtoOfRow(rows, worktrees, rows[i]);
    }
    forall id | id in m
      ensures exists c ::
        c in chats && c.id == id != NoId && m[id].forkParentChatId == c.parentId && m[id].archivedAt == c.archivedAt
    {
      var row := RowOfDto(rows, worktrees, id);
      var i :| 0 <= i < |rows| && rows[i] == row;
      assert chats[i] == AsChat(row) && chats[i] in chats;
    }
    forall id ensures id in ParentsOf(m) <==> id in ParentOf(chats)
      ensures id in ParentsOf(m) ==> ParentsOf(m)[id] == ParentOf(chats)[id]
    {
      if id in ParentsOf(m) {
        var c :| c in chats && c.id == id != NoId && m[id].forkParentChatId == c.parentId
          && m[id].archivedAt == c.archivedAt;
        RowHasEdge(chats, c);
      }
      if id in ParentOf(chats) {
        var c := EdgeHasRow(chats, id);
      }
    }
  }

  lemma TreeRowListed(cat: Catalog, scope: Scope, worktrees: set<string>, id: Id)
    requires UniqueIds(AsChats(cat.rows))
    ensures var list := DtoMap(Select(cat.rows, Wanted(cat, Query(scope, TreeFilter))), worktrees);
      var m := DtoMap(Select(cat.rows, InScope(cat, scope)), worktrees);
      var keep := KeepIds(cat, Query(scope, TreeFilter));
      && (id in list <==> id in m && (!m[id].IsArchived() || id in keep))
      && (id in list ==> list[id] == m[id])
  {
    var want := Wanted(cat, Query(scope, TreeFilter));
    SelectedDtos(cat.rows, worktrees, want, id);
    SelectedDtos(cat.rows, worktrees, InScope(cat, scope), id);
    if row :| row in cat.rows && row.scope.id == id != NoId && InScope(cat, scope)(row) {
      DtoOfRow(cat.rows, worktrees, row);
      if other :| other in cat.rows && other.scope.id == id != NoId && want(other) {
        DtoOfRow(cat.rows, worktrees, other);
      }
    }
  }

  /** The `archived=tree` list of the catalog, as DTOs, is exactly the tree list of the scoped mirror:
      the list a client falls back to is the one its replica is compared with. */
  lemma TreeListIsTreeRows(cat: Catalog, scope: Scope, worktrees: set<string>)
    requires UniqueIds(AsChats(cat.rows))
    ensures DtoMap(Select(cat.rows, Wanted(cat, Query(scope, TreeFilter))), worktrees)
         == TreeRows(Scoped(DtoMap(cat.rows, worktrees), (f: ScopeFields) => IsChatInScope(f, scope, cat.matcher)))
  {
    var scoped := Select(cat.rows, InScope(cat, scope));
    SelectUnique(cat.rows, InScope(cat, scope));
    ScopedDtos(cat, scope, worktrees);
    DtosSameForest(scoped, worktrees);
    var m := DtoMap(scoped, worktrees);
    var list := DtoMap(Select(cat.rows, Wanted(cat, Query(scope, TreeFilter))), worktrees);
    forall id ensures id in list <==> id in TreeRows(m)
      ensures id in list ==> list[id] == TreeRows(m)[id]
    {
      TreeRowListed(cat, scope, worktrees, id);
    }
  }
}
