/** The audit table: insertion, keyset pages and batched purges. */
module AuditLog {
  import opened Wrappers
  import opened AuditOrder

  /** An audit query; `filter` stands for the optional column conditions. */
  datatype Query = Query(organization: int, filter: Event -> bool, limit: nat)

  /** The WHERE clause of a page query. */
  function Matching(events: set<Event>, query: Query, after: Option<Cursor>): (rows: set<Event>)
    ensures Keyed(events) ==> Keyed(rows)
  {
    set e | e in events
            && e.organization == query.organization
            && (after.None? || e.Position().OlderThan(after.value))
            && query.filter(e)
  }

  ghost function PageRows(events: set<Event>, query: Query, after: Option<Cursor>, limit: nat): seq<Event>
    requires Keyed(events)
  {
    Take(Sort(NewestFirst, Matching(events, query, after)), limit)
  }

  predicate CanInsert(events: set<Event>, event: Event) {
    forall e :: e in events ==> e.id != event.id
  }

  function Expired(events: set<Event>, organization: int, before: int): (rows: set<Event>)
    ensures rows <= events && (Keyed(events) ==> Keyed(rows))
  {
    set e | e in events && e.organization == organization && e.createdAt < before
  }

  ghost function PurgeBatch(events: set<Event>, organization: int, before: int, limit: int): seq<Event>
    requires Keyed(events)
  {
    if limit <= 0 then [] else Take(Sort(OldestFirst, Expired(events, organization, before)), limit)
  }

  ghost function Purged(events: set<Event>, organization: int, before: int, limit: int): (rest: set<Event>)
    requires Keyed(events)
    ensures rest <= events && Keyed(rest)
  {
    var ids := set e | e in PurgeBatch(events, organization, before, limit) :: e.id;
    set e | e in events && e.id !in ids
  }

  class AuditStore {
    var events: set<Event>

    ghost predicate Valid()
      reads this
    {
      Keyed(events)
    }

    constructor ()
      ensures Valid() && events == {}
    {
      events := {};
    }

    method InsertAuditEvent(event: Event) returns (inserted: bool)
      requires Valid()
      modifies this
      ensures Valid()
      ensures inserted <==> forall e :: e in old(events) ==> e.id != event.id
      ensures events == if inserted then old(events) + {event} else old(events)
    {
      inserted := CanInsert(events, event);
      if inserted {
        events := events + {event};
      }
    }

    method ListAuditEventsPageFiltered(query: Query, after: Option<Cursor>, limit: nat) returns (rows: seq<Event>)
      requires Valid()
      ensures rows == PageRows(events, query, after, limit)
    {
      rows := Take(OrderBy(NewestFirst, Matching(events, query, after)), limit);
    }

    method DeleteAuditEventsBefore(organization: int, before: int, limit: int) returns (deleted: int)
      requires Valid()
      modifies this
      ensures Valid()
      ensures events == Purged(old(events), organization, before, limit)
      ensures deleted == |old(events)| - |events|
    {
      if limit <= 0 {
        return 0;
      }
      var expired := Take(OrderBy(OldestFirst, Expired(events, organization, before)), limit);
      var ids := set e | e in expired :: e.id;
      var kept := set e | e in events && e.id !in ids;
      deleted := |events| - |kept|;
      events := kept;
    }
  }

  // -------------------------------------------------------------- paging

  datatype ListPage = ListPage(items: seq<Event>, next: Option<Cursor>)

  /** One request of the admin list: a row more than asked for is fetched to
      learn whether there is a next page. */
  ghost function FetchPage(events: set<Event>, query: Query, after: Option<Cursor>): ListPage
    requires Keyed(events) && query.limit >= 1
  {
    var rows := PageRows(events, query, after, query.limit + 1);
    if |rows| > query.limit
    then ListPage(rows[..query.limit], Some(rows[query.limit - 1].Position()))
    else ListPage(rows, None)
  }

  /** What one page promises, with no reference to how it is computed. */
  lemma PageContents(events: set<Event>, query: Query, after: Option<Cursor>)
    requires Keyed(events) && query.limit >= 1
    ensures var page := FetchPage(events, query, after);
      && Ordered(NewestFirst, page.items)
      && (forall e :: e in page.items ==> e in Matching(events, query, after))
      && (page.next.Some? ==>
        && |page.items| == query.limit
        && page.next.value == page.items[query.limit - 1].Position())
      && forall e :: e in Matching(events, query, after) && (page.next.Some? ==> !e.Position().OlderThan(page.next.value))
           ==> e in page.items
  {
    var sorted := Sort(NewestFirst, Matching(events, query, after));
    var page := FetchPage(events, query, after);
    var k := |page.items|;
    assert page.items == sorted[..k];
    FrontContents(sorted, Matching(events, query, after), k);
  }

  lemma FrontContents(sorted: seq<Event>, rows: set<Event>, k: nat)
    requires Lists(NewestFirst, sorted, rows) && k <= |sorted|
    ensures Ordered(NewestFirst, sorted[..k])
    ensures forall e :: e in sorted[..k] ==> e in rows
    ensures forall e :: e in rows && (k == |sorted| || (k > 0 && !e.Position().OlderThan(sorted[k - 1].Position())))
              ==> e in sorted[..k]
  {
    assert forall e :: e in sorted[..k] ==> e in sorted;
    forall e | e in rows && (k == |sorted| || (k > 0 && !e.Position().OlderThan(sorted[k - 1].Position())))
      ensures e in sorted[..k]
    {
      var i :| 0 <= i < |sorted| && sorted[i] == e;
      MemberBySide(NewestFirst, sorted, k, i);
    }
  }

  /** A client follows the cursors; the i-th request sees `tables[i]`. */
  datatype Walk = Walk(items: seq<Event>, finished: bool)

  ghost function Follow(tables: seq<set<Event>>, query: Query, after: Option<Cursor>): Walk
    requires query.limit >= 1 && forall t :: t in tables ==> Keyed(t)
  {
    if tables == [] then Walk([], false)
    else
      var page := FetchPage(tables[0], query, after);
      if page.next.None? then Walk(page.items, true)
      else
        var rest := Follow(tables[1..], query, page.next);
        Walk(page.items + rest.items, rest.finished)
  }

  ghost predicate Wanted(e: Event, query: Query, after: Option<Cursor>) {
    e.organization == query.organization && (after.Some? ==> e.Position().OlderThan(after.value)) && query.filter(e)
  }

  ghost predicate Seen(e: Event, tables: seq<set<Event>>) {
    exists i :: 0 <= i < |tables| && e in tables[i]
  }

  /** Whatever happens to the table between the requests, the walk is strictly
      descending, so no row appears twice, and it returns only wanted rows. */
  lemma {:induction false} FollowDescends(tables: seq<set<Event>>, query: Query, after: Option<Cursor>)
    requires query.limit >= 1 && forall t :: t in tables ==> Keyed(t)
    ensures var walk := Follow(tables, query, after);
      && Ordered(NewestFirst, walk.items)
      && forall e :: e in walk.items ==> Wanted(e, query, after) && Seen(e, tables)
  {
    if tables != [] {
      var page := FetchPage(tables[0], query, after);
      PageContents(tables[0], query, after);
      assert tables[0] in tables;
      PageIsWanted(tables, query, after, page.items);
      if page.next.Some? {
        var rest := Follow(tables[1..], query, page.next);
        FollowDescends(tables[1..], query, page.next);
        RestIsWanted(tables, query, after, page, rest);
        JoinOrdered(page.items, rest.items);
      }
    }
  }

  lemma PageIsWanted(tables: seq<set<Event>>, query: Query, after: Option<Cursor>, items: seq<Event>)
    requires tables != [] && forall e :: e in items ==> e in Matching(tables[0], query, after)
    ensures forall e :: e in items ==> Wanted(e, query, after) && Seen(e, tables)
  {
  }

  lemma RestIsWanted(tables: seq<set<Event>>, query: Query, after: Option<Cursor>, page: ListPage, rest: Walk)
    requires tables != [] && page.next.Some? && page.items != []
    requires page.next.value == page.items[|page.items| - 1].Position()
    requires forall e :: e in page.items ==> Wanted(e, query, after)
    requires forall e :: e in rest.items ==> Wanted(e, query, page.next) && Seen(e, tables[1..])
    ensures forall e :: e in rest.items ==> Wanted(e, query, after) && Seen(e, tables)
  {
    assert page.items[|page.items| - 1] in page.items;
    forall e | e in rest.items
      ensures Wanted(e, query, after) && Seen(e, tables)
    {
      assert Seen(e, tables[1..]);
      var i :| 0 <= i < |tables[1..]| && e in tables[1..][i];
      assert e in tables[i + 1];
    }
  }

  lemma JoinOrdered(front: seq<Event>, rest: seq<Event>)
    requires Ordered(NewestFirst, front) && Ordered(NewestFirst, rest) && front != []
    requires forall e :: e in rest ==> e.Position().OlderThan(front[|front| - 1].Position())
    ensures Ordered(NewestFirst, front + rest)
  {
    assert forall j :: 0 <= j < |rest| ==> rest[j] in rest;
    assert forall i :: 0 <= i < |front| - 1 ==> Precedes(NewestFirst, front[i].Position(), front[|front| - 1].Position());
  }

  /** The walk has come as far as the row. */
  ghost predicate Reached(walk: Walk, e: Event) {
    walk.finished || (walk.items != [] && !e.Position().OlderThan(walk.items[|walk.items| - 1].Position()))
  }

  /** Of the wanted rows that were there throughout, the walk has returned every
      one it came to: all of them once it is finished. */
  lemma {:induction false} FollowMissesNothing(tables: seq<set<Event>>, query: Query, after: Option<Cursor>, e: Event)
    requires query.limit >= 1 && forall t :: t in tables ==> Keyed(t)
    requires Wanted(e, query, after) && forall t :: t in tables ==> e in t
    requires Reached(Follow(tables, query, after), e)
    ensures e in Follow(tables, query, after).items
  {
    var page := FetchPage(tables[0], query, after);
    PageContents(tables[0], query, after);
    assert tables[0] in tables;
    if page.next.Some? && e.Position().OlderThan(page.next.value) {
      var rest := Follow(tables[1..], query, page.next);
      assert Reached(rest, e);
      FollowMissesNothing(tables[1..], query, page.next, e);
    }
  }

  // ------------------------------------------- what other sessions may do

  datatype Change = Insert(event: Event) | Purge(organization: int, before: int, limit: int)

  ghost function Apply(events: set<Event>, changes: seq<Change>): (after: set<Event>)
    requires Keyed(events)
    ensures Keyed(after)
  {
    if changes == [] then events
    else
      var earlier := Apply(events, changes[..|changes| - 1]);
      match changes[|changes| - 1]
      case Insert(event) => if CanInsert(earlier, event) then earlier + {event} else earlier
      case Purge(organization, before, limit) => Purged(earlier, organization, before, limit)
  }

  /** The table each request sees when the i-th one comes after `between[i]`. */
  ghost function TablesRead(events: set<Event>, between: seq<seq<Change>>): (tables: seq<set<Event>>)
    requires Keyed(events)
    ensures |tables| == |between| && forall t :: t in tables ==> Keyed(t)
    decreases |between|
  {
    if between == [] then []
    else
      var now := Apply(events, between[0]);
      [now] + TablesRead(now, between[1..])
  }

  /** No purge among the changes has a cutoff above the row. */
  ghost predicate OutOfReach(e: Event, changes: seq<Change>) {
    forall c :: c in changes && c.Purge? && c.organization == e.organization ==> c.before <= e.createdAt
  }

  ghost predicate Retained(e: Event, between: seq<seq<Change>>) {
    forall i :: 0 <= i < |between| ==> OutOfReach(e, between[i])
  }

  lemma {:induction false} RetainedThroughChanges(events: set<Event>, changes: seq<Change>, e: Event)
    requires Keyed(events) && e in events
    requires OutOfReach(e, changes)
    ensures e in Apply(events, changes)
  {
    if changes != [] {
      var n := |changes| - 1;
      RetainedThroughChanges(events, changes[..n], e);
      if changes[n].Purge? {
        PurgeTakesOldest(Apply(events, changes[..n]), changes[n].organization, changes[n].before, changes[n].limit);
      }
    }
  }

  lemma {:induction false} RetainedIsAlwaysRead(events: set<Event>, between: seq<seq<Change>>, e: Event)
    requires Keyed(events) && e in events && Retained(e, between)
    ensures forall t :: t in TablesRead(events, between) ==> e in t
    decreases |between|
  {
    if between != [] {
      RetainedThroughChanges(events, between[0], e);
      var now := Apply(events, between[0]);
      RetainedIsAlwaysRead(now, between[1..], e);
    }
  }

  /** A finished walk over a log that others write and purge returns every
      matching row that was there at the start and that no purge reached, and
      returns no row twice. */
  lemma WalkReturnsRetainedRows(events: set<Event>, between: seq<seq<Change>>, query: Query)
    requires Keyed(events) && query.limit >= 1
    ensures var walk := Follow(TablesRead(events, between), query, None);
      && (forall i, j :: 0 <= i < j < |walk.items| ==> walk.items[i] != walk.items[j])
      && (walk.finished ==> forall e :: e in events && Wanted(e, query, None) && Retained(e, between) ==> e in walk.items)
  {
    var tables := TablesRead(events, between);
    var walk := Follow(tables, query, None);
    FollowDescends(tables, query, None);
    forall i, j | 0 <= i < j < |walk.items| ensures walk.items[i] != walk.items[j] {
      assert Precedes(NewestFirst, walk.items[i].Position(), walk.items[j].Position());
    }
    forall e | walk.finished && e in events && Wanted(e, query, None) && Retained(e, between)
      ensures e in walk.items
    {
      RetainedIsAlwaysRead(events, between, e);
      FollowMissesNothing(tables, query, None, e);
    }
  }

  // ------------------------------------------------------- a fixed table

  /** `count` requests over the unchanged table. */
  function Unchanged(events: set<Event>, count: nat): (tables: seq<set<Event>>)
    ensures |tables| == count && forall t :: t in tables ==> t == events
  {
    seq(count, _ => events)
  }

  /** Requests it takes to list `rows` rows. */
  function PagesFor(rows: nat, limit: nat): nat
    requires limit >= 1
  {
    if rows <= limit then 1 else 1 + PagesFor(rows - limit, limit)
  }

  /** That is the ceiling of rows / limit, and 1 for an empty answer. */
  lemma {:induction false} PagesForIsCeiling(rows: nat, limit: nat)
    requires limit >= 1
    ensures var pages := PagesFor(rows, limit);
      pages >= 1 && rows <= pages * limit && (pages > 1 ==> (pages - 1) * limit < rows)
    decreases rows
  {
    if rows > limit {
      PagesForIsCeiling(rows - limit, limit);
      var pages := PagesFor(rows - limit, limit);
      assert (pages + 1) * limit == pages * limit + limit;
      assert pages * limit == (pages - 1) * limit + limit;
    }
  }

  lemma Multiple(count: nat, limit: nat)
    requires count > 0
    ensures 0 <= (count - 1) * limit && count * limit == limit + (count - 1) * limit
  {
  }

  /** One request on a table: its page is the front of the sorted list, and the
      list behind its cursor is the rest. */
  lemma PageIsFront(events: set<Event>, query: Query, after: Option<Cursor>)
    requires Keyed(events) && query.limit >= 1
    ensures var all := Sort(NewestFirst, Matching(events, query, after));
      var page := FetchPage(events, query, after);
      && page.items == Take(all, query.limit)
      && (page.next.Some? <==> |all| > query.limit)
      && (page.next.Some? ==> Sort(NewestFirst, Matching(events, query, page.next)) == all[query.limit..])
  {
    var rows := Matching(events, query, after);
    var all := Sort(NewestFirst, rows);
    var page := FetchPage(events, query, after);
    if page.next.Some? {
      SortedRest(NewestFirst, rows, query.limit);
      assert all[query.limit - 1] in rows;
      assert Matching(events, query, page.next) == Behind(NewestFirst, rows, all[query.limit - 1].Position());
    }
  }

  /** The rows that so many full pages hold. */
  function RowsOn(pages: nat, limit: nat): nat {
    if pages == 0 then 0 else limit + RowsOn(pages - 1, limit)
  }

  lemma {:induction false} RowsOnIsProduct(pages: nat, limit: nat)
    ensures RowsOn(pages, limit) == pages * limit
  {
    if pages > 0 {
      RowsOnIsProduct(pages - 1, limit);
      Multiple(pages, limit);
    }
  }

  /** The walk has listed as much of `all` as so many requests can. */
  predicate ListsSoFar(all: seq<Event>, walk: Walk, requests: nat, limit: nat)
    requires limit >= 1
  {
    && (walk.finished <==> requests >= PagesFor(|all|, limit))
    && walk.items == Take(all, RowsOn(requests, limit))
  }

  lemma NoRequest(all: seq<Event>, limit: nat)
    requires limit >= 1
    ensures ListsSoFar(all, Walk([], false), 0, limit)
  {
    PagesForIsCeiling(|all|, limit);
  }

  lemma LastPage(all: seq<Event>, requests: nat, limit: nat)
    requires limit >= 1 && requests > 0 && |all| <= limit
    ensures ListsSoFar(all, Walk(Take(all, limit), true), requests, limit)
  {
  }

  lemma MorePages(all: seq<Event>, rest: Walk, requests: nat, limit: nat)
    requires limit >= 1 && requests > 0 && |all| > limit && ListsSoFar(all[limit..], rest, requests - 1, limit)
    ensures ListsSoFar(all, Walk(Take(all, limit) + rest.items, rest.finished), requests, limit)
  {
    TakeMore(all, limit, RowsOn(requests - 1, limit));
  }

  lemma {:induction false} PagesListFrom(events: set<Event>, query: Query, after: Option<Cursor>, requests: nat)
    requires Keyed(events) && query.limit >= 1
    ensures ListsSoFar(Sort(NewestFirst, Matching(events, query, after)), Follow(Unchanged(events, requests), query, after),
                       requests, query.limit)
    decreases requests
  {
    hide ListsSoFar;
    var all := Sort(NewestFirst, Matching(events, query, after));
    if requests == 0 {
      NoRequest(all, query.limit);
    } else {
      var page := FetchPage(events, query, after);
      FollowStep(events, query, after, requests);
      PageIsFront(events, query, after);
      if page.next.None? {
        LastPage(all, requests, query.limit);
      } else {
        PagesListFrom(events, query, page.next, requests - 1);
        MorePages(all, Follow(Unchanged(events, requests - 1), query, page.next), requests, query.limit);
      }
    }
  }

  /** On a fixed table the walk finishes exactly after ceil(n / limit) requests
      (one when nothing matches), and the pages, in order, are the whole sorted
      list of the matching rows. */
  lemma PagesListTheTable(events: set<Event>, query: Query, after: Option<Cursor>, requests: nat)
    requires Keyed(events) && query.limit >= 1
    ensures requests * query.limit >= 0
    ensures var all := Sort(NewestFirst, Matching(events, query, after));
      var walk := Follow(Unchanged(events, requests), query, after);
      && (walk.finished <==> requests >= PagesFor(|all|, query.limit))
      && walk.items == Take(all, requests * query.limit)
  {
    RowsOnIsProduct(requests, query.limit);
    PagesListFrom(events, query, after, requests);
  }

  /** One request of a walk over an unchanged table. */
  lemma FollowStep(events: set<Event>, query: Query, after: Option<Cursor>, requests: nat)
    requires Keyed(events) && query.limit >= 1 && requests > 0
    ensures var page := FetchPage(events, query, after);
      var walk := Follow(Unchanged(events, requests), query, after);
      && (page.next.None? ==> walk == Walk(page.items, true))
      && (page.next.Some? ==>
        var rest := Follow(Unchanged(events, requests - 1), query, page.next);
        walk == Walk(page.items + rest.items, rest.finished))
  {
    assert Unchanged(events, requests)[1..] == Unchanged(events, requests - 1);
  }

  // --------------------------------------------------------------- purge

  /** A purge removes the oldest expired rows of one organization, up to the
      limit, and nothing else. */
  lemma PurgeTakesOldest(events: set<Event>, organization: int, before: int, limit: int)
    requires Keyed(events)
    ensures var expired := Sort(OldestFirst, Expired(events, organization, before));
      var batch := PurgeBatch(events, organization, before, limit);
      && |batch| == (if limit <= 0 then 0 else if |expired| < limit then |expired| else limit)
      && batch == expired[..|batch|]
      && Elements(batch) <= Expired(events, organization, before)
      && Purged(events, organization, before, limit) == events - Elements(batch)
      && |events| - |Purged(events, organization, before, limit)| == |batch|
  {
    var batch := PurgeBatch(events, organization, before, limit);
    var expired := Sort(OldestFirst, Expired(events, organization, before));
    forall e | e in batch ensures e in Expired(events, organization, before) {
      assert e in expired;
    }
    PurgedRows(events, organization, before, limit);
    ListingSize(OldestFirst, batch);
  }

  lemma PurgedRows(events: set<Event>, organization: int, before: int, limit: int)
    requires Keyed(events)
    requires Elements(PurgeBatch(events, organization, before, limit)) <= events
    ensures Purged(events, organization, before, limit) == events - Elements(PurgeBatch(events, organization, before, limit))
  {
    var batch := PurgeBatch(events, organization, before, limit);
    forall e | e in events
      ensures e in Purged(events, organization, before, limit) <==> e !in Elements(batch)
    {
      if e.id in (set b | b in batch :: b.id) {
        var b :| b in batch && b.id == e.id;
        assert b in Elements(batch);
        assert b == e;
      }
    }
  }

  ghost function PurgeTimes(events: set<Event>, organization: int, before: int, limit: nat, calls: nat): (rest: set<Event>)
    requires Keyed(events)
    ensures Keyed(rest)
  {
    if calls == 0 then events
    else PurgeTimes(Purged(events, organization, before, limit), organization, before, limit, calls - 1)
  }

  /** After `calls` purges exactly the first calls * limit expired rows, oldest
      first, are gone, and the other expired rows are still next in line. */
  lemma {:induction false} RepeatedPurge(events: set<Event>, organization: int, before: int, limit: nat, calls: nat)
    requires Keyed(events) && limit >= 1
    ensures var expired := Sort(OldestFirst, Expired(events, organization, before));
      var rest := PurgeTimes(events, organization, before, limit, calls);
      var gone := Take(expired, calls * limit);
      && rest == events - Elements(gone)
      && Sort(OldestFirst, Expired(rest, organization, before)) == expired[|gone|..]
    decreases calls
  {
    if calls > 0 {
      var expired := Sort(OldestFirst, Expired(events, organization, before));
      var next := Purged(events, organization, before, limit);
      OnePurge(events, organization, before, limit);
      RepeatedPurge(next, organization, before, limit, calls - 1);
      Multiple(calls, limit);
      TakeMore(expired, limit, (calls - 1) * limit);
    }
  }

  lemma OnePurge(events: set<Event>, organization: int, before: int, limit: nat)
    requires Keyed(events) && limit >= 1
    ensures var expired := Sort(OldestFirst, Expired(events, organization, before));
      var next := Purged(events, organization, before, limit);
      var gone := Take(expired, limit);
      && next == events - Elements(gone)
      && Sort(OldestFirst, Expired(next, organization, before)) == expired[|gone|..]
  {
    PurgeTakesOldest(events, organization, before, limit);
    ExpiredAfterPurge(events, organization, before, limit);
  }

  /** So the purge after `calls` purges removes something iff calls * limit is
      below the number of expired rows, and then it removes what is left of
      them up to the limit. */
  lemma PurgeCallCount(events: set<Event>, organization: int, before: int, limit: nat, calls: nat)
    requires Keyed(events) && limit >= 1
    ensures var expired := |Expired(events, organization, before)|;
      var rest := PurgeTimes(events, organization, before, limit, calls);
      |rest| - |Purged(rest, organization, before, limit)|
      == if calls * limit >= expired then 0 else if expired - calls * limit < limit then expired - calls * limit else limit
  {
    var rest := PurgeTimes(events, organization, before, limit, calls);
    RepeatedPurge(events, organization, before, limit, calls);
    SortSize(OldestFirst, Expired(events, organization, before));
    PurgeTakesOldest(rest, organization, before, limit);
  }

  lemma TakeMore(rows: seq<Event>, first: nat, more: nat)
    ensures var front := Take(rows, first);
      var next := Take(rows[|front|..], more);
      && Take(rows, first + more) == front + next
      && Elements(Take(rows, first + more)) == Elements(front) + Elements(next)
      && rows[|front|..][|next|..] == rows[|Take(rows, first + more)|..]
  {
  }

  lemma ExpiredAfterPurge(events: set<Event>, organization: int, before: int, limit: int)
    requires Keyed(events)
    ensures var batch := PurgeBatch(events, organization, before, limit);
      Sort(OldestFirst, Expired(Purged(events, organization, before, limit), organization, before))
      == Sort(OldestFirst, Expired(events, organization, before))[|batch|..]
  {
    var batch := PurgeBatch(events, organization, before, limit);
    PurgeTakesOldest(events, organization, before, limit);
    SortedRest(OldestFirst, Expired(events, organization, before), |batch|);
    ExpiredWithout(events, Elements(batch), organization, before);
  }

  lemma ExpiredWithout(events: set<Event>, gone: set<Event>, organization: int, before: int)
    ensures Expired(events - gone, organization, before) == Expired(events, organization, before) - gone
  {
  }

  // ------------------------------------------------------------ by columns

  /** Newer rows come first, and of rows of one instant those with the greater id,
      in every walk. */
  lemma WalkIsNewestFirst(tables: seq<set<Event>>, query: Query, after: Option<Cursor>)
    requires query.limit >= 1 && forall t :: t in tables ==> Keyed(t)
    ensures var items := Follow(tables, query, after).items;
      forall i, j :: 0 <= i < j < |items| ==>
        items[i].createdAt > items[j].createdAt
        || (items[i].createdAt == items[j].createdAt && items[i].id > items[j].id)
  {
    FollowDescends(tables, query, after);
    var items := Follow(tables, query, after).items;
    forall i, j | 0 <= i < j < |items|
      ensures items[i].createdAt > items[j].createdAt
              || (items[i].createdAt == items[j].createdAt && items[i].id > items[j].id)
    {
      assert Precedes(NewestFirst, items[i].Position(), items[j].Position());
    }
  }

  /** A row to purge. */
  predicate IsDue(e: Event, organization: int, before: int) {
    e.organization == organization && e.createdAt < before
  }

  lemma ExpiredAreDue(events: set<Event>, organization: int, before: int)
    ensures Expired(events, organization, before) == set e | e in events && IsDue(e, organization, before)
  {
  }

  predicate IsOlder(a: Event, b: Event) {
    a.createdAt < b.createdAt || (a.createdAt == b.createdAt && a.id < b.id)
  }

  /** A purge takes due rows only, takes as many as the limit allows, and takes
      none that is newer than a due row that it leaves. */
  lemma PurgeTakesDueRows(events: set<Event>, organization: int, before: int, limit: int)
    requires Keyed(events)
    ensures var rest := Purged(events, organization, before, limit);
      var due := |set e | e in events && IsDue(e, organization, before)|;
      && rest <= events
      && (forall e :: e in events && e !in rest ==> IsDue(e, organization, before))
      && |events| - |rest| == (if limit <= 0 then 0 else if due < limit then due else limit)
      && (forall gone, kept :: gone in events && gone !in rest && kept in rest && IsDue(kept, organization, before) ==> IsOlder(gone, kept))
  {
    var expired := Sort(OldestFirst, Expired(events, organization, before));
    var batch := PurgeBatch(events, organization, before, limit);
    var rest := Purged(events, organization, before, limit);
    PurgeTakesOldest(events, organization, before, limit);
    SortSize(OldestFirst, Expired(events, organization, before));
    ExpiredAreDue(events, organization, before);
    forall gone, kept | gone in events && gone !in rest && kept in rest && IsDue(kept, organization, before)
      ensures IsOlder(gone, kept)
    {
      assert gone in batch && kept in expired && kept !in batch;
      var j :| 0 <= j < |expired| && expired[j] == kept;
      var i :| 0 <= i < |batch| && batch[i] == gone;
      MemberBySide(OldestFirst, expired, |batch|, j);
      assert Precedes(OldestFirst, expired[i].Position(), expired[j].Position());
    }
  }

  lemma SubsetOfSize<T>(a: set<T>, b: set<T>)
    requires a <= b && |a| == |b|
    ensures a == b
  {
    var more := b - a;
    assert a + more == b && a !! more;
    assert |b| == |a| + |more|;
  }

  lemma SizeOfRest<T>(all: set<T>, rest: set<T>)
    requires rest <= all
    ensures |all - rest| == |all| - |rest|
  {
    assert (all - rest) !! rest && (all - rest) + rest == all;
  }

  /** A purge that removed fewer rows than its limit has left no due row. */
  lemma ShortPurgeIsComplete(events: set<Event>, organization: int, before: int, limit: int)
    requires Keyed(events) && limit >= 1
    requires |events| - |Purged(events, organization, before, limit)| < limit
    ensures forall e :: e in Purged(events, organization, before, limit) ==> e.organization != organization || e.createdAt >= before
  {
    hide Purged;
    var rest := Purged(events, organization, before, limit);
    var due := set e | e in events && IsDue(e, organization, before);
    PurgeTakesDueRows(events, organization, before, limit);
    SizeOfRest(events, rest);
    SubsetOfSize(events - rest, due);
    forall e | e in rest
      ensures e.organization != organization || e.createdAt >= before
    {
      assert e !in events - rest;
      assert e !in due;
    }
  }

  /** Enough purges leave exactly the rows of other organizations and those from
      the cutoff on. */
  lemma EnoughPurges(events: set<Event>, organization: int, before: int, limit: nat, calls: nat)
    requires Keyed(events) && limit >= 1
    requires calls * limit >= |set e | e in events && IsDue(e, organization, before)|
    ensures PurgeTimes(events, organization, before, limit, calls)
         == set e | e in events && (e.organization != organization || e.createdAt >= before)
  {
    var expired := Sort(OldestFirst, Expired(events, organization, before));
    ExpiredAreDue(events, organization, before);
    SortSize(OldestFirst, Expired(events, organization, before));
    RepeatedPurge(events, organization, before, limit, calls);
    assert Take(expired, calls * limit) == expired;
    assert Elements(expired) == Expired(events, organization, before);
  }
}
