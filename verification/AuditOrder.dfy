/** Audit rows in the order `(created_at, id)`: what ORDER BY and LIMIT return,
    independently of how the rows are stored. */
module AuditOrder {

  /** A row; `content` stands for the columns that neither paging nor purging
      reads.  Identifiers are compared like the database compares UUIDs. */
  datatype Event = Event(id: int, organization: int, createdAt: int, content: string) {
    function Position(): Cursor {
      Cursor(createdAt, id)
    }
  }

  datatype Cursor = Cursor(createdAt: int, tieBreakerId: int) {
    predicate OlderThan(other: Cursor) {
      createdAt < other.createdAt || (createdAt == other.createdAt && tieBreakerId < other.tieBreakerId)
    }
  }

  datatype Direction = OldestFirst | NewestFirst

  predicate Precedes(direction: Direction, a: Cursor, b: Cursor) {
    match direction
    case OldestFirst => a.OlderThan(b)
    case NewestFirst => b.OlderThan(a)
  }

  /** The primary key: no two rows share an identifier. */
  ghost predicate Keyed(rows: set<Event>) {
    forall a, b :: a in rows && b in rows && a.id == b.id ==> a == b
  }

  ghost predicate Ordered(direction: Direction, rows: seq<Event>) {
    forall i, j :: 0 <= i < j < |rows| ==> Precedes(direction, rows[i].Position(), rows[j].Position())
  }

  predicate IsFirst(direction: Direction, rows: set<Event>, e: Event) {
    e in rows && forall other :: other in rows && other != e ==> Precedes(direction, e.Position(), other.Position())
  }

  lemma FirstExists(direction: Direction, rows: set<Event>)
    requires Keyed(rows) && rows != {}
    ensures exists e :: IsFirst(direction, rows, e)
  {
    var e :| e in rows;
    if rows == {e} {
      assert IsFirst(direction, rows, e);
    } else {
      var others := rows - {e};
      FirstExists(direction, others);
      var first :| IsFirst(direction, others, first);
      if Precedes(direction, e.Position(), first.Position()) {
        assert IsFirst(direction, rows, e);
      } else {
        assert IsFirst(direction, rows, first);
      }
    }
  }

  /** `sorted` lists the rows in order, each once. */
  ghost predicate Lists(direction: Direction, sorted: seq<Event>, rows: set<Event>) {
    Ordered(direction, sorted) && forall e :: e in sorted <==> e in rows
  }

  ghost function Elements(listing: seq<Event>): set<Event> {
    set e | e in listing
  }

  /** The rows after a position. */
  ghost function Behind(direction: Direction, rows: set<Event>, cursor: Cursor): set<Event> {
    set e | e in rows && Precedes(direction, cursor, e.Position())
  }

  lemma {:induction false} ListingExists(direction: Direction, rows: set<Event>)
    requires Keyed(rows)
    ensures exists listing :: Lists(direction, listing, rows)
  {
    if rows == {} {
      assert Lists(direction, [], rows);
    } else {
      FirstExists(direction, rows);
      var first :| IsFirst(direction, rows, first);
      ListingExists(direction, rows - {first});
      var rest :| Lists(direction, rest, rows - {first});
      PrependLists(direction, first, rest, rows);
    }
  }

  lemma PrependLists(direction: Direction, first: Event, rest: seq<Event>, rows: set<Event>)
    requires IsFirst(direction, rows, first) && Lists(direction, rest, rows - {first})
    ensures Lists(direction, [first] + rest, rows)
  {
    forall j | 0 <= j < |rest| ensures Precedes(direction, first.Position(), rest[j].Position()) {
      assert rest[j] in rest;
    }
    var listing := [first] + rest;
    forall e ensures e in listing <==> e in rows {
      assert e in listing <==> e == first || e in rest;
    }
  }

  /** ORDER BY created_at, id in the given direction: the one listing there is. */
  ghost function Sort(direction: Direction, rows: set<Event>): (sorted: seq<Event>)
    requires Keyed(rows)
    ensures Lists(direction, sorted, rows)
  {
    ListingExists(direction, rows);
    var listing :| Lists(direction, listing, rows);
    listing
  }

  /** LIMIT. */
  function Take(rows: seq<Event>, limit: nat): seq<Event> {
    if |rows| <= limit then rows else rows[..limit]
  }

  /** Two listings of the same rows are the same listing. */
  lemma {:induction false} ListingIsUnique(direction: Direction, a: seq<Event>, b: seq<Event>, rows: set<Event>)
    requires Lists(direction, a, rows) && Lists(direction, b, rows)
    ensures a == b
  {
    assert a != [] ==> a[0] in b;
    assert b != [] ==> b[0] in a;
    if a != [] {
      SameFirst(direction, a, b);
      TailLists(direction, a, rows);
      TailLists(direction, b, rows);
      ListingIsUnique(direction, a[1..], b[1..], rows - {a[0]});
    }
  }

  lemma SameFirst(direction: Direction, a: seq<Event>, b: seq<Event>)
    requires Ordered(direction, a) && Ordered(direction, b) && a != [] && b != []
    requires a[0] in b && b[0] in a
    ensures a[0] == b[0]
  {
    var i :| 0 <= i < |b| && b[i] == a[0];
    var j :| 0 <= j < |a| && a[j] == b[0];
    assert i > 0 ==> Precedes(direction, b[0].Position(), b[i].Position());
    assert j > 0 ==> Precedes(direction, a[0].Position(), a[j].Position());
  }

  lemma TailLists(direction: Direction, listing: seq<Event>, rows: set<Event>)
    requires Lists(direction, listing, rows) && listing != []
    ensures Lists(direction, listing[1..], rows - {listing[0]})
  {
    forall e ensures e in listing[1..] <==> e in rows - {listing[0]} {
      if e in listing && e != listing[0] {
        var i :| 0 <= i < |listing| && listing[i] == e;
        assert listing[1..][i - 1] == e;
      }
      if e in listing[1..] {
        var i :| 0 <= i < |listing[1..]| && listing[1..][i] == e;
        assert Precedes(direction, listing[0].Position(), listing[i + 1].Position());
      }
    }
  }

  /** A suffix of a listing lists the rows that are not in the prefix, which
      are those after its last row. */
  lemma SuffixLists(direction: Direction, listing: seq<Event>, rows: set<Event>, k: nat)
    requires Lists(direction, listing, rows) && k <= |listing|
    ensures Lists(direction, listing[k..], rows - Elements(listing[..k]))
    ensures k > 0 ==> rows - Elements(listing[..k]) == Behind(direction, rows, listing[k - 1].Position())
  {
    forall e ensures e in listing[k..] <==> e in rows && e !in listing[..k] {
      if e in listing {
        var i :| 0 <= i < |listing| && listing[i] == e;
        MemberBySide(direction, listing, k, i);
      }
    }
    if k > 0 {
      forall e | e in rows
        ensures e !in listing[..k] <==> Precedes(direction, listing[k - 1].Position(), e.Position())
      {
        assert e in listing;
        var i :| 0 <= i < |listing| && listing[i] == e;
        MemberBySide(direction, listing, k, i);
      }
    }
  }

  lemma MemberBySide(direction: Direction, listing: seq<Event>, k: nat, i: nat)
    requires Ordered(direction, listing) && k <= |listing| && i < |listing|
    ensures i < k <==> listing[i] in listing[..k]
    ensures i >= k <==> listing[i] in listing[k..]
    ensures k > 0 ==> (i >= k <==> Precedes(direction, listing[k - 1].Position(), listing[i].Position()))
  {
    if i < k {
      assert listing[..k][i] == listing[i];
    } else {
      assert listing[k..][i - k] == listing[i];
    }
    if listing[i] in listing[..k] {
      var j :| 0 <= j < k && listing[j] == listing[i];
      assert i == j;
    }
    if listing[i] in listing[k..] {
      var j :| 0 <= j < |listing| - k && listing[k..][j] == listing[i];
      assert i == j + k;
    }
  }

  lemma {:induction false} ListingSize(direction: Direction, listing: seq<Event>)
    requires Ordered(direction, listing)
    ensures |Elements(listing)| == |listing|
  {
    if listing != [] {
      var n := |listing| - 1;
      ListingSize(direction, listing[..n]);
      assert forall i :: 0 <= i < n ==> Precedes(direction, listing[i].Position(), listing[n].Position());
      assert listing[n] !in listing[..n];
      assert Elements(listing) == Elements(listing[..n]) + {listing[n]};
    }
  }

  lemma SortSize(direction: Direction, rows: set<Event>)
    requires Keyed(rows)
    ensures |Sort(direction, rows)| == |rows|
  {
    ListingSize(direction, Sort(direction, rows));
    assert Elements(Sort(direction, rows)) == rows;
  }

  lemma SortStep(direction: Direction, rows: set<Event>, first: Event)
    requires Keyed(rows) && IsFirst(direction, rows, first)
    ensures Sort(direction, rows) == [first] + Sort(direction, rows - {first})
  {
    PrependLists(direction, first, Sort(direction, rows - {first}), rows);
    ListingIsUnique(direction, [first] + Sort(direction, rows - {first}), Sort(direction, rows), rows);
  }

  function First(direction: Direction, rows: set<Event>): (first: Event)
    requires Keyed(rows) && rows != {}
    ensures IsFirst(direction, rows, first)
  {
    FirstExists(direction, rows);
    var first :| IsFirst(direction, rows, first);
    first
  }

  /** Evaluating ORDER BY: the first row, then the others. */
  function OrderBy(direction: Direction, rows: set<Event>): (sorted: seq<Event>)
    requires Keyed(rows)
    ensures sorted == Sort(direction, rows)
  {
    if rows == {} then
      ListingIsUnique(direction, [], Sort(direction, rows), rows);
      []
    else
      var first := First(direction, rows);
      SortStep(direction, rows, first);
      [first] + OrderBy(direction, rows - {first})
  }

  /** Sorting what is left after the first `k` sorted rows gives the rest. */
  lemma SortedRest(direction: Direction, rows: set<Event>, k: nat)
    requires Keyed(rows) && k <= |Sort(direction, rows)|
    ensures var sorted := Sort(direction, rows);
      && Sort(direction, rows - Elements(sorted[..k])) == sorted[k..]
      && (k > 0 ==> rows - Elements(sorted[..k]) == Behind(direction, rows, sorted[k - 1].Position()))
  {
    var sorted := Sort(direction, rows);
    var rest := rows - Elements(sorted[..k]);
    SuffixLists(direction, sorted, rows, k);
    ListingIsUnique(direction, Sort(direction, rest), sorted[k..], rest);
  }
}
