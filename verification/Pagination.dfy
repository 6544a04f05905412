/** Paged lists of applications: default applications first, then the others, by two queries. */
module Pagination {

  datatype App = App(name: string, isDefault: bool)

  /** The rows a query for one value of isDefault goes through. */
  function Select(table: seq<App>, isDefault: bool): seq<App> {
    if table == [] then []
    else
      var k := |table| - 1;
      Select(table[..k], isDefault) + (if table[k].isDefault == isDefault then [table[k]] else [])
  }

  /** Exactly the applications of that kind, in the order of the table. */
  lemma {:induction false} SelectFilters(a: seq<App>, b: seq<App>, isDefault: bool)
    ensures Select(a + b, isDefault) == Select(a, isDefault) + Select(b, isDefault)
    decreases |b|
  {
    if b == [] {
      assert a + b == a;
    } else {
      var k := |b| - 1;
      SelectFilters(a, b[..k], isDefault);
      assert (a + b)[..|a + b| - 1] == a + b[..k];
    }
  }

  lemma SelectOne(app: App, isDefault: bool)
    ensures Select([], isDefault) == []
    ensures Select([app], isDefault) == if app.isDefault == isDefault then [app] else []
  {
    assert [app][..0] == [];
  }

  function Drop(s: seq<App>, n: nat): seq<App> {
    if n <= |s| then s[n..] else []
  }

  function Take(s: seq<App>, n: nat): seq<App> {
    if n <= |s| then s[..n] else s
  }

  /** A page of a list. */
  function Slice(s: seq<App>, offset: nat, limit: nat): seq<App> {
    Take(Drop(s, offset), limit)
  }

  /** As many as there are, up to the limit, from the offset on. */
  lemma SliceEntries(s: seq<App>, offset: nat, limit: nat)
    ensures var page := Slice(s, offset, limit);
            && |page| == (if offset + limit <= |s| then limit
                          else if offset <= |s| then |s| - offset else 0)
            && forall i | 0 <= i < |page| :: page[i] == s[offset + i]
  {
  }

  /** A query; a limit of zero counts as none. */
  function Find(table: seq<App>, isDefault: bool, offset: nat, limit: nat): seq<App> {
    var rows := Drop(Select(table, isDefault), offset);
    if limit == 0 then rows else Take(rows, limit)
  }

  /** The list that is paged. */
  function Listing(table: seq<App>): seq<App> {
    Select(table, true) + Select(table, false)
  }

  lemma {:induction false} ListingHasEveryAppOnce(table: seq<App>)
    ensures multiset(Listing(table)) == multiset(table)
  {
    if table != [] {
      var init, last := table[..|table| - 1], table[|table| - 1];
      ListingHasEveryAppOnce(init);
      assert table == init + [last];
      var d, n := Select(init, true), Select(init, false);
      assert multiset(Listing(table)) == multiset(d) + multiset(n) + multiset{last};
    }
  }

  lemma TwoPartSlice(d: seq<App>, n: seq<App>, offset: nat, limit: nat)
    ensures |Drop(d, offset)| >= limit ==> Slice(d + n, offset, limit) == Slice(d, offset, limit)
    ensures |Drop(d, offset)| < limit ==>
      Slice(d + n, offset, limit) == Drop(d, offset)
        + Slice(n, if offset > |d| then offset - |d| else 0, limit - |Drop(d, offset)|)
  {
    if offset <= |d| {
      assert Drop(d + n, offset) == Drop(d, offset) + n;
    } else {
      assert Drop(d + n, offset) == Drop(n, offset - |d|);
    }
  }

  /** The list endpoint. Its pages are the slices of the listing, except that a limit of zero gives
      all remaining default applications. */
  method GetMetaList(table: seq<App>, offset: nat, limit: nat) returns (data: seq<App>)
    ensures limit > 0 ==> data == Slice(Listing(table), offset, limit)
    ensures limit == 0 ==> data == Drop(Select(table, true), offset)
    ensures data == Slice(Listing(table), offset, limit)
            <==> (limit > 0 || offset >= |Select(table, true)|)
  {
    hide Select;
    TwoPartSlice(Select(table, true), Select(table, false), offset, limit);
    data := Find(table, true, offset, limit);
    if |data| < limit {
      var remaining := limit - |data|;
      var total := |Select(table, true)|;
      var newOffset := if offset - total > 0 then offset - total else 0;
      data := data + Find(table, false, newOffset, remaining);
    }
  }

  /** Whether the request restricts the list to default applications. */
  datatype Choice = Any | OnlyDefault

  /** The metadata endpoint: fetches three times the rows asked for
      (there are three networks), and cuts the page out of them. */
  method GetMetadata(table: seq<App>, choice: Choice, offset: nat, limit: nat)
    returns (data: seq<App>)
    ensures choice == Any ==> data == Slice(Listing(table), offset, limit)
    ensures choice == OnlyDefault ==> data == Slice(Select(table, true), offset, limit)
  {
    hide Select;
    TwoPartSlice(Select(table, true), Select(table, false), offset, limit);
    var fetched := 3 * limit;
    data := Find(table, true, offset, fetched);
    if choice == Any && |data| < limit {
      var total := |Select(table, true)|;
      var newOffset := if offset - total > 0 then offset - total else 0;
      assert data == Drop(Select(table, true), offset);
      data := data + Find(table, false, newOffset, fetched);
    }
    data := Take(data, limit);
  }

  /** The pages one after the other. */
  ghost function Pages(table: seq<App>, limit: nat, count: nat): seq<App> {
    if count == 0 then []
    else Pages(table, limit, count - 1) + Slice(Listing(table), (count - 1) * limit, limit)
  }

  lemma NextPage(s: seq<App>, m: nat, limit: nat)
    ensures Take(s, m) + Slice(s, m, limit) == Take(s, m + limit)
  {
  }

  lemma {:induction false} PagesArePrefix(table: seq<App>, limit: nat, count: nat)
    ensures Pages(table, limit, count) == Take(Listing(table), count * limit)
  {
    hide Listing;
    if count > 0 {
      PagesArePrefix(table, limit, count - 1);
      var m := (count - 1) * limit;
      assert count * limit == m + limit;
      hide Take, Slice;
      NextPage(Listing(table), m, limit);
    }
  }

  lemma SameSize(s: seq<App>, t: seq<App>)
    requires multiset(s) == multiset(t)
    ensures |s| == |t|
  {
    assert |multiset(s)| == |s| && |multiset(t)| == |t|;
  }

  /** Reading page after page shows every application exactly once. */
  lemma PagesShowEveryAppOnce(table: seq<App>, limit: nat, count: nat)
    requires count * limit >= |table|
    ensures multiset(Pages(table, limit, count)) == multiset(table)
  {
    hide Listing, Pages;
    ListingHasEveryAppOnce(table);
    PagesArePrefix(table, limit, count);
    SameSize(Listing(table), table);
    assert Take(Listing(table), count * limit) == Listing(table);
  }
}
