/**
 * The public listing of requests: equality filters that a sentinel value
 * switches off, a status filter that defaults to `open`, an optional paid-only
 * and full-text filter, newest-first order, and every row stripped of its
 * contact value. Both `getRequests` and `GET /api/requests` run this query.
 */
module Listing {
  import opened Optional
  import opened Domain

  const AllDistricts := "Все районы"
  const AllCategories := "Все категории"
  const AllUrgencies := "all"

  /**
   * PostgreSQL's `websearch` text search (Russian configuration) of a query
   * against a title and a description; its semantics are not modelled.
   */
  type TextMatch = (string, string, string) -> bool

  datatype Filters = Filters(
    district: Option<string>,
    category: Option<string>,
    urgency: Option<string>,
    paidOnly: bool,
    search: Option<string>,
    status: Option<string>)

  /** The value an equality filter compares with, or None when it is skipped. */
  function EqFilter(value: Option<string>, sentinel: string): (r: Option<string>)
    ensures r.Some? <==> value.Some? && value.value != "" && value.value != sentinel
    ensures r.Some? ==> r == value
  {
    if Truthy(value) && value.value != sentinel then value else None
  }

  /** `filters.status || 'open'` */
  function EffectiveStatus(f: Filters): (s: string)
    ensures Truthy(f.status) ==> s == f.status.value
    ensures !Truthy(f.status) ==> s == "open"
  {
    if Truthy(f.status) then f.status.value else "open"
  }

  predicate Matches(f: Filters, textMatch: TextMatch, r: Request)
  {
    && StatusText(r.status) == EffectiveStatus(f)
    && (EqFilter(f.district, AllDistricts).Some? ==> r.district == f.district.value)
    && (EqFilter(f.category, AllCategories).Some? ==> r.category == f.category.value)
    && (EqFilter(f.urgency, AllUrgencies).Some? ==> r.urgency == f.urgency.value)
    && (f.paidOnly ==> r.rewardType == Money)
    && (Truthy(f.search) ==> textMatch(f.search.value, r.title, r.description))
  }

  /** The rows the query's WHERE clause keeps, in storage order. */
  function Select(f: Filters, textMatch: TextMatch, rows: seq<Request>): (kept: seq<Request>)
    ensures |kept| <= |rows|
  {
    if rows == [] then []
    else (if Matches(f, textMatch, rows[0]) then [rows[0]] else []) + Select(f, textMatch, rows[1..])
  }

  /** Places `r` before the first row that is not newer than it. */
  function InsertNewest(r: Request, xs: seq<Request>): seq<Request>
  {
    if xs == [] || r.createdAt >= xs[0].createdAt then [r] + xs
    else [xs[0]] + InsertNewest(r, xs[1..])
  }

  /** `.order('created_at', { ascending: false })` */
  function SortNewestFirst(xs: seq<Request>): seq<Request>
  {
    if xs == [] then [] else InsertNewest(xs[0], SortNewestFirst(xs[1..]))
  }

  ghost predicate RowsNewestFirst(xs: seq<Request>)
  {
    forall i, j :: 0 <= i < j < |xs| ==> xs[i].createdAt >= xs[j].createdAt
  }

  ghost predicate NewestFirst(xs: seq<SafeRequest>)
  {
    forall i, j :: 0 <= i < j < |xs| ==> xs[i].createdAt >= xs[j].createdAt
  }

  /** The listing: filter, newest first, without `contact_value`. */
  function Query(f: Filters, textMatch: TextMatch, rows: seq<Request>): seq<SafeRequest>
  {
    RedactAll(SortNewestFirst(Select(f, textMatch, rows)))
  }

  /**
   * Splitting the rows splits the selection: the kept rows stay in storage
   * order, each as often as it is stored.
   */
  lemma {:induction false} SelectAppend(f: Filters, textMatch: TextMatch, a: seq<Request>, b: seq<Request>)
    ensures Select(f, textMatch, a + b) == Select(f, textMatch, a) + Select(f, textMatch, b)
  {
    if a == [] {
      assert a + b == b;
    } else {
      assert (a + b)[0] == a[0];
      assert (a + b)[1..] == a[1..] + b;
      SelectAppend(f, textMatch, a[1..], b);
    }
  }

  /** Select keeps exactly the matching rows. */
  lemma {:induction false} SelectKeepsMatches(f: Filters, textMatch: TextMatch, rows: seq<Request>)
    ensures forall r :: r in Select(f, textMatch, rows) <==> r in rows && Matches(f, textMatch, r)
  {
    if rows != [] {
      SelectKeepsMatches(f, textMatch, rows[1..]);
      assert rows == [rows[0]] + rows[1..];
    }
  }

  lemma {:induction false} InsertNewestPermutes(r: Request, xs: seq<Request>)
    ensures multiset(InsertNewest(r, xs)) == multiset(xs) + multiset{r}
  {
    if xs != [] && r.createdAt < xs[0].createdAt {
      InsertNewestPermutes(r, xs[1..]);
      assert xs == [xs[0]] + xs[1..];
    }
  }

  lemma {:induction false} InsertNewestSorted(r: Request, xs: seq<Request>)
    requires RowsNewestFirst(xs)
    ensures RowsNewestFirst(InsertNewest(r, xs))
  {
    if xs != [] && r.createdAt < xs[0].createdAt {
      TailNewestFirst(xs);
      InsertNewestSorted(r, xs[1..]);
      InsertNewestBounded(r, xs[1..], xs[0].createdAt);
      ConsNewestFirst(xs[0], InsertNewest(r, xs[1..]));
    } else if xs != [] {
      ConsNewestFirst(r, xs);
    }
  }

  /** The rows after the first of a newest-first list are newest first and no newer than it. */
  lemma TailNewestFirst(xs: seq<Request>)
    requires xs != [] && RowsNewestFirst(xs)
    ensures RowsNewestFirst(xs[1..])
    ensures forall k :: 0 <= k < |xs[1..]| ==> xs[1..][k].createdAt <= xs[0].createdAt
  {
    forall i, j | 0 <= i < j < |xs[1..]| ensures xs[1..][i].createdAt >= xs[1..][j].createdAt {
      assert xs[1..][i] == xs[i + 1] && xs[1..][j] == xs[j + 1];
    }
  }

  /** A row no older than every row of a newest-first list can go in front of it. */
  lemma ConsNewestFirst(x: Request, ys: seq<Request>)
    requires RowsNewestFirst(ys)
    requires forall k :: 0 <= k < |ys| ==> ys[k].createdAt <= x.createdAt
    ensures RowsNewestFirst([x] + ys)
  {
    var zs := [x] + ys;
    forall i, j | 0 <= i < j < |zs| ensures zs[i].createdAt >= zs[j].createdAt {
      assert zs[j] == ys[j - 1];
      if i > 0 {
        assert zs[i] == ys[i - 1];
      }
    }
  }

  /** Inserting a row no newer than `bound` into rows no newer than `bound` keeps them so. */
  lemma {:induction false} InsertNewestBounded(r: Request, xs: seq<Request>, bound: int)
    requires r.createdAt <= bound
    requires forall k :: 0 <= k < |xs| ==> xs[k].createdAt <= bound
    ensures forall k :: 0 <= k < |InsertNewest(r, xs)| ==> InsertNewest(r, xs)[k].createdAt <= bound
  {
    if xs != [] && r.createdAt < xs[0].createdAt {
      assert forall k :: 0 <= k < |xs[1..]| ==> xs[1..][k] == xs[k + 1];
      InsertNewestBounded(r, xs[1..], bound);
      var zs := [xs[0]] + InsertNewest(r, xs[1..]);
      forall k | 0 <= k < |zs| ensures zs[k].createdAt <= bound {
        if k > 0 {
          assert zs[k] == InsertNewest(r, xs[1..])[k - 1];
        }
      }
    } else {
      var zs := [r] + xs;
      forall k | 0 <= k < |zs| ensures zs[k].createdAt <= bound {
        if k > 0 {
          assert zs[k] == xs[k - 1];
        }
      }
    }
  }

  /** The order is newest first and no row is lost or added. */
  lemma {:induction false} SortNewestFirstSpec(xs: seq<Request>)
    ensures RowsNewestFirst(SortNewestFirst(xs))
    ensures multiset(SortNewestFirst(xs)) == multiset(xs)
  {
    if xs != [] {
      SortNewestFirstSpec(xs[1..]);
      var rest := SortNewestFirst(xs[1..]);
      InsertNewestSorted(xs[0], rest);
      assert multiset(SortNewestFirst(xs)) == multiset(xs) by {
        InsertNewestPermutes(xs[0], rest);
        assert xs == [xs[0]] + xs[1..];
      }
    }
  }

  /** Sorting keeps exactly the rows it is given, and their number. */
  lemma SortKeepsMembers(xs: seq<Request>)
    ensures forall r :: r in SortNewestFirst(xs) <==> r in xs
    ensures |SortNewestFirst(xs)| == |xs|
  {
    SortNewestFirstSpec(xs);
    var sorted := SortNewestFirst(xs);
    forall r ensures r in sorted <==> r in xs {
      assert r in sorted <==> r in multiset(sorted);
      assert r in xs <==> r in multiset(xs);
    }
    assert |sorted| == |multiset(sorted)| == |multiset(xs)| == |xs|;
  }

  /** Listing rows come newest first. */
  lemma QueryNewestFirst(f: Filters, textMatch: TextMatch, rows: seq<Request>)
    ensures NewestFirst(Query(f, textMatch, rows))
  {
    SortNewestFirstSpec(Select(f, textMatch, rows));
  }

  /**
   * Every listed item is the redaction of a stored row that passes every
   * filter, and every stored row that passes them is listed.
   */
  lemma QueryIsFilteredRows(f: Filters, textMatch: TextMatch, rows: seq<Request>)
    ensures forall s :: s in Query(f, textMatch, rows) <==>
      exists r :: r in rows && Matches(f, textMatch, r) && Redact(r) == s
    ensures |Query(f, textMatch, rows)| == |Select(f, textMatch, rows)|
  {
    var sel := Select(f, textMatch, rows);
    SelectKeepsMatches(f, textMatch, rows);
    SortKeepsMembers(sel);
    var sorted := SortNewestFirst(sel);
    var q := Query(f, textMatch, rows);
    forall s | s in q ensures exists r :: r in rows && Matches(f, textMatch, r) && Redact(r) == s {
      var i :| 0 <= i < |q| && q[i] == s;
      assert sorted[i] in sorted;
    }
    forall r | r in rows && Matches(f, textMatch, r) ensures Redact(r) in q {
      var i :| 0 <= i < |sorted| && sorted[i] == r;
      assert q[i] == Redact(r);
    }
  }

  /**
   * What a caller sees of the filters: every listed item has the requested
   * status (`open` when none is given), the requested district, category and
   * urgency unless those are absent or their "all" sentinel, and a money reward
   * under paid-only.
   */
  lemma QueryRespectsFilters(f: Filters, textMatch: TextMatch, rows: seq<Request>)
    ensures forall s :: s in Query(f, textMatch, rows) ==>
      && StatusText(s.status) == EffectiveStatus(f)
      && (!Truthy(f.status) ==> s.status == Open)
      && (EqFilter(f.district, AllDistricts).Some? ==> s.district == f.district.value)
      && (EqFilter(f.category, AllCategories).Some? ==> s.category == f.category.value)
      && (EqFilter(f.urgency, AllUrgencies).Some? ==> s.urgency == f.urgency.value)
      && (f.paidOnly ==> s.rewardType == Money)
  {
    QueryIsFilteredRows(f, textMatch, rows);
  }

  lemma MatchesIgnoresContact(f: Filters, textMatch: TextMatch, r: Request, r': Request)
    requires Redact(r) == Redact(r')
    ensures Matches(f, textMatch, r) == Matches(f, textMatch, r')
  {
    assert r.status == Redact(r).status && r'.status == Redact(r').status;
  }

  lemma {:induction false} SelectIgnoresContacts(f: Filters, textMatch: TextMatch, rows: seq<Request>, rows': seq<Request>)
    requires RedactAll(rows) == RedactAll(rows')
    ensures RedactAll(Select(f, textMatch, rows)) == RedactAll(Select(f, textMatch, rows'))
  {
    if rows != [] {
      assert rows' != [];
      RedactAllTail(rows);
      RedactAllTail(rows');
      SelectIgnoresContacts(f, textMatch, rows[1..], rows'[1..]);
      MatchesIgnoresContact(f, textMatch, rows[0], rows'[0]);
      var h := if Matches(f, textMatch, rows[0]) then [rows[0]] else [];
      var h' := if Matches(f, textMatch, rows'[0]) then [rows'[0]] else [];
      assert RedactAll(h) == RedactAll(h');
      RedactAllAppend(h, Select(f, textMatch, rows[1..]));
      RedactAllAppend(h', Select(f, textMatch, rows'[1..]));
    }
  }

  lemma {:induction false} InsertIgnoresContacts(r: Request, xs: seq<Request>, r': Request, xs': seq<Request>)
    requires Redact(r) == Redact(r') && RedactAll(xs) == RedactAll(xs')
    ensures RedactAll(InsertNewest(r, xs)) == RedactAll(InsertNewest(r', xs'))
  {
    assert |xs| == |xs'|;
    assert r.createdAt == Redact(r).createdAt && r'.createdAt == Redact(r').createdAt;
    if xs != [] {
      RedactAllTail(xs);
      RedactAllTail(xs');
      assert xs[0].createdAt == Redact(xs[0]).createdAt == Redact(xs'[0]).createdAt == xs'[0].createdAt;
      if r.createdAt < xs[0].createdAt {
        InsertIgnoresContacts(r, xs[1..], r', xs'[1..]);
        RedactAllAppend([xs[0]], InsertNewest(r, xs[1..]));
        RedactAllAppend([xs'[0]], InsertNewest(r', xs'[1..]));
        assert RedactAll([xs[0]]) == RedactAll([xs'[0]]);
      } else {
        RedactAllAppend([r], xs);
        RedactAllAppend([r'], xs');
        assert RedactAll([r]) == RedactAll([r']);
      }
    } else {
      assert xs' == [];
      assert RedactAll([r]) == RedactAll([r']);
    }
  }

  lemma {:induction false} SortIgnoresContacts(xs: seq<Request>, xs': seq<Request>)
    requires RedactAll(xs) == RedactAll(xs')
    ensures RedactAll(SortNewestFirst(xs)) == RedactAll(SortNewestFirst(xs'))
  {
    assert |xs| == |xs'|;
    if xs != [] {
      RedactAllTail(xs);
      RedactAllTail(xs');
      SortIgnoresContacts(xs[1..], xs'[1..]);
      InsertIgnoresContacts(xs[0], SortNewestFirst(xs[1..]), xs'[0], SortNewestFirst(xs'[1..]));
    }
  }

  /**
   * The listing does not depend on any contact value: stores that differ only
   * in contacts list exactly the same items.
   */
  lemma QueryIgnoresContacts(f: Filters, textMatch: TextMatch, rows: seq<Request>, rows': seq<Request>)
    requires RedactAll(rows) == RedactAll(rows')
    ensures Query(f, textMatch, rows) == Query(f, textMatch, rows')
  {
    SelectIgnoresContacts(f, textMatch, rows, rows');
    SortIgnoresContacts(Select(f, textMatch, rows), Select(f, textMatch, rows'));
  }
}
