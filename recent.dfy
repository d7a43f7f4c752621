/**
 * `getRecentTransactions`: copy the stored records, sort the copy newest
 * date first, keep the first `limit` and turn each into its display form.
 */
module Recent {
  import opened Dates
  import opened Records

  /** How many records the recent list shows when no limit is given. */
  const DefaultLimit: int := 5

  predicate AllDatesWellFormed(ts: seq<Transaction>)
  {
    forall i :: 0 <= i < |ts| ==> WellFormedDate(ts[i].date)
  }

  /**
   * The calendar key by which the sort compares two records. Only records
   * with well-formed dates reach the sort, so the fallback is never used.
   */
  function DateOrder(t: Transaction): (key: int)
  {
    if WellFormedDate(t.date) then DateKey(t.date) else 0
  }

  /** No entry has a larger key than an entry before it. */
  predicate Descending(ts: seq<Transaction>, key: Transaction -> int)
  {
    forall i, j :: 0 <= i < j < |ts| ==> key(ts[i]) >= key(ts[j])
  }

  /** Inserts `t` before the first entry whose key is not larger than its own. */
  function Insert(t: Transaction, ts: seq<Transaction>, key: Transaction -> int): (r: seq<Transaction>)
    ensures |r| == |ts| + 1
    ensures multiset(r) == multiset(ts) + multiset{t}
    ensures forall x :: x in r <==> x == t || x in ts
    ensures Descending(ts, key) ==> Descending(r, key)
  {
    if ts == [] || key(t) >= key(ts[0]) then
      [t] + ts
    else
      var rest := Insert(t, ts[1..], key);
      assert ts == [ts[0]] + ts[1..];
      InsertStepDescending(t, ts, rest, key);
      [ts[0]] + rest
  }

  /**
   * Keeping the head and inserting past it keeps a descending sequence
   * descending, given that the insertion into the tail does.
   */
  lemma InsertStepDescending(t: Transaction, ts: seq<Transaction>, rest: seq<Transaction>, key: Transaction -> int)
    requires ts != [] && key(t) < key(ts[0])
    requires forall x :: x in rest ==> x == t || x in ts[1..]
    requires Descending(ts[1..], key) ==> Descending(rest, key)
    ensures Descending(ts, key) ==> Descending([ts[0]] + rest, key)
  {
    if Descending(ts, key) {
      assert Descending(ts[1..], key);
      HeadBoundsRest(t, ts, rest, key);
      PrependDescending(ts[0], rest, key);
    }
  }

  /**
   * The head of a descending sequence bounds every record drawn from its
   * tail or equal to a record with a smaller key.
   */
  lemma HeadBoundsRest(t: Transaction, ts: seq<Transaction>, rest: seq<Transaction>, key: Transaction -> int)
    requires ts != [] && Descending(ts, key) && key(t) < key(ts[0])
    requires forall x :: x in rest ==> x == t || x in ts[1..]
    ensures forall x :: x in rest ==> key(ts[0]) >= key(x)
  {
    forall x | x in rest ensures key(ts[0]) >= key(x) {
      if x != t {
        var k :| 0 <= k < |ts[1..]| && ts[1..][k] == x;
        assert ts[k + 1] == x;
      }
    }
  }

  /** A head no smaller than every entry keeps a descending sequence descending. */
  lemma PrependDescending(h: Transaction, ts: seq<Transaction>, key: Transaction -> int)
    requires Descending(ts, key)
    requires forall x :: x in ts ==> key(h) >= key(x)
    ensures Descending([h] + ts, key)
  {
    forall i, j | 0 <= i < j < |ts| + 1 ensures key(([h] + ts)[i]) >= key(([h] + ts)[j]) {
      if i == 0 {
        assert ([h] + ts)[j] == ts[j - 1];
        assert ts[j - 1] in ts;
      }
    }
  }

  /** Insertion sort by descending key. */
  function SortByKey(ts: seq<Transaction>, key: Transaction -> int): (r: seq<Transaction>)
    ensures |r| == |ts|
    ensures multiset(r) == multiset(ts)
    ensures Descending(r, key)
  {
    if ts == [] then []
    else
      assert ts == [ts[0]] + ts[1..];
      Insert(ts[0], SortByKey(ts[1..], key), key)
  }

  /** A record whose key beats every other record's comes first once sorted. */
  lemma SortHeadIsUniqueMax(ts: seq<Transaction>, key: Transaction -> int, t: Transaction)
    requires t in ts
    requires forall x :: x in ts && x != t ==> key(x) < key(t)
    ensures |SortByKey(ts, key)| > 0 && SortByKey(ts, key)[0] == t
  {
    var p := SortByKey(ts, key);
    assert p[0] in multiset(ts);
    assert t in multiset(p);
    var k :| 0 <= k < |p| && p[k] == t;
    assert key(p[0]) >= key(t);
  }

  /**
   * The records arranged newest date first: `[...ts].sort((a, b) =>
   * new Date(b.date) - new Date(a.date))`.
   */
  function SortNewestFirst(ts: seq<Transaction>): (r: seq<Transaction>)
    ensures |r| == |ts| && multiset(r) == multiset(ts)
  {
    SortByKey(ts, DateOrder)
  }

  /** No record is dated later than a record before it. */
  predicate NewestFirst(ts: seq<Transaction>)
    requires AllDatesWellFormed(ts)
  {
    forall i, j :: 0 <= i < j < |ts| ==> DateKey(ts[i].date) >= DateKey(ts[j].date)
  }

  /** The sorted copy holds the same records, newest date first. */
  lemma SortNewestFirstCorrect(ts: seq<Transaction>)
    requires AllDatesWellFormed(ts)
    ensures |SortNewestFirst(ts)| == |ts|
    ensures multiset(SortNewestFirst(ts)) == multiset(ts)
    ensures AllDatesWellFormed(SortNewestFirst(ts))
    ensures NewestFirst(SortNewestFirst(ts))
  {
    var r := SortNewestFirst(ts);
    forall i | 0 <= i < |r| ensures WellFormedDate(r[i].date) {
      assert r[i] in multiset(ts);
      var k :| 0 <= k < |ts| && ts[k] == r[i];
    }
    assert Descending(r, DateOrder);
  }

  /**
   * Where `slice(0, limit)` stops on a sequence of length `len`: a negative
   * limit counts back from the end, as in ECMAScript.
   */
  function SliceEnd(len: nat, limit: int): (n: nat)
    ensures n <= len
    ensures 0 <= limit ==> n <= limit
  {
    if limit < 0 then (if len + limit < 0 then 0 else len + limit)
    else if limit < len then limit
    else len
  }

  /** `.map(...)` to display form, entry by entry. */
  function MapDisplay(ts: seq<Transaction>): (r: seq<DisplayTransaction>)
    ensures |r| == |ts|
    ensures forall i :: 0 <= i < |ts| ==> r[i] == ToDisplay(ts[i])
  {
    if ts == [] then [] else [ToDisplay(ts[0])] + MapDisplay(ts[1..])
  }

  /** The recent list of `getRecentTransactions(limit)` over the stored records. */
  function RecentView(ts: seq<Transaction>, limit: int := DefaultLimit): (r: seq<DisplayTransaction>)
    requires AllDatesWellFormed(ts)
    ensures |r| <= |ts| && (0 <= limit ==> |r| <= limit)
  {
    MapDisplay(SortNewestFirst(ts)[..SliceEnd(|ts|, limit)])
  }

  /** A newest-first arrangement of exactly the records of `ts`. */
  predicate IsNewestFirstArrangement(p: seq<Transaction>, ts: seq<Transaction>)
  {
    multiset(p) == multiset(ts) && AllDatesWellFormed(p) && NewestFirst(p)
  }

  /**
   * The recent list has `min(limit, |ts|)` entries for a non-negative limit
   * (five without one, none for zero); a negative limit drops that many
   * entries from the end.
   */
  lemma RecentLength(ts: seq<Transaction>, limit: int)
    requires AllDatesWellFormed(ts)
    ensures 0 <= limit ==> |RecentView(ts, limit)| == (if limit < |ts| then limit else |ts|)
    ensures limit < 0 ==> |RecentView(ts, limit)| == (if |ts| + limit < 0 then 0 else |ts| + limit)
    ensures |RecentView(ts)| == (if |ts| < 5 then |ts| else 5)
    ensures limit == 0 ==> RecentView(ts, limit) == []
  {
  }

  /**
   * The recent list is the display form of the first entries of some
   * newest-first arrangement of the stored records.
   */
  lemma RecentIsPrefixOfArrangement(ts: seq<Transaction>, limit: int)
    requires AllDatesWellFormed(ts)
    ensures exists p :: IsNewestFirstArrangement(p, ts) &&
                        |RecentView(ts, limit)| <= |p| &&
                        RecentView(ts, limit) == MapDisplay(p[..|RecentView(ts, limit)|])
  {
    SortNewestFirstCorrect(ts);
    var p := SortNewestFirst(ts);
    assert IsNewestFirstArrangement(p, ts);
  }

  /** Each displayed date carries the calendar key of its sorted record. */
  lemma RecentDisplayKeys(ts: seq<Transaction>, limit: int)
    requires AllDatesWellFormed(ts)
    ensures AllDatesWellFormed(SortNewestFirst(ts))
    ensures |RecentView(ts, limit)| <= |SortNewestFirst(ts)|
    ensures forall i :: 0 <= i < |RecentView(ts, limit)| ==>
              DisplayShape(RecentView(ts, limit)[i].date) &&
              DisplayDateKey(RecentView(ts, limit)[i].date) == DateKey(SortNewestFirst(ts)[i].date)
  {
    SortNewestFirstCorrect(ts);
    var p := SortNewestFirst(ts);
    var r := RecentView(ts, limit);
    forall i | 0 <= i < |r|
      ensures DisplayShape(r[i].date) && DisplayDateKey(r[i].date) == DateKey(p[i].date)
    {
      FormatWellFormed(p[i].date);
    }
  }

  /**
   * The recent list, read as displayed `MM-DD-YYYY` dates, never shows a
   * later date after an earlier one.
   */
  lemma RecentNewestFirst(ts: seq<Transaction>, limit: int)
    requires AllDatesWellFormed(ts)
    ensures forall i :: 0 <= i < |RecentView(ts, limit)| ==> DisplayShape(RecentView(ts, limit)[i].date)
    ensures forall i, j :: 0 <= i < j < |RecentView(ts, limit)| ==>
              DisplayDateKey(RecentView(ts, limit)[i].date) >= DisplayDateKey(RecentView(ts, limit)[j].date)
  {
    SortNewestFirstCorrect(ts);
    RecentDisplayKeys(ts, limit);
  }

  /**
   * No record left out of the recent list is newer than a record in it:
   * a stored record whose display form the list does not show is dated no
   * later than every date the list shows.
   */
  lemma RecentKeepsNewest(ts: seq<Transaction>, limit: int, t: Transaction)
    requires AllDatesWellFormed(ts)
    requires t in ts && ToDisplay(t) !in RecentView(ts, limit)
    ensures WellFormedDate(t.date)
    ensures forall i :: 0 <= i < |RecentView(ts, limit)| ==>
              DisplayShape(RecentView(ts, limit)[i].date) &&
              DisplayDateKey(RecentView(ts, limit)[i].date) >= DateKey(t.date)
  {
    SortNewestFirstCorrect(ts);
    RecentDisplayKeys(ts, limit);
    var p := SortNewestFirst(ts);
    var n := SliceEnd(|ts|, limit);
    assert t !in p[..n] by {
      forall j | 0 <= j < n ensures p[..n][j] != t {
        assert RecentView(ts, limit)[j] == ToDisplay(p[j]);
      }
    }
    assert t in multiset(p);
    PrefixHoldsNewest(p, n, t);
  }

  /**
   * Every record the sorted copy holds past the cut of `slice(0, limit)`
   * is dated no later than every date the list shows, including a record
   * whose display form equals that of a listed one.
   */
  lemma DroppedAreNoNewer(ts: seq<Transaction>, limit: int, k: int)
    requires AllDatesWellFormed(ts)
    requires SliceEnd(|ts|, limit) <= k < |ts|
    ensures AllDatesWellFormed(SortNewestFirst(ts))
    ensures forall i :: 0 <= i < |RecentView(ts, limit)| ==>
              DisplayShape(RecentView(ts, limit)[i].date) &&
              DisplayDateKey(RecentView(ts, limit)[i].date) >= DateKey(SortNewestFirst(ts)[k].date)
  {
    SortNewestFirstCorrect(ts);
    RecentDisplayKeys(ts, limit);
    RecentLength(ts, limit);
  }

  /** In a newest-first sequence, a record past the first `n` is no newer than those. */
  lemma PrefixHoldsNewest(p: seq<Transaction>, n: nat, t: Transaction)
    requires AllDatesWellFormed(p) && NewestFirst(p)
    requires n <= |p| && t in p && t !in p[..n]
    ensures WellFormedDate(t.date)
    ensures forall i :: 0 <= i < n ==> DateKey(p[i].date) >= DateKey(t.date)
  {
    assert forall j :: 0 <= j < n ==> p[j] in p[..n];
    var k :| 0 <= k < |p| && p[k] == t;
  }

  /** Mapping a sequence with a head maps the head, then the rest. */
  lemma MapDisplayCons(h: Transaction, ts: seq<Transaction>)
    ensures MapDisplay([h] + ts) == [ToDisplay(h)] + MapDisplay(ts)
  {
    assert ([h] + ts)[1..] == ts;
  }

  /** Putting the same display record in front of both sides keeps a multiset step. */
  lemma ConsKeepsAddition(h: DisplayTransaction, a: seq<DisplayTransaction>,
                          b: seq<DisplayTransaction>, d: DisplayTransaction)
    requires multiset(a) == multiset{d} + multiset(b)
    ensures multiset([h] + a) == multiset{d} + multiset([h] + b)
  {
  }

  /** Inserting a record adds its display form to the displayed multiset. */
  lemma {:induction false} MapDisplayInsert(t: Transaction, ts: seq<Transaction>, key: Transaction -> int)
    ensures multiset(MapDisplay(Insert(t, ts, key))) == multiset{ToDisplay(t)} + multiset(MapDisplay(ts))
  {
    if ts == [] || key(t) >= key(ts[0]) {
      assert Insert(t, ts, key) == [t] + ts;
      MapDisplayCons(t, ts);
    } else {
      var rest := Insert(t, ts[1..], key);
      assert Insert(t, ts, key) == [ts[0]] + rest;
      assert ts == [ts[0]] + ts[1..];
      MapDisplayInsert(t, ts[1..], key);
      MapDisplayCons(ts[0], rest);
      MapDisplayCons(ts[0], ts[1..]);
      ConsKeepsAddition(ToDisplay(ts[0]), MapDisplay(rest), MapDisplay(ts[1..]), ToDisplay(t));
    }
  }

  /** Sorting rearranges the records and so their display forms alike. */
  lemma {:induction false} MapDisplaySort(ts: seq<Transaction>, key: Transaction -> int)
    ensures multiset(MapDisplay(SortByKey(ts, key))) == multiset(MapDisplay(ts))
  {
    if ts != [] {
      var sortedRest := SortByKey(ts[1..], key);
      assert SortByKey(ts, key) == Insert(ts[0], sortedRest, key);
      MapDisplaySort(ts[1..], key);
      MapDisplayInsert(ts[0], sortedRest, key);
      assert MapDisplay(ts) == [ToDisplay(ts[0])] + MapDisplay(ts[1..]);
    }
  }

  /** Keeping every sorted record shows the same display forms as the input. */
  lemma MapDisplayWholeSort(ts: seq<Transaction>, key: Transaction -> int)
    ensures multiset(MapDisplay(SortByKey(ts, key)[..|ts|])) == multiset(MapDisplay(ts))
  {
    var p := SortByKey(ts, key);
    assert p[..|ts|] == p;
    MapDisplaySort(ts, key);
  }

  /** A single record with a well-formed date is listed alone for any positive limit. */
  lemma RecentOfSingle(t: Transaction, limit: int)
    requires WellFormedDate(t.date) && limit >= 1
    ensures AllDatesWellFormed([t])
    ensures RecentView([t], limit) == [ToDisplay(t)]
  {
    assert [t][1..] == [];
    assert SortNewestFirst([t]) == [t];
  }

  /**
   * With a limit of at least the number of records, the recent list shows
   * every stored record exactly once, only in a different order.
   */
  lemma RecentShowsAllWhenLimitCovers(ts: seq<Transaction>, limit: int)
    requires AllDatesWellFormed(ts)
    requires limit >= |ts|
    ensures multiset(RecentView(ts, limit)) == multiset(MapDisplay(ts))
  {
    assert SliceEnd(|ts|, limit) == |ts|;
    MapDisplayWholeSort(ts, DateOrder);
  }

  /** Every entry of the recent list is the display form of a stored record. */
  lemma RecentEntriesAreStored(ts: seq<Transaction>, limit: int)
    requires AllDatesWellFormed(ts)
    ensures forall i :: 0 <= i < |RecentView(ts, limit)| ==>
              exists t :: t in ts && RecentView(ts, limit)[i] == ToDisplay(t)
  {
    SortNewestFirstCorrect(ts);
    var p := SortNewestFirst(ts);
    var r := RecentView(ts, limit);
    forall i | 0 <= i < |r|
      ensures exists t :: t in ts && r[i] == ToDisplay(t)
    {
      assert r[i] == ToDisplay(p[i]);
      assert p[i] in multiset(p);
      assert p[i] in ts;
    }
  }
}
