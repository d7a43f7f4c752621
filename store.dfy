/**
 * `useTransactionsStore`: one store instance owns the list of stored
 * records, which only ever grows, by `addTransaction`.
 */
module Store {
  import opened Options
  import opened CategoryTable
  import opened Dates
  import opened Records
  import opened Recent

  /**
   * What `addTransaction` returns: the record it stored, or the failure
   * value (`false` in the store) naming the id that matched no category.
   */
  datatype AddResult = Added(record: Transaction) | InvalidCategory(id: int)

  class TransactionsStore {
    /** The stored records, oldest addition first. */
    var transactions: seq<Transaction>

    /** Every stored record names a category of the table. */
    ghost predicate Valid()
      reads this
    {
      forall i :: 0 <= i < |transactions| ==> IsCategoryName(transactions[i].category)
    }

    /** A new store holds no records. */
    constructor ()
      ensures Valid()
      ensures transactions == []
    {
      transactions := [];
    }

    /**
     * `getAllTransactions`: a copy of the stored records in the order they
     * were added; each names a category of the table.
     */
    function GetAllTransactions(): (r: seq<Transaction>)
      reads this
      ensures |r| == |transactions| && forall i :: 0 <= i < |r| ==> r[i] == transactions[i]
      ensures Valid() ==> forall i :: 0 <= i < |r| ==> IsCategoryName(r[i].category)
    {
      transactions
    }

    /**
     * `addTransaction`: an input whose category id is in the table is
     * stored, with the category's name and the scaled amount, at the end of
     * the list and returned; any other id is refused and nothing changes.
     */
    method AddTransaction(input: TransactionInput) returns (r: AddResult)
      requires Valid()
      modifies this
      ensures Valid()
      ensures r.Added? <==> Find(Categories, input.category).Some?
      ensures r.Added? <==> 1 <= input.category <= |Categories|
      ensures r.InvalidCategory? ==> r.id == input.category && transactions == old(transactions)
      ensures r.Added? ==> transactions == old(transactions) + [r.record]
      ensures r.Added? ==> r.record.category == Categories[input.category - 1].name
      ensures r.Added? ==> r.record.amount == input.amount * ScaleFactor
      ensures r.Added? ==> r.record.date == input.date &&
                           r.record.description == input.description &&
                           r.record.merchant == input.merchant
    {
      LookupInTable(input.category);
      var found := Find(Categories, input.category);
      if found.None? {
        return InvalidCategory(input.category);
      }
      FoundNameIsCategoryName(input.category);
      var record := ToStored(input, found.value);
      transactions := transactions + [record];
      return Added(record);
    }

    /**
     * `getRecentTransactions(limit = 5)`: the display forms of the `limit`
     * newest records, newest first. It reads the records and changes none.
     */
    function GetRecentTransactions(limit: int := DefaultLimit): (r: seq<DisplayTransaction>)
      reads this
      requires AllDatesWellFormed(transactions)
      ensures 0 <= limit ==> |r| == (if limit < |transactions| then limit else |transactions|)
      ensures forall i :: 0 <= i < |r| ==> DisplayShape(r[i].date)
      ensures forall i, j :: 0 <= i < j < |r| ==> DisplayDateKey(r[i].date) >= DisplayDateKey(r[j].date)
      ensures forall i :: 0 <= i < |r| ==> exists t :: t in transactions && r[i] == ToDisplay(t)
    {
      RecentLength(transactions, limit);
      RecentNewestFirst(transactions, limit);
      RecentEntriesAreStored(transactions, limit);
      RecentView(transactions, limit)
    }
  }

  /**
   * A record added with a date later than every stored date heads the
   * recent list for any positive limit.
   */
  lemma NewestAdditionHeadsRecent(ts: seq<Transaction>, t: Transaction, limit: int)
    requires AllDatesWellFormed(ts) && WellFormedDate(t.date)
    requires forall i :: 0 <= i < |ts| ==> DateKey(ts[i].date) < DateKey(t.date)
    requires limit > 0
    ensures AllDatesWellFormed(ts + [t])
    ensures |RecentView(ts + [t], limit)| > 0
    ensures RecentView(ts + [t], limit)[0] == ToDisplay(t)
  {
    var all := ts + [t];
    assert AllDatesWellFormed(all) by {
      forall i | 0 <= i < |all| ensures WellFormedDate(all[i].date) {
        if i < |ts| { assert all[i] == ts[i]; }
      }
    }
    forall x | x in all && x != t ensures DateOrder(x) < DateOrder(t) {
      var i :| 0 <= i < |ts| && ts[i] == x;
    }
    SortHeadIsUniqueMax(all, DateOrder, t);
  }

  /** The example's date has the `YYYY-MM-DD` shape, with its pieces. */
  lemma ExampleDateShape()
    ensures IsoShape("2024-09-01")
    ensures "2024-09-01"[..4] == "2024" && "2024-09-01"[5..7] == "09" && "2024-09-01"[8..] == "01"
  {
  }

  /** The example's year digits. */
  lemma ExampleYearValue()
    ensures AllDigits("2024") && DigitsValue("2024") == 2024
  {
    assert "2024"[..3] == "202" && "202"[..2] == "20" && "20"[..1] == "2" && "2"[..0] == "";
  }

  /** The example's month and day digits. */
  lemma ExampleMonthDayValues()
    ensures AllDigits("09") && DigitsValue("09") == 9
    ensures AllDigits("01") && DigitsValue("01") == 1
  {
    assert "09"[..1] == "0" && "01"[..1] == "0" && "0"[..0] == "";
  }

  /** The digits of the example's date. */
  lemma ExampleDateDigits()
    ensures IsoShape("2024-09-01")
    ensures Year("2024-09-01") == 2024 && Month("2024-09-01") == 9 && Day("2024-09-01") == 1
  {
    ExampleDateShape();
    ExampleYearValue();
    ExampleMonthDayValues();
  }

  /** The example's date is well formed. */
  lemma ExampleDateWellFormed()
    ensures WellFormedDate("2024-09-01")
  {
    ExampleDateDigits();
  }

  /** The example's date, given by its pieces, is shown with them rearranged. */
  lemma ExampleDatePieces(date: string)
    requires date == "2024" + "-" + "09" + "-" + "01"
    ensures FormatDateForDisplay(date) == "09" + "-" + "01" + "-" + "2024"
  {
    FormatThreePieces("2024", "09", "01");
  }

  /** The example's date is shown as `09-01-2024`. */
  lemma ExampleDateDisplay()
    ensures FormatDateForDisplay("2024-09-01") == "09-01-2024"
  {
    assert "2024" + "-" + "09" + "-" + "01" == "2024-09-01";
    assert "09" + "-" + "01" + "-" + "2024" == "09-01-2024";
    ExampleDatePieces("2024-09-01");
  }

  /** The record the documented example stores. */
  const LunchRecord: Transaction :=
    Transaction("2024-09-01", "Food", 315.0, Some("Lunch"), Some("Restaurant"))

  /** The example's record in display form. */
  lemma ExampleDisplay()
    ensures ToDisplay(LunchRecord) ==
            DisplayTransaction("09-01-2024", "Food", "Lunch", 15.75, "Restaurant")
  {
    ExampleDateDisplay();
  }

  /** A store holding only the example's record lists it back for display. */
  lemma ExampleRecentView()
    ensures AllDatesWellFormed([LunchRecord])
    ensures RecentView([LunchRecord], 1) ==
            [DisplayTransaction("09-01-2024", "Food", "Lunch", 15.75, "Restaurant")]
  {
    ExampleDateWellFormed();
    ExampleDisplay();
    RecentOfSingle(LunchRecord, 1);
  }

  /**
   * The example in the store's documentation, and an unknown id, replayed
   * against the model: lunch at a restaurant in category 3 ("Food") is
   * stored with amount 315 and shown back with amount 15.75 and the date
   * `09-01-2024`; category 999 is refused and leaves the store as it was.
   */
  method DocumentedExample()
  {
    var store := new TransactionsStore();
    var lunch := TransactionInput(3, Some("Lunch"), 15.75, "2024-09-01", Some("Restaurant"));
    var r := store.AddTransaction(lunch);
    assert r == Added(LunchRecord);

    var bad := TransactionInput(999, None, 1.0, "2024-09-01", None);
    var refused := store.AddTransaction(bad);
    assert refused == InvalidCategory(999);
    assert store.GetAllTransactions() == [LunchRecord];

    ExampleRecentView();
    var recent := store.GetRecentTransactions(1);
    assert recent == [DisplayTransaction("09-01-2024", "Food", "Lunch", 15.75, "Restaurant")];
  }
}
