/**
 * The three shapes a transaction takes: the input a caller hands to
 * `addTransaction`, the record the store keeps, and the record
 * `getRecentTransactions` hands out for display.
 */
module Records {
  import opened Options
  import opened CategoryTable
  import opened Dates

  /**
   * The fixed conversion between entered amounts and stored amounts; the
   * chart that reads stored records expects amounts in these units.
   */
  const ScaleFactor: real := 20.0

  /** The text shown for a transaction without a description. */
  const DefaultDescription: string := "Transaction"

  /**
   * What a caller passes to `addTransaction`: a category id, an amount
   * already parsed to a number, a date string and optional texts.
   */
  datatype TransactionInput = TransactionInput(
    category: int,
    description: Option<string>,
    amount: real,
    date: string,
    merchant: Option<string>)

  /** A stored record: the category by name and the amount in chart units. */
  datatype Transaction = Transaction(
    date: string,
    category: string,
    amount: real,
    description: Option<string>,
    merchant: Option<string>)

  /** A record as the recent-transactions list shows it. */
  datatype DisplayTransaction = DisplayTransaction(
    date: string,
    category: string,
    description: string,
    amount: real,
    merchant: string)

  /** JavaScript falsiness of an optional text: absent or empty. */
  predicate Falsy(text: Option<string>)
  {
    text.None? || text.value == ""
  }

  /** `text || fallback` for an optional text. */
  function OrElse(text: Option<string>, fallback: string): (r: string)
  {
    if Falsy(text) then fallback else text.value
  }

  /**
   * The record `addTransaction` builds from an input whose category id
   * resolved to `cat`.
   */
  function ToStored(input: TransactionInput, cat: Category): (t: Transaction)
    ensures t.category == cat.name
    ensures t.amount / ScaleFactor == input.amount
    ensures t.date == input.date
    ensures t.description == input.description && t.merchant == input.merchant
  {
    Transaction(input.date, cat.name, input.amount * ScaleFactor,
                input.description, input.merchant)
  }

  /** The display form of a stored record, one entry of the recent list. */
  function ToDisplay(t: Transaction): (d: DisplayTransaction)
    ensures d.category == t.category
    ensures d.amount * ScaleFactor == t.amount
    ensures d.description != ""
    ensures t.category != "" ==> d.merchant != ""
    ensures !Falsy(t.description) ==> d.description == t.description.value
    ensures !Falsy(t.merchant) ==> d.merchant == t.merchant.value
    ensures Falsy(t.description) ==> d.description == DefaultDescription
    ensures Falsy(t.merchant) ==> d.merchant == t.category
  {
    DisplayTransaction(
      FormatDateForDisplay(t.date),
      t.category,
      OrElse(t.description, DefaultDescription),
      t.amount / ScaleFactor,
      OrElse(t.merchant, t.category))
  }

  /**
   * Entering an amount and reading it back through the display gives the
   * amount entered: the store multiplies by the scale factor and the
   * display divides by it. The other fields survive as far as the display
   * keeps them.
   */
  lemma DisplayOfStored(input: TransactionInput, cat: Category)
    ensures ToDisplay(ToStored(input, cat)).amount == input.amount
    ensures ToDisplay(ToStored(input, cat)).category == cat.name
    ensures WellFormedDate(input.date) ==>
            ToDisplay(ToStored(input, cat)).date ==
            input.date[5..7] + "-" + input.date[8..] + "-" + input.date[..4]
    ensures !Falsy(input.description) ==>
            ToDisplay(ToStored(input, cat)).description == input.description.value
    ensures !Falsy(input.merchant) ==>
            ToDisplay(ToStored(input, cat)).merchant == input.merchant.value
  {
    if WellFormedDate(input.date) {
      FormatWellFormed(input.date);
    }
  }
}
