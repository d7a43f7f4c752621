/**
 * The static table of spending categories and the lookup by id that
 * `addTransaction` performs with `categories.find`.
 */
module CategoryTable {
  import opened Options

  /** One row of the table: id, display name, icon key and icon colour. */
  datatype Category = Category(id: int, name: string, icon: string, iconBg: string)

  /** The fourteen categories, in the order the table lists them. */
  const Categories: seq<Category> := [
    Category(1, "Education", "education", "#46BDC6"),
    Category(2, "Entertainment", "entertainment", "#FF8301"),
    Category(3, "Food", "food", "#213B80"),
    Category(4, "Groceries", "groceries", "#00BC38"),
    Category(5, "Healthcare", "healthcare", "#AD3B9B"),
    Category(6, "Housing", "housing", "#FF373C"),
    Category(7, "Miscellaneous", "miscellaneous", "#B0866D"),
    Category(8, "Office", "office", "#E4759D"),
    Category(9, "Pets", "pets", "#783F05"),
    Category(10, "Shopping", "shopping", "#386BBC"),
    Category(11, "Subscriptions", "subscriptions", "#4F7F88"),
    Category(12, "Transportation", "transportation", "#FFB900"),
    Category(13, "Travel", "travel", "#8E7CC3"),
    Category(14, "Utilities", "utilities", "#009EDF")
  ]

  /**
   * `cats.find(cat => cat.id === id)`: the first category with that id,
   * or nothing when no category has it.
   */
  function Find(cats: seq<Category>, id: int): (r: Option<Category>)
    ensures r.None? <==> forall i :: 0 <= i < |cats| ==> cats[i].id != id
    ensures r.Some? ==> exists i :: 0 <= i < |cats| && cats[i] == r.value && r.value.id == id &&
                                    forall j :: 0 <= j < i ==> cats[j].id != id
  {
    if cats == [] then None
    else if cats[0].id == id then Some(cats[0])
    else
      var r := Find(cats[1..], id);
      assert r.Some? ==> exists i :: 0 <= i < |cats| && cats[i] == r.value && r.value.id == id &&
                                     forall j :: 0 <= j < i ==> cats[j].id != id by {
        if r.Some? {
          var k :| 0 <= k < |cats| - 1 && cats[1..][k] == r.value && r.value.id == id &&
                   forall j :: 0 <= j < k ==> cats[1..][j].id != id;
          assert cats[k + 1] == r.value;
          assert forall j :: 0 <= j < k + 1 ==> cats[j].id != id by {
            forall j | 0 <= j < k + 1 ensures cats[j].id != id {
              if j > 0 { assert cats[j] == cats[1..][j - 1]; }
            }
          }
        }
      }
      r
  }

  /** The table's ids are 1 to 14, each at position id - 1. */
  lemma TableIds()
    ensures |Categories| == 14
    ensures forall i :: 0 <= i < |Categories| ==> Categories[i].id == i + 1
  {
  }

  /**
   * Looking up an id in the table finds a category exactly when the id is
   * between 1 and 14, and then it is the row at position id - 1.
   */
  lemma LookupInTable(id: int)
    ensures Find(Categories, id).Some? <==> 1 <= id <= |Categories|
    ensures Find(Categories, id).Some? ==> Find(Categories, id).value == Categories[id - 1]
  {
    TableIds();
    FindInNumbered(Categories, id);
  }

  /** In a table numbered 1, 2, 3, ... by position, `find` is indexing. */
  lemma FindInNumbered(cats: seq<Category>, id: int)
    requires forall i :: 0 <= i < |cats| ==> cats[i].id == i + 1
    ensures Find(cats, id).Some? <==> 1 <= id <= |cats|
    ensures Find(cats, id).Some? ==> Find(cats, id).value == cats[id - 1]
  {
    var r := Find(cats, id);
    if 1 <= id <= |cats| {
      assert cats[id - 1].id == id;
    }
    if r.Some? {
      var i :| 0 <= i < |cats| && cats[i] == r.value && r.value.id == id;
      assert i == id - 1;
    }
  }

  /** A name some category of the table carries. */
  predicate IsCategoryName(name: string)
  {
    exists i :: 0 <= i < |Categories| && Categories[i].name == name
  }

  /** Every category found in the table carries one of the table's names. */
  lemma FoundNameIsCategoryName(id: int)
    requires Find(Categories, id).Some?
    ensures IsCategoryName(Find(Categories, id).value.name)
    ensures Find(Categories, id).value.name != ""
  {
    LookupInTable(id);
    TableNamesNonEmpty();
    var c := Categories[id - 1];
    assert Find(Categories, id).value == c;
    assert c.name != "";
  }

  /** No category of the table has an empty name. */
  lemma TableNamesNonEmpty()
    ensures forall i :: 0 <= i < |Categories| ==> |Categories[i].name| > 0
  {
  }
}
