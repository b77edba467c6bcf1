/** The `Catalog` object: the three stored tables and the cached category list,
    changed in place by the catalog's operations. Each method states its new
    state through the table functions of `Tables`, whose properties are proved
    there. */
module Library {
  import opened Seqs
  import opened Tables

  /** The errors the operations can raise. */
  datatype Error =
    | NoSuchEntry        // `checkOut` of a key no catalog entry has
    | DuplicateCategory  // `addCat` of a code already in `categories`

  datatype Outcome = Done | Failed(error: Error)

  class Catalog {
    /** The codes of the `categories` table. */
    var categories: set<string>
    /** The `catalog` table, in row order. */
    var catalog: seq<Entry>
    /** The `circulation` table, in row order. */
    var circulation: seq<Loan>
    /** The cached category list, refreshed by `addCat` and `delCat`. */
    var cats: seq<string>

    /** Opening the store on the tables already saved in it. */
    constructor (categories: set<string>, catalog: seq<Entry>, circulation: seq<Loan>)
      ensures this.categories == categories && this.catalog == catalog && this.circulation == circulation
      ensures cats == GetCats(catalog)
    {
      this.categories := categories;
      this.catalog := catalog;
      this.circulation := circulation;
      cats := GetCats(catalog);
    }

    /** Adds one copy of a work to category `cat` on day `today`, numbered one
        past the copies the category already has. The category is not checked
        against `categories`, and `cats` is not refreshed. */
    method AddBook(cat: string, title: string, author: string, today: int)
      modifies this
      ensures catalog == WithBook(old(catalog), cat, title, author, today)
      ensures catalog[|old(catalog)|].accession == 1 + Count(old(catalog), InCategory(cat))
      ensures categories == old(categories) && circulation == old(circulation) && cats == old(cats)
      ensures Numbered(old(catalog)) ==> Numbered(catalog)
    {
      if Numbered(catalog) {
        WithBookKeepsNumbered(catalog, cat, title, author, today);
      }
      catalog := WithBook(catalog, cat, title, author, today);
    }

    /** Deletes every catalog entry with key (cat, acc); loans on it stay. */
    method DelBook(cat: string, acc: int)
      modifies this
      ensures catalog == WithoutBook(old(catalog), cat, acc)
      ensures !HasEntry(old(catalog), cat, acc) ==> catalog == old(catalog)
      ensures categories == old(categories) && circulation == old(circulation) && cats == old(cats)
    {
      if !HasEntry(catalog, cat, acc) {
        DelBookMissing(catalog, cat, acc);
      }
      catalog := WithoutBook(catalog, cat, acc);
    }

    /** Lends the copy with key (cat, acc) to `patron` on day `today`: counts one
        more circulation of it and records a loan due `LoanDays` later. Without
        such a copy the lookup of its title fails before anything changes. */
    method CheckOut(cat: string, acc: int, patron: string, today: int) returns (r: Outcome)
      modifies this
      ensures r == Done || r == Failed(NoSuchEntry)
      ensures r.Failed? <==> !HasEntry(old(catalog), cat, acc)
      ensures r.Failed? ==> catalog == old(catalog) && circulation == old(circulation)
      ensures r.Done? ==> catalog == Bumped(old(catalog), cat, acc)
      ensures r.Done? ==> circulation == old(circulation) + [NewLoan(cat, acc, patron, today)]
      ensures categories == old(categories) && cats == old(cats)
      ensures Numbered(old(catalog)) ==> Numbered(catalog)
    {
      if !HasEntry(catalog, cat, acc) {
        return Failed(NoSuchEntry);
      }
      if Numbered(catalog) {
        BumpedKeepsNumbered(catalog, cat, acc);
      }
      catalog := Bumped(catalog, cat, acc);
      circulation := circulation + [NewLoan(cat, acc, patron, today)];
      r := Done;
    }

    /** Closes the loans in category `cat` whose copy has title `ti` and author
        `au`; the catalog keeps its circulation counts. */
    method CheckIn(cat: string, ti: string, au: string)
      modifies this
      ensures circulation == CheckedIn(old(circulation), old(catalog), cat, ti, au)
      ensures catalog == old(catalog) && categories == old(categories) && cats == old(cats)
    {
      circulation := CheckedIn(circulation, catalog, cat, ti, au);
    }

    /** Adds the category code `code` and refreshes `cats`; a code that is
        already there violates the primary key and nothing changes. */
    method AddCat(code: string) returns (r: Outcome)
      modifies this
      ensures r == Done || r == Failed(DuplicateCategory)
      ensures r.Failed? <==> code in old(categories)
      ensures r.Failed? ==> categories == old(categories) && cats == old(cats)
      ensures r.Done? ==> categories == old(categories) + {code} && cats == GetCats(catalog)
      ensures catalog == old(catalog) && circulation == old(circulation)
    {
      if code in categories {
        return Failed(DuplicateCategory);
      }
      categories := categories + {code};
      cats := GetCats(catalog);
      r := Done;
    }

    /** Removes the category code `code`, if present, and refreshes `cats`;
        entries of that category stay in the catalog. */
    method DelCat(code: string)
      modifies this
      ensures categories == old(categories) - {code} && cats == GetCats(catalog)
      ensures catalog == old(catalog) && circulation == old(circulation)
    {
      categories := categories - {code};
      cats := GetCats(catalog);
    }

    /** The rows of the shelf list report: the listed category codes are
        gathered one by one into a table first, then the catalog is selected
        against it and the date range. */
    method ShelfList(catCodes: seq<string>, fromDate: int := EarliestShelfDate, toDate: int := LatestShelfDate)
      returns (rows: seq<ShelfRow>)
      ensures rows == Tables.ShelfList(catalog, catCodes, fromDate, toDate)
    {
      var fromCats: seq<string> := [];
      var i := 0;
      while i < |catCodes|
        invariant 0 <= i <= |catCodes|
        invariant fromCats == catCodes[..i]
      {
        fromCats := fromCats + [catCodes[i]];
        i := i + 1;
      }
      assert catCodes[..i] == catCodes;
      rows := Tables.ShelfList(catalog, fromCats, fromDate, toDate);
    }
  }

  /** A session from an empty store: one category, one book in it, one
      checkout; the currently-out report then names the patron and the day the
      copy is due back. */
  method FirstLoanSession(cat: string, title: string, author: string, patron: string, today: int)
    returns (rows: seq<OutRow>)
    ensures rows == [OutRow(patron, title, author, "", "", today + LoanDays)]
  {
    var lib := new Catalog({}, [], []);
    var added := lib.AddCat(cat);
    lib.AddBook(cat, title, author, today);
    var copy := Entry(cat, 1, title, author, "", "", 0, today);
    assert lib.catalog == [copy];
    assert copy in lib.catalog;
    var lent := lib.CheckOut(cat, 1, patron, today);
    assert lib.catalog == Bumped([copy], cat, 1);
    assert [copy] == [] + [copy];
    CountAppend([], copy, IsKey(cat, 1));
    OneCheckoutOneRow([copy], copy, patron, today);
    rows := OutList(lib.catalog, lib.circulation);
  }
}
