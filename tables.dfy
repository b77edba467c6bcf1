/** The three tables of the library catalog as values, the row changes that the
    catalog's operations make to them, and the read-only queries over them.
    Dates are day numbers (Python's `date.toordinal()`). */
module Tables {
  import opened Seqs
  import opened Pattern

  /** A loan runs this many days from the day of checkout. */
  const LoanDays: int := 14
  /** Default bounds of `shelfList`: 1980-01-01 and 9999-12-12 as day numbers. */
  const EarliestShelfDate: int := 722815
  const LatestShelfDate: int := 3652040

  /** A row of the `catalog` table: one copy of a work. */
  datatype Entry = Entry(
    category: string,
    accession: int,
    title: string,
    author: string,
    cutter: string,
    note: string,
    timesCirculated: int,
    dateAdded: int)

  /** A row of the `circulation` table: one active loan. */
  datatype Loan = Loan(category: string, accession: int, patron: string, dateOut: int, dateDue: int)

  /** A row returned by `findBook`. */
  datatype Hit = Hit(category: string, title: string, author: string, cutter: string, note: string)

  /** A line of the shelf list report. */
  datatype ShelfRow = ShelfRow(category: string, accession: int, title: string, author: string, cutter: string)

  /** A line of the currently-out and due reports. */
  datatype OutRow = OutRow(patron: string, title: string, author: string, cutter: string, note: string, dateDue: int)

  // ---------------------------------------------------------------------------
  // Row tests, named so that every use denotes the same function value

  predicate HasKey(e: Entry, cat: string, acc: int)
  {
    e.category == cat && e.accession == acc
  }

  function IsKey(cat: string, acc: int): Entry -> bool
  {
    (e: Entry) => HasKey(e, cat, acc)
  }

  function IsNotKey(cat: string, acc: int): Entry -> bool
  {
    (e: Entry) => !HasKey(e, cat, acc)
  }

  function InCategory(cat: string): Entry -> bool
  {
    (e: Entry) => e.category == cat
  }

  /** The join condition between `catalog` and `circulation`. */
  predicate Joins(e: Entry, l: Loan)
  {
    e.category == l.category && e.accession == l.accession
  }

  function JoinsLoan(l: Loan): Entry -> bool
  {
    (e: Entry) => Joins(e, l)
  }

  /** True when the catalog holds an entry with key (cat, acc). */
  predicate HasEntry(catalog: seq<Entry>, cat: string, acc: int)
  {
    exists e :: e in catalog && HasKey(e, cat, acc)
  }

  // ---------------------------------------------------------------------------
  // addBook

  /** The entry `addBook` inserts: the next accession number of the category,
      no cutter or note, never circulated, added today. */
  function NewEntry(catalog: seq<Entry>, cat: string, title: string, author: string, today: int): Entry
  {
    Entry(cat, 1 + Count(catalog, InCategory(cat)), title, author, "", "", 0, today)
  }

  /** The catalog after `addBook(cat, title, author)` on day `today`. */
  function WithBook(catalog: seq<Entry>, cat: string, title: string, author: string, today: int): (r: seq<Entry>)
    ensures |r| == |catalog| + 1 && r[..|catalog|] == catalog
    ensures r[|catalog|].category == cat && r[|catalog|].title == title && r[|catalog|].author == author
    ensures r[|catalog|].accession == 1 + Count(catalog, InCategory(cat))
    ensures r[|catalog|].timesCirculated == 0 && r[|catalog|].dateAdded == today
    ensures Count(r, InCategory(cat)) == Count(catalog, InCategory(cat)) + 1
  {
    var e := NewEntry(catalog, cat, title, author, today);
    CountAppend(catalog, e, InCategory(cat));
    catalog + [e]
  }

  /** The catalog after `addBook` is called once for each (title, author) pair. */
  function WithBooks(catalog: seq<Entry>, cat: string, books: seq<(string, string)>, today: int): seq<Entry>
  {
    if books == [] then catalog
    else
      var last := books[|books| - 1];
      WithBook(WithBooks(catalog, cat, books[..|books| - 1], today), cat, last.0, last.1, today)
  }

  /** Successive `addBook` calls on one category number the new entries
      consecutively from one past the entries already there: on an empty
      category, 1, 2, ..., n. */
  lemma {:induction false} SequentialAccessions(catalog: seq<Entry>, cat: string, books: seq<(string, string)>, today: int)
    ensures |WithBooks(catalog, cat, books, today)| == |catalog| + |books|
    ensures WithBooks(catalog, cat, books, today)[..|catalog|] == catalog
    ensures Count(WithBooks(catalog, cat, books, today), InCategory(cat)) == Count(catalog, InCategory(cat)) + |books|
    ensures forall k :: |catalog| <= k < |catalog| + |books| ==>
      WithBooks(catalog, cat, books, today)[k].accession == Count(catalog, InCategory(cat)) + (k - |catalog|) + 1
  {
    if books != [] {
      var init := books[..|books| - 1];
      SequentialAccessions(catalog, cat, init, today);
      var prev := WithBooks(catalog, cat, init, today);
      var r := WithBooks(catalog, cat, books, today);
      assert r == WithBook(prev, cat, books[|books| - 1].0, books[|books| - 1].1, today);
      assert r[..|prev|] == prev;
      forall k | |catalog| <= k < |catalog| + |books|
        ensures r[k].accession == Count(catalog, InCategory(cat)) + (k - |catalog|) + 1
      {
        if k < |prev| {
          assert r[k] == prev[k];
        }
      }
      assert r[..|catalog|] == prev[..|catalog|];
    }
  }

  /** The numbering `addBook` produces: every entry's accession is one more than
      the number of entries of its category that precede it in the table. */
  ghost predicate Numbered(catalog: seq<Entry>)
  {
    catalog == [] ||
    var init, last := catalog[..|catalog| - 1], catalog[|catalog| - 1];
    Numbered(init) && last.accession == 1 + Count(init, InCategory(last.category))
  }

  /** `addBook` keeps the numbering. */
  lemma WithBookKeepsNumbered(catalog: seq<Entry>, cat: string, title: string, author: string, today: int)
    requires Numbered(catalog)
    ensures Numbered(WithBook(catalog, cat, title, author, today))
  {
    var r := WithBook(catalog, cat, title, author, today);
    assert r[..|r| - 1] == catalog;
  }

  /** In a numbered catalog, the entries of a category carry 1, 2, ... in table order. */
  lemma {:induction false} NumberedAccessions(catalog: seq<Entry>, cat: string)
    requires Numbered(catalog)
    ensures forall k :: 0 <= k < |Filter(catalog, InCategory(cat))| ==> Filter(catalog, InCategory(cat))[k].accession == k + 1
  {
    if catalog != [] {
      var init, last := catalog[..|catalog| - 1], catalog[|catalog| - 1];
      assert catalog == init + [last];
      NumberedAccessions(init, cat);
      var fi := Filter(init, InCategory(cat));
      FilterAppend(init, last, InCategory(cat));
      CountIsFilterLength(init, InCategory(cat));
      var f := Filter(catalog, InCategory(cat));
      forall k | 0 <= k < |f|
        ensures f[k].accession == k + 1
      {
        if k < |fi| {
          assert f[k] == fi[k];
        } else {
          assert f[k] == last;
        }
      }
    }
  }

  /** In a numbered catalog every accession of a category lies between one and
      the number of entries in that category. */
  lemma {:induction false} NumberedBounds(catalog: seq<Entry>, e: Entry)
    requires Numbered(catalog) && e in catalog
    ensures 1 <= e.accession <= Count(catalog, InCategory(e.category))
  {
    var init, last := catalog[..|catalog| - 1], catalog[|catalog| - 1];
    assert catalog == init + [last];
    CountAppend(init, last, InCategory(e.category));
    if e in init {
      NumberedBounds(init, e);
    }
  }

  /** A numbered catalog has at most one entry per (category, accession) key. */
  lemma {:induction false} NumberedKeyCount(catalog: seq<Entry>, cat: string, acc: int)
    requires Numbered(catalog)
    ensures Count(catalog, IsKey(cat, acc)) <= 1
  {
    if catalog != [] {
      var init, last := catalog[..|catalog| - 1], catalog[|catalog| - 1];
      assert catalog == init + [last];
      NumberedKeyCount(init, cat, acc);
      CountAppend(init, last, IsKey(cat, acc));
      if HasKey(last, cat, acc) && Count(init, IsKey(cat, acc)) > 0 {
        CountIsFilterLength(init, IsKey(cat, acc));
        var e := Filter(init, IsKey(cat, acc))[0];
        FilterMembers(init, IsKey(cat, acc), e);
        NumberedBounds(init, e);
        assert false;
      }
    }
  }

  // ---------------------------------------------------------------------------
  // delBook

  /** The catalog after `delBook(cat, acc)`. */
  function WithoutBook(catalog: seq<Entry>, cat: string, acc: int): (r: seq<Entry>)
    ensures |r| <= |catalog|
  {
    Filter(catalog, IsNotKey(cat, acc))
  }

  /** `delBook` removes exactly the entries with the key and keeps every other
      entry as often as it occurred. */
  lemma DelBookExact(catalog: seq<Entry>, cat: string, acc: int, e: Entry)
    ensures e in WithoutBook(catalog, cat, acc) <==> e in catalog && !HasKey(e, cat, acc)
    ensures multiset(WithoutBook(catalog, cat, acc))[e] == if HasKey(e, cat, acc) then 0 else multiset(catalog)[e]
  {
    FilterMembers(catalog, IsNotKey(cat, acc), e);
    FilterMultiplicity(catalog, IsNotKey(cat, acc), e);
  }

  /** `delBook` of a key no entry has changes nothing. */
  lemma DelBookMissing(catalog: seq<Entry>, cat: string, acc: int)
    requires !HasEntry(catalog, cat, acc)
    ensures WithoutBook(catalog, cat, acc) == catalog
  {
    assert forall i :: 0 <= i < |catalog| ==> IsNotKey(cat, acc)(catalog[i]) by {
      forall i | 0 <= i < |catalog| ensures IsNotKey(cat, acc)(catalog[i]) {
        assert catalog[i] in catalog;
      }
    }
    FilterKeepsAll(catalog, IsNotKey(cat, acc));
  }

  /** `delBook` lowers the count of a category by the number of entries it
      deletes, and leaves the count of every other category alone. */
  lemma {:induction false} WithoutBookCount(catalog: seq<Entry>, cat: string, acc: int, c: string)
    ensures Count(WithoutBook(catalog, cat, acc), InCategory(c)) ==
      Count(catalog, InCategory(c)) - (if c == cat then Count(catalog, IsKey(cat, acc)) else 0)
  {
    if catalog != [] {
      var init, last := catalog[..|catalog| - 1], catalog[|catalog| - 1];
      assert catalog == init + [last];
      WithoutBookCount(init, cat, acc, c);
      FilterAppend(init, last, IsNotKey(cat, acc));
      CountAppend(init, last, InCategory(c));
      CountAppend(init, last, IsKey(cat, acc));
      if HasKey(last, cat, acc) {
        assert WithoutBook(catalog, cat, acc) == WithoutBook(init, cat, acc);
      } else {
        assert WithoutBook(catalog, cat, acc) == WithoutBook(init, cat, acc) + [last];
        CountAppend(WithoutBook(init, cat, acc), last, InCategory(c));
      }
    }
  }

  /** `delBook(cat, acc)` keeps every entry whose key is another one. */
  lemma {:induction false} WithoutBookKeyCount(catalog: seq<Entry>, cat: string, acc: int, other: int)
    requires other != acc
    ensures Count(WithoutBook(catalog, cat, acc), IsKey(cat, other)) == Count(catalog, IsKey(cat, other))
  {
    if catalog != [] {
      var init, last := catalog[..|catalog| - 1], catalog[|catalog| - 1];
      assert catalog == init + [last];
      WithoutBookKeyCount(init, cat, acc, other);
      FilterAppend(init, last, IsNotKey(cat, acc));
      CountAppend(init, last, IsKey(cat, other));
      if HasKey(last, cat, acc) {
        assert WithoutBook(catalog, cat, acc) == WithoutBook(init, cat, acc);
      } else {
        assert WithoutBook(catalog, cat, acc) == WithoutBook(init, cat, acc) + [last];
        CountAppend(WithoutBook(init, cat, acc), last, IsKey(cat, other));
      }
    }
  }

  /** In a numbered catalog each accession 1..n of a category with n entries is
      the key of exactly one entry. */
  lemma NumberedKeyPresent(catalog: seq<Entry>, cat: string, acc: int)
    requires Numbered(catalog) && 1 <= acc <= Count(catalog, InCategory(cat))
    ensures Count(catalog, IsKey(cat, acc)) == 1
  {
    var f := Filter(catalog, InCategory(cat));
    CountIsFilterLength(catalog, InCategory(cat));
    NumberedAccessions(catalog, cat);
    var e := f[acc - 1];
    FilterMembers(catalog, InCategory(cat), e);
    FilterMembers(catalog, IsKey(cat, acc), e);
    CountIsFilterLength(catalog, IsKey(cat, acc));
    NumberedKeyCount(catalog, cat, acc);
  }

  /** In a numbered catalog, deleting any copy of a category but its highest
      numbered one and then adding a copy gives the new copy the accession
      that the highest numbered copy still has: two entries share that key and
      the numbering is lost. */
  lemma DeleteThenAddDuplicatesKey(catalog: seq<Entry>, cat: string, acc: int, title: string, author: string, today: int)
    requires Numbered(catalog) && 1 <= acc < Count(catalog, InCategory(cat))
    ensures var after := WithBook(WithoutBook(catalog, cat, acc), cat, title, author, today);
      var n := Count(catalog, InCategory(cat));
      after[|after| - 1].accession == n && Count(after, IsKey(cat, n)) == 2 && !Numbered(after)
  {
    var n := Count(catalog, InCategory(cat));
    var kept := WithoutBook(catalog, cat, acc);
    NumberedKeyPresent(catalog, cat, acc);
    NumberedKeyPresent(catalog, cat, n);
    WithoutBookCount(catalog, cat, acc, cat);
    WithoutBookKeyCount(catalog, cat, acc, n);
    var after := WithBook(kept, cat, title, author, today);
    assert after == kept + [after[|kept|]];
    CountAppend(kept, after[|kept|], IsKey(cat, n));
    if Numbered(after) {
      NumberedKeyCount(after, cat, n);
      assert false;
    }
  }

  // ---------------------------------------------------------------------------
  // checkOut

  function Bump(e: Entry): Entry
  {
    e.(timesCirculated := e.timesCirculated + 1)
  }

  /** The catalog after `checkOut(cat, acc, ...)` counts one more circulation
      of every entry with that key; no other column and no other entry changes. */
  function Bumped(catalog: seq<Entry>, cat: string, acc: int): (r: seq<Entry>)
    ensures |r| == |catalog|
    ensures forall i :: 0 <= i < |r| ==> r[i].(timesCirculated := catalog[i].timesCirculated) == catalog[i]
    ensures forall i :: 0 <= i < |r| ==>
      r[i].timesCirculated == catalog[i].timesCirculated + (if HasKey(catalog[i], cat, acc) then 1 else 0)
  {
    seq(|catalog|, i requires 0 <= i < |catalog| => if HasKey(catalog[i], cat, acc) then Bump(catalog[i]) else catalog[i])
  }

  /** The loan record `checkOut` inserts: out today, due back `LoanDays` later. */
  function NewLoan(cat: string, acc: int, patron: string, today: int): (l: Loan)
    ensures l.dateOut == today && l.dateDue == today + LoanDays
    ensures l.category == cat && l.accession == acc && l.patron == patron
  {
    Loan(cat, acc, patron, today, today + LoanDays)
  }

  lemma BumpedSplit(catalog: seq<Entry>, cat: string, acc: int)
    requires catalog != []
    ensures var n := |catalog| - 1;
      Bumped(catalog, cat, acc) == Bumped(catalog[..n], cat, acc) + [Bumped(catalog, cat, acc)[n]]
  {
    var n := |catalog| - 1;
    var r := Bumped(catalog, cat, acc);
    assert r[..n] == Bumped(catalog[..n], cat, acc);
    assert r == r[..n] + [r[n]];
  }

  lemma {:induction false} BumpedCount(catalog: seq<Entry>, cat: string, acc: int, c: string)
    ensures Count(Bumped(catalog, cat, acc), InCategory(c)) == Count(catalog, InCategory(c))
  {
    if catalog != [] {
      var n := |catalog| - 1;
      BumpedSplit(catalog, cat, acc);
      BumpedCount(catalog[..n], cat, acc, c);
      CountAppend(Bumped(catalog[..n], cat, acc), Bumped(catalog, cat, acc)[n], InCategory(c));
    }
  }

  /** `checkOut` keeps the numbering. */
  lemma {:induction false} BumpedKeepsNumbered(catalog: seq<Entry>, cat: string, acc: int)
    requires Numbered(catalog)
    ensures Numbered(Bumped(catalog, cat, acc))
  {
    if catalog != [] {
      var n := |catalog| - 1;
      var r := Bumped(catalog, cat, acc);
      BumpedSplit(catalog, cat, acc);
      BumpedKeepsNumbered(catalog[..n], cat, acc);
      BumpedCount(catalog[..n], cat, acc, catalog[n].category);
      assert r[..n] == Bumped(catalog[..n], cat, acc);
    }
  }

  // ---------------------------------------------------------------------------
  // checkIn

  /** A loan that `checkIn(cat, ti, au)` closes: it is in category `cat` and its
      copy has that title and author (compared under NOCASE). */
  predicate Closes(catalog: seq<Entry>, cat: string, ti: string, au: string, l: Loan)
    ensures Closes(catalog, cat, ti, au, l) ==> l.category == cat && HasEntry(catalog, l.category, l.accession)
  {
    l.category == cat &&
    exists e :: e in catalog && Joins(e, l) && SameNoCase(e.title, ti) && SameNoCase(e.author, au)
  }

  function StaysOut(catalog: seq<Entry>, cat: string, ti: string, au: string): Loan -> bool
  {
    (l: Loan) => !Closes(catalog, cat, ti, au, l)
  }

  /** The circulation table after `checkIn(cat, ti, au)`. */
  function CheckedIn(circulation: seq<Loan>, catalog: seq<Entry>, cat: string, ti: string, au: string): (r: seq<Loan>)
    ensures |r| <= |circulation|
  {
    Filter(circulation, StaysOut(catalog, cat, ti, au))
  }

  /** `checkIn` removes exactly the loans it closes and keeps every other loan
      as often as it occurred. */
  lemma CheckInExact(circulation: seq<Loan>, catalog: seq<Entry>, cat: string, ti: string, au: string, l: Loan)
    ensures l in CheckedIn(circulation, catalog, cat, ti, au) <==> l in circulation && !Closes(catalog, cat, ti, au, l)
    ensures multiset(CheckedIn(circulation, catalog, cat, ti, au))[l] ==
      if Closes(catalog, cat, ti, au, l) then 0 else multiset(circulation)[l]
  {
    FilterMembers(circulation, StaysOut(catalog, cat, ti, au), l);
    FilterMultiplicity(circulation, StaysOut(catalog, cat, ti, au), l);
  }

  /** Checking a copy out and then checking in its title and author leaves no
      loan on that copy, while its circulation count stays incremented. */
  lemma CheckOutThenIn(catalog: seq<Entry>, circulation: seq<Loan>, e: Entry, patron: string, today: int, l: Loan)
    requires e in catalog
    ensures Bump(e) in Bumped(catalog, e.category, e.accession)
    ensures l in CheckedIn(circulation + [NewLoan(e.category, e.accession, patron, today)],
                           Bumped(catalog, e.category, e.accession), e.category, e.title, e.author)
      ==> !(l.category == e.category && l.accession == e.accession)
  {
    var bumped := Bumped(catalog, e.category, e.accession);
    var i :| 0 <= i < |catalog| && catalog[i] == e;
    assert bumped[i] == Bump(e);
    var loans := circulation + [NewLoan(e.category, e.accession, patron, today)];
    CheckInExact(loans, bumped, e.category, e.title, e.author, l);
    if l.category == e.category && l.accession == e.accession {
      assert Joins(bumped[i], l) && bumped[i] in bumped;
    }
  }

  // ---------------------------------------------------------------------------
  // getCats

  function CategoryOf(e: Entry): string
  {
    e.category
  }

  /** The cached category list: the category column of the `catalog` table. */
  function GetCats(catalog: seq<Entry>): (r: seq<string>)
    ensures |r| == |catalog|
  {
    Project(catalog, CategoryOf)
  }

  /** The cache lists the catalog's categories in table order, one per entry. */
  lemma GetCatsAt(catalog: seq<Entry>, i: nat)
    requires i < |catalog|
    ensures GetCats(catalog)[i] == catalog[i].category
  {
    ProjectAt(catalog, CategoryOf, i);
  }

  /** A code is cached exactly when some catalog entry has that category, so a
      category that no entry uses is absent whatever the `categories` table
      holds. */
  lemma GetCatsMembers(catalog: seq<Entry>, c: string)
    ensures c in GetCats(catalog) <==> exists e :: e in catalog && e.category == c
  {
    ProjectMembers(catalog, CategoryOf, c);
  }

  // ---------------------------------------------------------------------------
  // findBook

  function HitOf(e: Entry): Hit
  {
    Hit(e.category, e.title, e.author, e.cutter, e.note)
  }

  /** The WHERE clause of `findBook`. */
  predicate Found(e: Entry, cat: string, ti: string, au: string)
  {
    e.category == cat && Like(e.title, ti) && Like(e.author, au)
  }

  function FoundBy(cat: string, ti: string, au: string): Entry -> bool
  {
    (e: Entry) => Found(e, cat, ti, au)
  }

  /** The rows of `findBook(cat, ti, au)`. */
  function FindBook(catalog: seq<Entry>, cat: string := [AnyRun], ti: string := [AnyRun], au: string := [AnyRun]): (r: seq<Hit>)
    ensures |r| <= |catalog|
  {
    Project(Filter(catalog, FoundBy(cat, ti, au)), HitOf)
  }

  /** `findBook` returns one hit per entry of category `cat` whose title is LIKE
      `ti` and whose author is LIKE `au`, and no other hit. */
  lemma FindBookExact(catalog: seq<Entry>, cat: string, ti: string, au: string, h: Hit)
    ensures |FindBook(catalog, cat, ti, au)| == Count(catalog, FoundBy(cat, ti, au))
    ensures h in FindBook(catalog, cat, ti, au) <==>
      exists e :: e in catalog && e.category == cat && Like(e.title, ti) && Like(e.author, au) && h == HitOf(e)
    ensures multiset(FindBook(catalog, cat, ti, au))[h] ==
      Count(catalog, (e: Entry) => Found(e, cat, ti, au) && HitOf(e) == h)
  {
    SelectMultiplicity(catalog, FoundBy(cat, ti, au), HitOf, h);
    CountSameTest(catalog, Both(FoundBy(cat, ti, au), Yields(HitOf, h)), (e: Entry) => Found(e, cat, ti, au) && HitOf(e) == h);
    var kept := Filter(catalog, FoundBy(cat, ti, au));
    CountIsFilterLength(catalog, FoundBy(cat, ti, au));
    ProjectMembers(kept, HitOf, h);
    forall e ensures e in kept <==> e in catalog && Found(e, cat, ti, au) {
      FilterMembers(catalog, FoundBy(cat, ti, au), e);
    }
  }

  /** With its default title and author patterns `findBook` lists the whole category. */
  lemma FindDefaults(catalog: seq<Entry>, cat: string, h: Hit)
    ensures h in FindBook(catalog, cat) <==>
      exists e :: e in catalog && e.category == cat && h == HitOf(e)
  {
    FindBookExact(catalog, cat, [AnyRun], [AnyRun], h);
    forall e: Entry
      ensures Found(e, cat, [AnyRun], [AnyRun]) <==> e.category == cat
    {
      assert Like(e.title, [AnyRun]) && Like(e.author, [AnyRun]);
    }
  }

  /** Called with no arguments at all, `findBook` compares the category with
      `=` against its default `%`, which is no pattern there: it lists only the
      entries whose category is the one-character code `%`. */
  lemma FindAllDefaults(catalog: seq<Entry>, h: Hit)
    ensures h in FindBook(catalog) <==> exists e :: e in catalog && e.category == [AnyRun] && h == HitOf(e)
  {
    FindDefaults(catalog, [AnyRun], h);
  }

  /** A book just added is found again by its category and title. */
  lemma AddThenFind(catalog: seq<Entry>, cat: string, title: string, author: string, today: int)
    ensures Hit(cat, title, author, "", "") in FindBook(WithBook(catalog, cat, title, author, today), cat, title, [AnyRun])
  {
    var r := WithBook(catalog, cat, title, author, today);
    LikeItself(title);
    assert Like(author, [AnyRun]);
    FindBookExact(r, cat, title, [AnyRun], Hit(cat, title, author, "", ""));
    assert r[|catalog|] in r;
  }

  // ---------------------------------------------------------------------------
  // shelfList

  function ShelfRowOf(e: Entry): ShelfRow
  {
    ShelfRow(e.category, e.accession, e.title, e.author, e.cutter)
  }

  /** The selection of `shelfList`: a listed category, added within the dates. */
  predicate OnShelf(e: Entry, catCodes: seq<string>, fromDate: int, toDate: int)
  {
    e.category in catCodes && fromDate <= e.dateAdded <= toDate
  }

  function OnShelfFor(catCodes: seq<string>, fromDate: int, toDate: int): Entry -> bool
  {
    (e: Entry) => OnShelf(e, catCodes, fromDate, toDate)
  }

  /** The rows of `shelfList(catCodes, fromDate, toDate)`. */
  function ShelfList(catalog: seq<Entry>, catCodes: seq<string>, fromDate: int, toDate: int): (r: seq<ShelfRow>)
    ensures |r| <= |catalog|
  {
    Project(Filter(catalog, OnShelfFor(catCodes, fromDate, toDate)), ShelfRowOf)
  }

  /** `shelfList` lists one row per entry whose category is one of `catCodes` and
      whose date added lies in [fromDate, toDate], both ends included, and no
      other row. */
  lemma ShelfListExact(catalog: seq<Entry>, catCodes: seq<string>, fromDate: int, toDate: int, row: ShelfRow)
    ensures |ShelfList(catalog, catCodes, fromDate, toDate)| == Count(catalog, OnShelfFor(catCodes, fromDate, toDate))
    ensures row in ShelfList(catalog, catCodes, fromDate, toDate) <==>
      exists e :: e in catalog && e.category in catCodes && fromDate <= e.dateAdded <= toDate && row == ShelfRowOf(e)
    ensures multiset(ShelfList(catalog, catCodes, fromDate, toDate))[row] ==
      Count(catalog, (e: Entry) => OnShelf(e, catCodes, fromDate, toDate) && ShelfRowOf(e) == row)
  {
    SelectMultiplicity(catalog, OnShelfFor(catCodes, fromDate, toDate), ShelfRowOf, row);
    CountSameTest(catalog, Both(OnShelfFor(catCodes, fromDate, toDate), Yields(ShelfRowOf, row)),
      (e: Entry) => OnShelf(e, catCodes, fromDate, toDate) && ShelfRowOf(e) == row);
    var kept := Filter(catalog, OnShelfFor(catCodes, fromDate, toDate));
    CountIsFilterLength(catalog, OnShelfFor(catCodes, fromDate, toDate));
    ProjectMembers(kept, ShelfRowOf, row);
    forall e ensures e in kept <==> e in catalog && OnShelf(e, catCodes, fromDate, toDate) {
      FilterMembers(catalog, OnShelfFor(catCodes, fromDate, toDate), e);
    }
  }

  // ---------------------------------------------------------------------------
  // outList and dueList

  function OutRowOf(l: Loan, e: Entry): OutRow
  {
    OutRow(l.patron, e.title, e.author, e.cutter, e.note, l.dateDue)
  }

  function RowFor(l: Loan): Entry -> OutRow
  {
    (e: Entry) => OutRowOf(l, e)
  }

  /** The joined rows of one loan: one per catalog entry with the loan's key. */
  function LoanRows(catalog: seq<Entry>, l: Loan): (r: seq<OutRow>)
    ensures |r| <= |catalog|
  {
    Project(Filter(catalog, JoinsLoan(l)), RowFor(l))
  }

  lemma LoanRowsExact(catalog: seq<Entry>, l: Loan, row: OutRow)
    ensures |LoanRows(catalog, l)| == Count(catalog, JoinsLoan(l))
    ensures row in LoanRows(catalog, l) <==> exists e :: e in catalog && Joins(e, l) && row == OutRowOf(l, e)
    ensures multiset(LoanRows(catalog, l))[row] == Count(catalog, (e: Entry) => Joins(e, l) && OutRowOf(l, e) == row)
  {
    SelectMultiplicity(catalog, JoinsLoan(l), RowFor(l), row);
    CountSameTest(catalog, Both(JoinsLoan(l), Yields(RowFor(l), row)), (e: Entry) => Joins(e, l) && OutRowOf(l, e) == row);
    var kept := Filter(catalog, JoinsLoan(l));
    CountIsFilterLength(catalog, JoinsLoan(l));
    ProjectMembers(kept, RowFor(l), row);
    forall e ensures e in kept <==> e in catalog && Joins(e, l) {
      FilterMembers(catalog, JoinsLoan(l), e);
    }
  }

  /** The rows of `outList`: the inner join of `circulation` with `catalog` on
      (category, accession), loan by loan. */
  function OutList(catalog: seq<Entry>, circulation: seq<Loan>): (r: seq<OutRow>)
    ensures |r| <= |circulation| * |catalog|
  {
    if circulation == [] then []
    else
      var init := circulation[..|circulation| - 1];
      assert |init| * |catalog| + |catalog| == |circulation| * |catalog|;
      OutList(catalog, init) + LoanRows(catalog, circulation[|circulation| - 1])
  }

  /** `outList` holds exactly the rows built from a loan and a catalog entry with
      the same (category, accession). */
  lemma {:induction false} OutListExact(catalog: seq<Entry>, circulation: seq<Loan>, row: OutRow)
    ensures row in OutList(catalog, circulation) <==>
      exists l, e :: l in circulation && e in catalog && Joins(e, l) && row == OutRowOf(l, e)
  {
    if circulation != [] {
      var init, last := circulation[..|circulation| - 1], circulation[|circulation| - 1];
      assert circulation == init + [last];
      OutListExact(catalog, init, row);
      LoanRowsExact(catalog, last, row);
    }
  }

  lemma OutListAppend(catalog: seq<Entry>, circulation: seq<Loan>, l: Loan)
    ensures OutList(catalog, circulation + [l]) == OutList(catalog, circulation) + LoanRows(catalog, l)
  {
    assert (circulation + [l])[..|circulation|] == circulation;
  }

  /** The join condition on a pair of a loan and an entry of the cross product. */
  predicate JoinedPair(p: (Loan, Entry))
  {
    Joins(p.1, p.0)
  }

  /** The column list of `outList` over a pair of the cross product. */
  function PairRow(p: (Loan, Entry)): OutRow
  {
    OutRowOf(p.0, p.1)
  }

  /** One loan's rows are its pairs with the catalog, selected and projected. */
  lemma {:induction false} LoanPairs(catalog: seq<Entry>, l: Loan)
    ensures Project(Filter(Project(catalog, PairWith(l)), JoinedPair), PairRow) == LoanRows(catalog, l)
  {
    if catalog != [] {
      var init, last := catalog[..|catalog| - 1], catalog[|catalog| - 1];
      assert catalog == init + [last];
      LoanPairs(init, l);
      var pairs := Project(init, PairWith(l));
      assert Project(catalog, PairWith(l)) == pairs + [(l, last)];
      FilterAppend(pairs, (l, last), JoinedPair);
      FilterAppend(init, last, JoinsLoan(l));
      assert JoinedPair((l, last)) == JoinsLoan(l)(last);
      if Joins(last, l) {
        ProjectAppend(Filter(pairs, JoinedPair), (l, last), PairRow);
        ProjectAppend(Filter(init, JoinsLoan(l)), last, RowFor(l));
        assert PairRow((l, last)) == RowFor(l)(last);
      } else {
        assert Filter(Project(catalog, PairWith(l)), JoinedPair) == Filter(pairs, JoinedPair);
        assert Filter(catalog, JoinsLoan(l)) == Filter(init, JoinsLoan(l));
      }
    }
  }

  /** `outList` is the SELECT it is written as: the pairs of the cross product
      of `circulation` and `catalog` that agree on (category, accession), each
      turned into its row. */
  lemma {:induction false} OutListIsJoin(catalog: seq<Entry>, circulation: seq<Loan>)
    ensures OutList(catalog, circulation) == Project(Filter(Cross(circulation, catalog), JoinedPair), PairRow)
  {
    if circulation != [] {
      var init, last := circulation[..|circulation| - 1], circulation[|circulation| - 1];
      OutListIsJoin(catalog, init);
      var before, added := Cross(init, catalog), Project(catalog, PairWith(last));
      assert Cross(circulation, catalog) == before + added;
      FilterConcat(before, added, JoinedPair);
      ProjectConcat(Filter(before, JoinedPair), Filter(added, JoinedPair), PairRow);
      LoanPairs(catalog, last);
    }
  }

  /** Each row of `outList` occurs once per pair of a loan and a catalog entry
      that agree on (category, accession) and give that row; a pair occurs in
      the cross product as often as its loan times as often as its entry. */
  lemma OutListMultiplicity(catalog: seq<Entry>, circulation: seq<Loan>, row: OutRow)
    ensures multiset(OutList(catalog, circulation))[row] ==
      Count(Cross(circulation, catalog), (p: (Loan, Entry)) => Joins(p.1, p.0) && OutRowOf(p.0, p.1) == row)
  {
    var pairs := Cross(circulation, catalog);
    OutListIsJoin(catalog, circulation);
    SelectMultiplicity(pairs, JoinedPair, PairRow, row);
    assert multiset(OutList(catalog, circulation))[row] == Count(pairs, Both(JoinedPair, Yields(PairRow, row)));
    var gives := (p: (Loan, Entry)) => Joins(p.1, p.0) && OutRowOf(p.0, p.1) == row;
    forall i | 0 <= i < |pairs| ensures Both(JoinedPair, Yields(PairRow, row))(pairs[i]) == gives(pairs[i]) {
      var p := pairs[i];
      assert JoinedPair(p) == Joins(p.1, p.0);
      assert Yields(PairRow, row)(p) == (OutRowOf(p.0, p.1) == row);
    }
    CountSameTest(pairs, Both(JoinedPair, Yields(PairRow, row)), gives);
  }

  /** When every loan's key names exactly one entry, row k of `outList` is
      loan k joined to its entry. */
  lemma {:induction false} OutListPerLoan(catalog: seq<Entry>, circulation: seq<Loan>)
    requires forall l :: l in circulation ==> Count(catalog, JoinsLoan(l)) == 1
    ensures |OutList(catalog, circulation)| == |circulation|
    ensures forall k :: 0 <= k < |circulation| ==>
      exists e :: e in catalog && Joins(e, circulation[k]) && OutList(catalog, circulation)[k] == OutRowOf(circulation[k], e)
  {
    OneRowPerLoan(catalog, circulation);
    if circulation != [] {
      var n := |circulation| - 1;
      var init, last := circulation[..n], circulation[n];
      assert circulation == init + [last];
      OutListPerLoan(catalog, init);
      var r := OutList(catalog, circulation);
      var rows := LoanRows(catalog, last);
      assert r == OutList(catalog, init) + rows;
      CountIsFilterLength(catalog, JoinsLoan(last));
      assert |rows| == 1;
      LoanRowsExact(catalog, last, rows[0]);
      assert rows[0] in rows;
      forall k | 0 <= k < |circulation|
        ensures exists e :: e in catalog && Joins(e, circulation[k]) && r[k] == OutRowOf(circulation[k], e)
      {
        if k < n {
          assert circulation[k] == init[k];
          assert r[k] == OutList(catalog, init)[k];
        } else {
          assert r[k] == rows[0];
        }
      }
    }
  }

  function DueBy(today: int): Loan -> bool
  {
    (l: Loan) => l.dateDue >= today
  }

  /** The rows of `dueList`: the joined rows of the loans due today or later. */
  function DueList(catalog: seq<Entry>, circulation: seq<Loan>, today: int): (r: seq<OutRow>)
    ensures forall k :: 0 <= k < |r| ==> r[k].dateDue >= today
  {
    var due := Filter(circulation, DueBy(today));
    DueLoansDue(circulation, today);
    OutListDates(catalog, due, today);
    OutList(catalog, due)
  }

  lemma DueLoansDue(circulation: seq<Loan>, today: int)
    ensures forall l :: l in Filter(circulation, DueBy(today)) ==> l.dateDue >= today
  {
    forall l | l in Filter(circulation, DueBy(today)) ensures l.dateDue >= today {
      FilterMembers(circulation, DueBy(today), l);
    }
  }

  /** Every row of the report carries the due date of one of its loans. */
  lemma OutListDates(catalog: seq<Entry>, circulation: seq<Loan>, today: int)
    requires forall l :: l in circulation ==> l.dateDue >= today
    ensures forall k :: 0 <= k < |OutList(catalog, circulation)| ==> OutList(catalog, circulation)[k].dateDue >= today
  {
    var r := OutList(catalog, circulation);
    forall k | 0 <= k < |r| ensures r[k].dateDue >= today {
      OutListExact(catalog, circulation, r[k]);
    }
  }

  /** `dueList` keeps exactly the `outList` rows whose due date is today or later. */
  lemma DueListExact(catalog: seq<Entry>, circulation: seq<Loan>, today: int, row: OutRow)
    ensures row in DueList(catalog, circulation, today) <==>
      row in OutList(catalog, circulation) && row.dateDue >= today
  {
    var due := Filter(circulation, DueBy(today));
    OutListExact(catalog, due, row);
    OutListExact(catalog, circulation, row);
    forall l ensures l in due <==> l in circulation && l.dateDue >= today {
      FilterMembers(circulation, DueBy(today), l);
    }
  }

  /** The rows due today or later. */
  function RowDueBy(today: int): OutRow -> bool
  {
    (r: OutRow) => r.dateDue >= today
  }

  /** `dueList` is `outList` with the rows due before today removed, in the
      same order: so each row of `dueList` occurs as often as in `outList`. */
  lemma DueListIsFilter(catalog: seq<Entry>, circulation: seq<Loan>, today: int, row: OutRow)
    ensures DueList(catalog, circulation, today) == Filter(OutList(catalog, circulation), RowDueBy(today))
    ensures |DueList(catalog, circulation, today)| == Count(OutList(catalog, circulation), RowDueBy(today))
    ensures multiset(DueList(catalog, circulation, today))[row] ==
      if row.dateDue >= today then multiset(OutList(catalog, circulation))[row] else 0
  {
    DueLoansRows(catalog, circulation, today);
    CountIsFilterLength(OutList(catalog, circulation), RowDueBy(today));
    FilterMultiplicity(OutList(catalog, circulation), RowDueBy(today), row);
  }

  lemma {:induction false} DueLoansRows(catalog: seq<Entry>, circulation: seq<Loan>, today: int)
    ensures OutList(catalog, Filter(circulation, DueBy(today))) == Filter(OutList(catalog, circulation), RowDueBy(today))
  {
    if circulation != [] {
      var init, last := circulation[..|circulation| - 1], circulation[|circulation| - 1];
      assert circulation == init + [last];
      var due := Filter(init, DueBy(today));
      DueLoansRows(catalog, init, today);
      OutListAppend(catalog, init, last);
      FilterConcat(OutList(catalog, init), LoanRows(catalog, last), RowDueBy(today));
      FilterAppend(init, last, DueBy(today));
      DueLoanRows(catalog, last, today);
      if last.dateDue >= today {
        OutListAppend(catalog, due, last);
      } else {
        assert Filter(circulation, DueBy(today)) == due;
      }
    }
  }

  /** A loan's rows all carry its due date, so the due-date test keeps all of
      them or none. */
  lemma DueLoanRows(catalog: seq<Entry>, l: Loan, today: int)
    ensures Filter(LoanRows(catalog, l), RowDueBy(today)) == if l.dateDue >= today then LoanRows(catalog, l) else []
  {
    var rows := LoanRows(catalog, l);
    forall k | 0 <= k < |rows| ensures rows[k].dateDue == l.dateDue {
      LoanRowsExact(catalog, l, rows[k]);
    }
    if l.dateDue >= today {
      FilterKeepsAll(rows, RowDueBy(today));
    } else {
      var kept := Filter(rows, RowDueBy(today));
      if kept != [] {
        FilterMembers(rows, RowDueBy(today), kept[0]);
        assert false;
      }
    }
  }

  /** When every loan's key names exactly one entry, `outList` has exactly one
      row per loan. */
  lemma {:induction false} OneRowPerLoan(catalog: seq<Entry>, circulation: seq<Loan>)
    requires forall l :: l in circulation ==> Count(catalog, JoinsLoan(l)) == 1
    ensures |OutList(catalog, circulation)| == |circulation|
  {
    if circulation != [] {
      var init, last := circulation[..|circulation| - 1], circulation[|circulation| - 1];
      assert circulation == init + [last];
      OneRowPerLoan(catalog, init);
      CountIsFilterLength(catalog, JoinsLoan(last));
    }
  }

  /** In a numbered catalog every loan on an existing copy yields exactly one
      `outList` row, and row k is loan k joined to its copy. */
  lemma NumberedOneRowPerLoan(catalog: seq<Entry>, circulation: seq<Loan>)
    requires Numbered(catalog)
    requires forall l :: l in circulation ==> HasEntry(catalog, l.category, l.accession)
    ensures |OutList(catalog, circulation)| == |circulation|
    ensures forall k :: 0 <= k < |circulation| ==>
      exists e :: e in catalog && Joins(e, circulation[k]) && OutList(catalog, circulation)[k] == OutRowOf(circulation[k], e)
  {
    forall l | l in circulation
      ensures Count(catalog, JoinsLoan(l)) == 1
    {
      NumberedKeyCount(catalog, l.category, l.accession);
      CountSameTest(catalog, JoinsLoan(l), IsKey(l.category, l.accession));
      var e :| e in catalog && HasKey(e, l.category, l.accession);
      FilterMembers(catalog, JoinsLoan(l), e);
      CountIsFilterLength(catalog, JoinsLoan(l));
    }
    OutListPerLoan(catalog, circulation);
  }

  /** Counting a checkout changes no row of the reports. */
  lemma {:induction false} BumpedLoanRows(catalog: seq<Entry>, cat: string, acc: int, l: Loan)
    ensures LoanRows(Bumped(catalog, cat, acc), l) == LoanRows(catalog, l)
  {
    if catalog != [] {
      var n := |catalog| - 1;
      var init, last := catalog[..n], catalog[n];
      var b := Bumped(catalog, cat, acc);
      BumpedSplit(catalog, cat, acc);
      BumpedLoanRows(init, cat, acc, l);
      assert catalog == init + [last];
      FilterAppend(init, last, JoinsLoan(l));
      FilterAppend(Bumped(init, cat, acc), b[n], JoinsLoan(l));
      assert b[n].(timesCirculated := last.timesCirculated) == last;
      assert JoinsLoan(l)(b[n]) == JoinsLoan(l)(last);
      if Joins(last, l) {
        ProjectAppend(Filter(init, JoinsLoan(l)), last, RowFor(l));
        ProjectAppend(Filter(Bumped(init, cat, acc), JoinsLoan(l)), b[n], RowFor(l));
        assert RowFor(l)(b[n]) == RowFor(l)(last);
      } else {
        assert Filter(catalog, JoinsLoan(l)) == Filter(init, JoinsLoan(l));
        assert Filter(b, JoinsLoan(l)) == Filter(Bumped(init, cat, acc), JoinsLoan(l));
      }
    }
  }

  lemma {:induction false} BumpedOutList(catalog: seq<Entry>, cat: string, acc: int, circulation: seq<Loan>)
    ensures OutList(Bumped(catalog, cat, acc), circulation) == OutList(catalog, circulation)
  {
    if circulation != [] {
      BumpedOutList(catalog, cat, acc, circulation[..|circulation| - 1]);
      BumpedLoanRows(catalog, cat, acc, circulation[|circulation| - 1]);
    }
  }

  /** With nothing out, one checkout of a copy whose key is unique makes `outList`
      exactly that copy's row, naming the patron and the day it is due back. */
  lemma OneCheckoutOneRow(catalog: seq<Entry>, e: Entry, patron: string, today: int)
    requires e in catalog && Count(catalog, IsKey(e.category, e.accession)) == 1
    ensures OutList(Bumped(catalog, e.category, e.accession), [NewLoan(e.category, e.accession, patron, today)])
      == [OutRow(patron, e.title, e.author, e.cutter, e.note, today + LoanDays)]
  {
    var l := NewLoan(e.category, e.accession, patron, today);
    BumpedOutList(catalog, e.category, e.accession, [l]);
    CountSameTest(catalog, JoinsLoan(l), IsKey(e.category, e.accession));
    CountIsFilterLength(catalog, JoinsLoan(l));
    var kept := Filter(catalog, JoinsLoan(l));
    FilterMembers(catalog, JoinsLoan(l), e);
    assert kept == [e];
    assert kept == [] + [e];
    ProjectAppend([], e, RowFor(l));
    assert [l][..0] == [];
    assert OutList(catalog, [l]) == LoanRows(catalog, l);
  }
}
