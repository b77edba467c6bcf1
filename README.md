# LendingLibrary catalog, modelled in Dafny

This project models the `Catalog` class of `library.py` and proves properties of it. The class is a small
lending-library store kept in sqlite. It has three tables:

- `categories`: the holdings category codes;
- `catalog`: one row per copy, with category, accession number, title, author, cutter, label note, times
  circulated and date added;
- `circulation`: one row per copy currently out, with the patron and the dates out and due.

The class also keeps `cats`, a cached list of categories.

The model holds the tables as values: `categories` is a set of codes, and the other two tables are sequences of
rows in table order. Dates are day numbers, which are Python's `date.toordinal()` values, so `date(1980,1,1)` is
722815 and `date(9999,12,12)` is 3652040. Every operation that reads the clock takes `today` as a parameter
instead.

The model is split into four modules:

- `Seqs` holds what SQL does to tables: selection by a WHERE clause (`Filter`), `COUNT` (`Count`), the
  column list of a SELECT (`Project`) and the cross product of a FROM clause over two tables (`Cross`). Each
  comes with lemmas for membership, multiplicity, length and appending a row. `SelectMultiplicity` combines them: a row of a SELECT occurs once for each table row that passes the
  WHERE clause and yields it, so the queries below are characterised as multisets and not only as sets.
- `Pattern` holds SQL `LIKE` as the searches use it. `%` matches any run of characters, `_` matches exactly one
  character, and every other character matches itself. ASCII letters are compared without case, which is also
  how the `collate nocase` columns compare under `=`.
- `Tables` holds the row datatypes and one pure function per change that an operation makes to a table:
  `WithBook`, `WithoutBook`, `Bumped` with `NewLoan`, and `CheckedIn`. It also holds the read-only queries
  `GetCats`, `FindBook`, `ShelfList`, `OutList` and `DueList`, together with the lemmas about all of them.
- `Library` holds the class `Catalog`, with the three tables and `cats` as fields. Its methods change those
  fields in place and state the new state through the `Tables` functions. `ShelfList` keeps the source's loop,
  which gathers the requested category codes before the selection.

Accession numbers are one more than the number of copies already in the category. A catalog built only by
`addBook` and `checkOut` is `Numbered`: each category's copies carry 1, 2, … in table order, so every
(category, accession) key is unique, and every loan on an existing copy gives exactly one line of the
currently-out report. `delBook` does not keep this property. In a category of n copies, deleting any copy
except copy n and then adding a copy gives the new copy accession n, which the remaining copy n already has
(`DeleteThenAddDuplicatesKey`).

As written, `library.py` cannot execute: several statements fail before they reach the database. In those places
the model follows what the code evidently means:

- `__init__` calls `self.getCats(self)` (line 37), which passes `self` twice. The model calls `getCats()`.
- The `catalog` table definition has no closing parenthesis (line 55), and the `circulation` one has no comma
  before its first foreign key (line 63). The model takes the tables as the column lists mean them.
- `date aded date` (line 52) declares a column named `date`, so `t1.dateAdded` (line 95) names no column. The
  model gives each entry a date added.
- `addBook` and `shelfList` pass a bare string (`cat` at line 74, `code` at line 89) where sqlite expects a
  sequence of parameters, which fails for any code longer than one character. The model binds the whole code.
- `dueList` passes `date.today()` itself where a sequence of parameters is expected (line 165). The model binds
  today's date.
- `addBook` adds 1 to a cursor (line 73) instead of to the count the cursor returns. The model uses the count.
- `addBook` inserts four values into a table with more columns (line 76). The model stores the given category,
  accession, title and author, an empty cutter and note, a circulation count of 0, and `today` as the date
  added. The source sets no date added (its schema column is misspelt `date aded`) yet `shelfList` selects on it.
- `delBook` writes the names `cat` and `acessionNo` into the SQL text instead of binding them (lines 81-82). The
  model deletes the rows whose key is (category, accession) with the given values.
- `checkOut` updates the column `timesCirculated` (line 131), while the schema calls it `times_circulated`. The
  model adds one to the circulation count.
- `checkIn` filters `circulation` on `title` and `author` (lines 116-118), but that table has neither column.
  The model joins each loan to its catalog entry and compares that entry's title and author under NOCASE,
  because the catalog columns are `collate nocase` (lines 47-50).
- `addCat` inserts one value into the two-column `categories` table (line 139). The model adds the code with no
  definition.
- `addCat` and `delCat` refresh `cats` from the `catalog` table's category column (line 69), not from
  `categories`. The model does the same, so `cats` has one element per catalog entry, in table order, and a
  category with no books is never in it.
- `cats` is refreshed only by `addCat` and `delCat`. `addBook` leaves it stale, as the source does.
- `findBook` compares the category with `=`, not `LIKE` (line 107). Its default category `%` is therefore not a
  wildcard: only a category whose code is literally `%` matches it (`FindAllDefaults`).
- In `checkOut`, `fetchone` of no row makes line 129 raise before any change. The model returns
  `Failed(NoSuchEntry)` and changes nothing.
- `checkOut` does not refuse a copy that is already out. The model does not refuse it either.
- `addCat` of a code already present violates the primary key (line 41) before `cats` is refreshed. The model
  returns `Failed(DuplicateCategory)` and changes nothing.
- Foreign keys are declared, but sqlite does not enforce them by default. So `addBook` accepts any category,
  `delBook` leaves loans on a deleted copy in `circulation`, and `delCat` leaves that category's copies in the
  catalog.

## Model

| member | source | states |
|---|---|---|
| `Tables.WithBook` | library.py:72-77 | `addBook` appends exactly one entry and keeps every earlier entry. The new entry has the given category, title and author, accession one plus the number of entries already in the category, a circulation count of 0 and today as its date added. The category then has one more entry. |
| `Tables.SequentialAccessions` | library.py:73-76 | n successive `addBook` calls on one category append n entries numbered consecutively from one past the category's current count. On an empty category that is 1..n. The earlier entries are untouched. |
| `Tables.WithBookKeepsNumbered` | library.py:73-76 | `addBook` keeps the numbering invariant: every accession is one plus the number of earlier entries in its category. |
| `Tables.NumberedAccessions` | library.py:73-76 | Under the numbering invariant, the k-th entry of a category in table order has accession k+1. |
| `Tables.NumberedBounds` | library.py:73-76 | Under the numbering invariant, every accession lies between 1 and the number of entries in its category. |
| `Tables.NumberedKeyCount` | library.py:73-76 | Under the numbering invariant, at most one entry has a given (category, accession) key. |
| `Tables.WithoutBook` | library.py:79-83 | `delBook` never adds rows. |
| `Tables.DelBookExact` | library.py:79-83 | After `delBook(cat, acc)` an entry is present if and only if it was present and does not have key (cat, acc). Every kept entry keeps its multiplicity, and every deleted entry has multiplicity 0. |
| `Tables.DelBookMissing` | library.py:79-83 | `delBook` of a key that no entry has leaves the catalog unchanged. |
| `Tables.WithoutBookCount` | library.py:79-83 | `delBook(cat, acc)` lowers the count of category `cat` by the number of entries with key (cat, acc), and leaves the count of every other category unchanged. |
| `Tables.WithoutBookKeyCount` | library.py:79-83 | `delBook(cat, acc)` leaves unchanged the number of entries with key (cat, a), for every accession a other than `acc`. |
| `Tables.NumberedKeyPresent` | library.py:73-76 | Under the numbering invariant, each accession from 1 to n, in a category with n entries, is the key of exactly one entry. |
| `Tables.DeleteThenAddDuplicatesKey` | library.py:73-83 | In a numbered catalog, deleting copy `acc` of a category with n copies, where acc < n, and then adding a copy gives the new copy accession n. Two entries then have key (cat, n), and the catalog is no longer numbered. |
| `Tables.Bumped` | library.py:130-133 | The `checkOut` update keeps the catalog's length. It adds exactly one to the circulation count of each entry with the key, leaves every other entry as it was, and changes no column other than the count. |
| `Tables.NewLoan` | library.py:122-124 | The loan record has the given category, accession and patron. It is out today and due `LoanDays` (14) days later. |
| `Tables.BumpedKeepsNumbered` | library.py:130-133 | The `checkOut` update keeps the numbering invariant. |
| `Tables.BumpedOutList` | library.py:130-133 | The `checkOut` update changes no row of the currently-out report. |
| `Tables.Closes` | library.py:115-118 | A loan that `checkIn(cat, ti, au)` closes is in category `cat` and is on a copy that the catalog holds, so a loan on a deleted copy is never closed. |
| `Tables.CheckedIn` | library.py:113-119 | `checkIn` never adds loans. |
| `Tables.CheckInExact` | library.py:113-119 | After `checkIn(cat, ti, au)` a loan is present if and only if it was present and is not closed by the call. A loan is closed when it is in category `cat` and its copy's title and author equal `ti` and `au` under NOCASE. Every kept loan keeps its multiplicity. |
| `Tables.CheckOutThenIn` | library.py:113-136 | After checking out a copy and then checking in its category, title and author, no loan on that copy remains, and the copy's count stays incremented. |
| `Tables.GetCats` | library.py:68-70 | The cache has one element per catalog row. |
| `Tables.GetCatsAt` | library.py:68-70 | Element i of the cache is the category of catalog row i. |
| `Tables.GetCatsMembers` | library.py:68-70 | A code is in the cache if and only if some catalog entry has that category. |
| `Tables.FindBook` | library.py:103-111 | `findBook` returns at most one hit per catalog entry. |
| `Tables.FindBookExact` | library.py:103-111 | `findBook(cat, ti, au)` returns exactly one hit per entry whose category equals `cat` and whose title and author are LIKE `ti` and `au`. A hit is in the result if and only if it is the (category, title, author, cutter, note) of such an entry, and it occurs exactly as many times as there are such entries that yield it. |
| `Tables.FindDefaults` | library.py:103-111 | With the default `%` title and author, `findBook(cat)` returns the hits of exactly the entries in category `cat`. |
| `Tables.FindAllDefaults` | library.py:103-107 | With every argument defaulted, `findBook()` returns the hits of exactly the entries whose category is the literal code `%`. |
| `Tables.AddThenFind` | library.py:72-111 | A book just added is found by its category and exact title. |
| `Tables.ShelfList` | library.py:90-95 | The shelf list has at most one row per catalog entry. |
| `Tables.ShelfListExact` | library.py:90-95 | The shelf list has exactly one row per entry whose category is among the codes and whose date added lies in [fromDate, toDate], both ends included. A row is present if and only if it is the (category, accession, title, author, cutter) of such an entry, and it occurs exactly as many times as there are such entries that yield it. |
| `Tables.LoanRows` | library.py:150-153 | One loan joins to at most one row per catalog entry. |
| `Tables.LoanRowsExact` | library.py:150-153 | The joined rows of one loan number as many as the entries with the loan's (category, accession). A row is among them if and only if it is built from the loan and such an entry, and it occurs exactly as many times as there are such entries that yield it. |
| `Tables.OutList` | library.py:150-153 | The currently-out report, which joins every loan to the entries with its key, has at most one row per pair of a loan and an entry. |
| `Tables.DueList` | library.py:161-165 | Every row of the due report is due today or later. |
| `Tables.OutListExact` | library.py:150-153 | A row is in the currently-out report if and only if some loan and some entry with the same (category, accession) give it. The row holds the patron, title, author, cutter, note and due date. |
| `Tables.DueListExact` | library.py:161-165 | A row is in the due report if and only if it is in the currently-out report and its due date is today or later. |
| `Tables.OutListIsJoin` | library.py:150-153 | The currently-out report is its SELECT: the pairs of the cross product of `circulation` and `catalog` that agree on (category, accession), each projected to (patron, title, author, cutter, note, due date). |
| `Tables.OutListMultiplicity` | library.py:150-153 | Every row occurs in the currently-out report exactly as often as there are pairs in the cross product of a loan and an entry that agree on (category, accession) and give that row. |
| `Seqs.CrossMultiplicity` | library.py:150-151 | A (loan, entry) pair occurs in the cross product of the two tables as often as the loan occurs in `circulation` times as often as the entry occurs in `catalog`. |
| `Seqs.CrossMembers` | library.py:150-151 | A pair is in the cross product if and only if its loan is in `circulation` and its entry is in `catalog`. |
| `Tables.OutListPerLoan` | library.py:150-153 | When every loan's key names exactly one entry, the report has one row per loan, and row k is loan k joined to an entry with its key. |
| `Tables.DueListIsFilter` | library.py:161-165 | The due report is the currently-out report with the rows due before today removed, in the same order. Its length is the number of report rows due today or later, and each such row occurs in it exactly as often as in the currently-out report. |
| `Tables.DueLoansRows` | library.py:161-165 | Joining only the loans due today or later gives the joined rows with a due date of today or later. |
| `Tables.OneRowPerLoan` | library.py:150-153 | When every loan's key names exactly one entry, the currently-out report has exactly one row per loan. |
| `Tables.NumberedOneRowPerLoan` | library.py:150-153 | In a numbered catalog where every loan is on an existing copy, the currently-out report has exactly one row per loan, and row k is loan k joined to its copy. |
| `Tables.OneCheckoutOneRow` | library.py:121-157 | With nothing out, one checkout of a copy with a unique key makes the currently-out report exactly one row. That row holds the patron, the copy's title, author, cutter and note, and a due date 14 days after checkout. |
| `Pattern.SameNoCase` | library.py:47-50 | Two strings are equal under the NOCASE collation if and only if they have the same length and agree character by character once ASCII upper-case letters are lowered. |
| `Pattern.Matches` | library.py:108-109 | A lone `%` matches every string. A string that matches is at least as long as the pattern's characters other than `%`. |
| `Pattern.Like` | library.py:103-109 | `LIKE '%'`, the default title and author pattern, accepts every string. A string that is LIKE a pattern is at least as long as the pattern's characters other than `%`. |
| `Pattern.LikeIgnoresCase` | library.py:108-109 | Lowering the ASCII letters of the subject or of the pattern does not change whether LIKE holds. |
| `Pattern.LikeItself` | library.py:108-109 | Every string is LIKE itself. |
| `Pattern.LikeLiteral` | library.py:108-109 | With a pattern that has no `%` or `_`, LIKE holds if and only if the strings are equal up to ASCII case. |
| `Pattern.LikeContains` | library.py:108-109 | With a wildcard-free `q`, `LIKE '%q%'` holds if and only if `q` occurs in the string, ignoring ASCII case. |
| `Pattern.TrailingAnyRun` | library.py:108-109 | With a wildcard-free `q`, the pattern `q%` matches exactly the strings that start with `q`. |
| `Pattern.LeadingAnyRun` | library.py:108-109 | The pattern `%q` matches a string if and only if `q` matches one of its suffixes. |
| `Pattern.AnyCharsMatchLength` | library.py:108-109 | A pattern made of n `_` and nothing else matches a string if and only if the string has exactly n characters. |
| `Pattern.LikeAnyChars` | library.py:108-109 | `LIKE` with a pattern of n `_` accepts exactly the strings of n characters. |
| `Pattern.LiteralMatchesOnlyItself` | library.py:108-109 | A pattern without wildcards matches exactly the one string it spells. |
| `Library.Catalog.constructor` | library.py:32-37 | Opening the store holds the saved tables, and `cats` is the category column of the catalog. |
| `Library.Catalog.AddBook` | library.py:72-77 | The catalog becomes `WithBook` of the old catalog. The new entry's accession is one plus the category's previous count. `categories`, `circulation` and `cats` are unchanged. The numbering is kept. |
| `Library.Catalog.DelBook` | library.py:79-83 | The catalog becomes `WithoutBook` of the old catalog, or stays unchanged when no entry has the key. `circulation`, `categories` and `cats` are unchanged. |
| `Library.Catalog.CheckOut` | library.py:121-135 | The call fails with `NoSuchEntry`, changing nothing, if and only if no entry has the key. Otherwise the catalog becomes `Bumped`, and exactly one loan (cat, acc, patron, today, today + 14) is appended. The numbering is kept. |
| `Library.Catalog.CheckIn` | library.py:113-119 | `circulation` becomes `CheckedIn` of the old loans against the catalog. The catalog, `categories` and `cats` are unchanged. |
| `Library.Catalog.AddCat` | library.py:138-141 | The call fails with `DuplicateCategory`, changing nothing, if and only if the code is present. Otherwise `categories` gains exactly that code, and `cats` is recomputed from the catalog. |
| `Library.Catalog.DelCat` | library.py:143-146 | `categories` loses exactly that code, or is unchanged if the code was absent. `cats` is recomputed from the catalog, and the tables are unchanged. |
| `Library.Catalog.ShelfList` | library.py:85-95 | After gathering the codes one by one, the rows are exactly the `ShelfList` selection of the catalog over all the given codes and dates. The defaults are 1980-01-01 and 9999-12-12. |
| `Library.FirstLoanSession` | library.py:138-157 | From an empty store, `addCat`, `addBook` and `checkOut` produce a currently-out report of exactly one row, naming the patron and the day the copy is due. |

## Left out

- The sqlite connection, the table definitions and indexes of `checkDB`, and every `commit` (lines 33-34 and
  39-66). The tables are plain values, so each operation is atomic.
- The transaction log line of `checkOut` (line 136). It is file output, and it needs Python's `str` of a date.
  As written it would also raise: `format(entry)` passes one tuple where seven arguments are expected.
- The report files of `shelfList`, `outList` and `dueList` (lines 98-101, 149-157 and 160-168). This is file
  output. The model gives the rows they would hold, not the tab-separated text: the header line written without
  a newline, dates rendered by `str`, and `"\t".join` called with six arguments are all left out.
- The column order of `dueList` (line 161): it selects title, author, cutter, note, patron and due date, yet
  writes the same header as `outList`. The model uses one row type for both reports.
- `date.today()` and `timedelta`. Today is a parameter, and a due date is `today + LoanDays`.
- Library.Catalog.CheckOut: day numbers are unbounded, so it lends on any day. Python dates end on 9999-12-31,
  so in the source `out + timedelta(days=14)` (line 123) raises OverflowError for a checkout after 9999-12-17.
- The `uid` column is never set by the source and is not modelled.
- Absent values (SQL NULL) are the empty string. This changes the queries for a copy without an author, since
  author is optional. In SQL, `NULL LIKE '%'` and `NULL = ?` are NULL, and a WHERE clause drops such rows.
- Tables.FindDefaults: a copy with no author is found by `findBook(cat)` in the model. In the source it is not,
  because `author like '%'` is NULL for it (lines 108-109).
- Tables.CheckInExact: a loan on a copy with no author is closed by `checkIn(cat, ti, "")` in the model. In the
  source no call closes it, because `author=?` is never true for a NULL author (line 118).
- Library.Catalog.AddBook: accepts an empty title and always stores an empty cutter. The schema marks title and
  cutter `not blank` (lines 47 and 49). sqlite has no such constraint, so the model enforces none.
- The definition column of `categories`, which the source never fills.
- Library.Catalog.ShelfList: gathers the codes into a local sequence and selects by membership in it. The source
  inserts them into a permanent table `fromCats` that it creates without `if not exists` and never drops. So in
  the source a second call raises, and a code listed twice repeats that category's rows in the join. Neither
  effect is modelled.
- Case folding covers ASCII letters only, as sqlite's NOCASE and LIKE do by default. sqlite's `ESCAPE` clause
  and the `case_sensitive_like` pragma are not modelled.
- `findBook` and the reports return their rows in table order. sqlite gives no order without `ORDER BY`, so the
  membership, count and multiplicity lemmas are the contract. The order is a property of this model only.
