/**
 What has been applied towards loans, as both observation logs record it: per
 row, the loan it is attributed to and the stroops it was converted to.
 */
module Applied {
  import opened Options
  import Sums

  datatype Entry = Entry(loan: Option<string>, applied: Option<int>)

  type Book = map<string, Entry>

  function Amount(book: Book, p: string): int {
    if p in book && book[p].applied.Some? then book[p].applied.value else 0
  }

  function AmountTo(book: Book, p: string, loan: string): int {
    if p in book && book[p].loan == Some(loan) then Amount(book, p) else 0
  }

  function AmountToNobody(book: Book, p: string): int {
    if p in book && book[p].loan == None then Amount(book, p) else 0
  }

  ghost function Total(book: Book): int { Sums.Sum(book.Keys, p => Amount(book, p)) }

  /** SUM(applied_stroops) WHERE loan_id = loan. */
  ghost function ByLoan(book: Book, loan: string): int { Sums.Sum(book.Keys, p => AmountTo(book, p, loan)) }

  /** What all these loans are shown together. */
  ghost function ByLoans(book: Book, loans: set<string>): int { Sums.Sum(loans, loan => ByLoan(book, loan)) }

  /** Applied stroops on rows that no longer name a loan. */
  ghost function Orphaned(book: Book): int { Sums.Sum(book.Keys, p => AmountToNobody(book, p)) }

  ghost predicate NamesLoan(book: Book) { forall p | p in book && book[p].applied.Some? :: book[p].loan.Some? }

  /** The loans rows are attributed to are all among these. */
  ghost predicate Covers(loans: set<string>, book: Book) {
    forall p | p in book && book[p].loan.Some? :: book[p].loan.value in loans
  }

  method SumByLoan(book: Book, loan: string) returns (total: int)
    ensures total == ByLoan(book, loan)
  {
    total := 0;
    var left := book.Keys;
    ghost var f := (p: string) => AmountTo(book, p, loan);
    while left != {}
      invariant left <= book.Keys
      invariant total + Sums.Sum(left, f) == Sums.Sum(book.Keys, f)
      decreases left
    {
      var p :| p in left;
      Sums.SumOut(left, f, p);
      total := total + AmountTo(book, p, loan);
      left := left - {p};
    }
  }

  lemma WriteMovesTotal(book: Book, p: string, entry: Entry)
    ensures Total(book[p := entry]) == Total(book) - Amount(book, p) + Amount(book[p := entry], p)
  {
    var book' := book[p := entry];
    var f, g := (q: string) => Amount(book, q), (q: string) => Amount(book', q);
    Sums.SumOut(book'.Keys, g, p);
    Sums.SumSame(book'.Keys - {p}, f, g);
    if p in book {
      Sums.SumOut(book.Keys, f, p);
      assert book'.Keys - {p} == book.Keys - {p};
    } else {
      assert book'.Keys - {p} == book.Keys;
    }
  }

  /** The loans' sums and the orphans add up to everything applied. */
  lemma LoansAddUp(book: Book, loans: set<string>)
    requires Covers(loans, book)
    ensures ByLoans(book, loans) + Orphaned(book) == Total(book)
  {
    var named := (p: string) => Amount(book, p) - AmountToNobody(book, p);
    var orphaned := (p: string) => AmountToNobody(book, p);
    var group := (p: string) => if p in book && book[p].loan.Some? then book[p].loan.value else "";
    var shown := (loan: string) => ByLoan(book, loan);
    forall loan | loan in loans ensures shown(loan) == Sums.Share(book.Keys, named, group, loan) {
      Sums.ShareIs(book.Keys, named, group, loan, p => AmountTo(book, p, loan));
    }
    Sums.SumByGroup(book.Keys, loans, named, group, shown);
    Sums.SumAdd(book.Keys, named, orphaned, p => Amount(book, p));
  }

  lemma NoOrphans(book: Book)
    requires NamesLoan(book)
    ensures Orphaned(book) == 0
  {
    Sums.SumZero(book.Keys, p => AmountToNobody(book, p));
  }

  ghost predicate AllPositive(book: Book) {
    forall p | p in book && book[p].applied.Some? :: book[p].applied.value > 0
  }

  /** With positive figures nothing is orphaned exactly when every applied row names a loan. */
  lemma NoOrphansExactly(book: Book)
    requires AllPositive(book)
    ensures Orphaned(book) == 0 <==> NamesLoan(book)
  {
    if NamesLoan(book) {
      NoOrphans(book);
    } else {
      var lost := (p: string) => AmountToNobody(book, p);
      var p :| p in book && book[p].applied.Some? && book[p].loan == None;
      Sums.SumOut(book.Keys, lost, p);
      Sums.SumNonNegative(book.Keys - {p}, lost);
    }
  }

  lemma NothingApplied(book: Book)
    requires forall p | p in book :: book[p].applied == None
    ensures Total(book) == 0 && NamesLoan(book)
  {
    Sums.SumZero(book.Keys, p => Amount(book, p));
  }

  lemma OneRow(book: Book, p: string, loan: string)
    requires book.Keys == {p}
    ensures ByLoan(book, loan) == AmountTo(book, p, loan)
  {
    Sums.SumSingle(book.Keys, q => AmountTo(book, q, loan), p);
  }
}
