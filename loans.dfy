/**
 * The loan lifecycle (backend/controllers/loanController.js): a user asks
 * for a loan, an admin approves, rejects or closes it, and the list and
 * statistics handlers query the table. The `loans` table is a map from id
 * to record held by a class; the catalog lookup is an input.
 */
module Loans {
  import opened Js
  import opened Http
  import opened Catalog

  /** The `status` enum of the `loans` table. */
  datatype Status = Pending | Dipinjam | Dikembalikan | Terlambat

  function StatusName(s: Status): string {
    match s
    case Pending => "pending"
    case Dipinjam => "dipinjam"
    case Dikembalikan => "dikembalikan"
    case Terlambat => "terlambat"
  }

  lemma StatusNamesDistinct(a: Status, b: Status)
    ensures StatusName(a) == StatusName(b) <==> a == b
  {
  }

  /** A row of the `loans` table; `None` stands for NULL. */
  datatype Loan = Loan(
    id: nat,
    userId: int,
    bookId: string,
    bookTitle: string,
    bookAuthor: string,
    bookThumbnail: Option<string>,
    loanDate: string,
    dueDate: string,
    returnDate: Option<string>,
    status: Status,
    notes: Option<string>)

  /** The statuses the duplicate check looks for: a request still open or a book still out. */
  predicate Outstanding(l: Loan) {
    l.status == Pending || l.status == Dipinjam
  }

  predicate HasOutstanding(loans: map<nat, Loan>, userId: int, bookId: string) {
    exists id | id in loans :: loans[id].userId == userId && loans[id].bookId == bookId && Outstanding(loans[id])
  }

  predicate IdsMatch(loans: map<nat, Loan>) {
    forall id :: id in loans ==> loans[id].id == id
  }

  /** At most one outstanding loan per (user, book) pair. */
  predicate OneOutstandingPerBook(loans: map<nat, Loan>) {
    forall a, b ::
      (&& a in loans && b in loans && Outstanding(loans[a]) && Outstanding(loans[b])
       && loans[a].userId == loans[b].userId && loans[a].bookId == loans[b].bookId) ==> a == b
  }

  /** What every row reachable through the handlers looks like. */
  predicate RowShape(l: Loan) {
    && l.status != Terlambat
    && (l.returnDate.Some? <==> l.status == Dikembalikan)
  }

  predicate TableInvariant(loans: map<nat, Loan>) {
    && IdsMatch(loans)
    && OneOutstandingPerBook(loans)
    && forall id :: id in loans ==> RowShape(loans[id])
  }

  const FieldsRequired := Refusal(400, "book_id, loan_date, dan due_date wajib diisi")
  const BookNotInCatalog := Refusal(404, "Buku tidak ditemukan di Google Books API")
  const AlreadyBorrowed := Refusal(400, "Anda sudah meminjam buku ini dan belum mengembalikannya")
  const LoanNotFound := Refusal(404, "Peminjaman tidak ditemukan")
  const AlreadyReturned := Refusal(400, "Buku sudah dikembalikan sebelumnya")

  /** The 400 refusal of approve and reject for a loan no longer pending. */
  function NotPending(s: Status): Refusal {
    Refusal(400, "Peminjaman sudah dalam status: " + StatusName(s))
  }

  /** The 400 refusal of return for a loan that is not on loan. */
  function NotOnLoan(s: Status): Refusal {
    Refusal(400, "Peminjaman dalam status: " + StatusName(s) + ". Hanya buku yang dipinjam yang bisa dikembalikan.")
  }

  /** `bookData.authors.join(', ') || 'Unknown'`. */
  function AuthorLine(authors: seq<string>): (r: string)
    ensures r != []
    ensures r == "Unknown" <==> authors == [] || authors == [[]] || Join(authors, ", ") == "Unknown"
    ensures authors != [] && authors != [[]] ==> r == Join(authors, ", ")
  {
    JoinEmpty(authors, ", ");
    var joined := Join(authors, ", ");
    if joined == [] then "Unknown" else joined
  }

  // ---------------------------------------------------------------------
  // Status transitions
  // ---------------------------------------------------------------------

  datatype Action = Approve | Reject | Return

  /**
   * The transition table the admin handlers implement: the status a loan
   * moves to, `None` for a loan that is deleted, or no entry when the
   * handler refuses.
   */
  function Transition(a: Action, s: Status): (r: Option<Option<Status>>)
    ensures r.Some? <==> (a == Return && s == Dipinjam) || (a != Return && s == Pending)
    ensures r == Some(None) <==> a == Reject && s == Pending
    ensures r.Some? && r.value.Some? ==> r.value.value != Terlambat
  {
    match a
    case Approve => if s == Pending then Some(Some(Dipinjam)) else None
    case Reject => if s == Pending then Some(None) else None
    case Return => if s == Dipinjam then Some(Some(Dikembalikan)) else None
  }

  /** No handler ever produces the status 'terlambat'. */
  lemma NoTransitionToTerlambat(a: Action, s: Status)
    ensures Transition(a, s) != Some(Some(Terlambat))
  {
  }

  /** A returned loan is final: no action applies to it. */
  lemma ReturnedIsFinal(a: Action)
    ensures Transition(a, Dikembalikan).None?
  {
  }

  // ---------------------------------------------------------------------
  // The table and the handlers that change it
  // ---------------------------------------------------------------------

  class LoanStore {
    var loans: map<nat, Loan>
    /** The id the next insert receives (auto-increment). */
    var nextId: nat

    ghost predicate Valid()
      reads this
    {
      TableInvariant(loans) && forall id :: id in loans ==> id < nextId
    }

    constructor ()
      ensures Valid() && loans == map[] && nextId == 1
    {
      loans := map[];
      nextId := 1;
    }

    /**
     * `createLoan` for the authenticated user `userId`. `lookup` is the
     * catalog's answer for `bookId`, consulted only once the fields are
     * present. `None` stands for a missing or empty body field.
     */
    method CreateLoan(userId: int, bookId: Option<string>, loanDate: Option<string>, dueDate: Option<string>,
                      notes: Option<string>, lookup: Fetched<Book>) returns (r: Reply<Loan>)
      requires Valid()
      modifies this
      ensures Valid()
      ensures !(Present(bookId) && Present(loanDate) && Present(dueDate)) ==>
              r == Refuse(FieldsRequired) && unchanged(this)
      ensures Present(bookId) && Present(loanDate) && Present(dueDate) && lookup.FetchFailed? ==>
              r == Refuse(BookNotInCatalog) && unchanged(this)
      ensures Present(bookId) && Present(loanDate) && Present(dueDate) && lookup.Fetched?
              && HasOutstanding(old(loans), userId, bookId.value) ==>
              r == Refuse(AlreadyBorrowed) && unchanged(this)
      ensures r.Done? <==> Present(bookId) && Present(loanDate) && Present(dueDate) && lookup.Fetched?
                           && !HasOutstanding(old(loans), userId, bookId.value)
      ensures r.Done? ==>
              && Present(bookId) && Present(loanDate) && Present(dueDate) && lookup.Fetched?
              && !HasOutstanding(old(loans), userId, bookId.value)
              && r.code == 201
              && r.value == Loan(old(nextId), userId, bookId.value, lookup.value.title, AuthorLine(lookup.value.authors),
                                 lookup.value.thumbnail, loanDate.value, dueDate.value, None, Pending, OrNull(notes))
              && loans == old(loans)[old(nextId) := r.value]
              && nextId == old(nextId) + 1
      ensures r.Refused? ==> unchanged(this)
    {
      if !Present(bookId) || !Present(loanDate) || !Present(dueDate) {
        return Refuse(FieldsRequired);
      }
      if lookup.FetchFailed? {
        return Refuse(BookNotInCatalog);
      }
      if HasOutstanding(loans, userId, bookId.value) {
        return Refuse(AlreadyBorrowed);
      }
      var book := lookup.value;
      var loan := Loan(nextId, userId, bookId.value, book.title, AuthorLine(book.authors),
                       book.thumbnail, loanDate.value, dueDate.value, None, Pending, OrNull(notes));
      InsertKeepsInvariant(loans, loan);
      loans := loans[nextId := loan];
      nextId := nextId + 1;
      r := Done(201, loan);
    }

    /** `approveLoan`. */
    method ApproveLoan(id: int) returns (r: Reply<Loan>)
      requires Valid()
      modifies this
      ensures Valid() && nextId == old(nextId)
      ensures id !in old(loans) ==> r == Refuse(LoanNotFound) && unchanged(this)
      ensures id in old(loans) && old(loans)[id].status != Pending ==>
              r == Refuse(NotPending(old(loans)[id].status)) && unchanged(this)
      ensures r.Done? <==> id in old(loans) && Transition(Approve, old(loans)[id].status).Some?
      ensures r.Done? ==> id in loans && Transition(Approve, old(loans)[id].status) == Some(Some(loans[id].status))
      ensures id in old(loans) && old(loans)[id].status == Pending ==>
              && r == Done(200, old(loans)[id].(status := Dipinjam))
              && loans == old(loans)[id := old(loans)[id].(status := Dipinjam)]
    {
      if id < 0 || id !in loans {
        return Refuse(LoanNotFound);
      }
      var loan := loans[id];
      if loan.status != Pending {
        return Refuse(NotPending(loan.status));
      }
      var approved := loan.(status := Dipinjam);
      ReplaceKeepsInvariant(loans, id, approved);
      loans := loans[id := approved];
      r := Done(200, approved);
    }

    /**
     * `rejectLoan`: a pending loan is deleted. The reply carries the row as it
     * was just before deletion, with the admin's notes when given.
     */
    method RejectLoan(id: int, notes: Option<string>) returns (r: Reply<Loan>)
      requires Valid()
      modifies this
      ensures Valid() && nextId == old(nextId)
      ensures id !in old(loans) ==> r == Refuse(LoanNotFound) && unchanged(this)
      ensures id in old(loans) && old(loans)[id].status != Pending ==>
              r == Refuse(NotPending(old(loans)[id].status)) && unchanged(this)
      ensures r.Done? <==> id in old(loans) && Transition(Reject, old(loans)[id].status) == Some(None)
      ensures r.Done? ==> id !in loans
      ensures id in old(loans) && old(loans)[id].status == Pending ==>
              && r == Done(200, old(loans)[id].(notes := if Present(notes) then notes else old(loans)[id].notes))
              && loans == old(loans) - {id}
    {
      if id < 0 || id !in loans {
        return Refuse(LoanNotFound);
      }
      var loan := loans[id];
      if loan.status != Pending {
        return Refuse(NotPending(loan.status));
      }
      if Present(notes) {
        loan := loan.(notes := notes);
      }
      loans := loans - {id};
      r := Done(200, loan);
    }

    /**
     * `returnBook`: a loan on loan is closed. `today` is the current date as
     * `YYYY-MM-DD`, used when no return date is supplied.
     */
    method ReturnBook(id: int, returnDate: Option<string>, notes: Option<string>, today: string) returns (r: Reply<Loan>)
      requires Valid()
      modifies this
      ensures Valid() && nextId == old(nextId)
      ensures id !in old(loans) ==> r == Refuse(LoanNotFound) && unchanged(this)
      ensures id in old(loans) && old(loans)[id].status == Dikembalikan ==>
              r == Refuse(AlreadyReturned) && unchanged(this)
      ensures id in old(loans) && old(loans)[id].status !in {Dipinjam, Dikembalikan} ==>
              r == Refuse(NotOnLoan(old(loans)[id].status)) && unchanged(this)
      ensures r.Done? <==> id in old(loans) && Transition(Return, old(loans)[id].status).Some?
      ensures r.Done? ==> id in loans && Transition(Return, old(loans)[id].status) == Some(Some(loans[id].status))
      ensures id in old(loans) && old(loans)[id].status == Dipinjam ==>
              var closed := old(loans)[id].(status := Dikembalikan,
                                            returnDate := Some(OrElse(returnDate, today)),
                                            notes := if Present(notes) then notes else old(loans)[id].notes);
              r == Done(200, closed) && loans == old(loans)[id := closed]
    {
      if id < 0 || id !in loans {
        return Refuse(LoanNotFound);
      }
      var loan := loans[id];
      if loan.status == Dikembalikan {
        return Refuse(AlreadyReturned);
      }
      if loan.status != Dipinjam {
        return Refuse(NotOnLoan(loan.status));
      }
      var closed := loan.(status := Dikembalikan, returnDate := Some(OrElse(returnDate, today)));
      if Present(notes) {
        closed := closed.(notes := notes);
      }
      ReplaceKeepsInvariant(loans, id, closed);
      loans := loans[id := closed];
      r := Done(200, closed);
    }
  }

  /**
   * A returned loan stays returned: approving, rejecting and returning it
   * again are all refused, and the table is left as it was.
   */
  method ReturnedStaysReturned(store: LoanStore, id: nat, notes: Option<string>, returnDate: Option<string>, today: string)
    returns (approve: Reply<Loan>, reject: Reply<Loan>, again: Reply<Loan>)
    requires store.Valid() && id in store.loans && store.loans[id].status == Dikembalikan
    modifies store
    ensures store.Valid() && store.loans == old(store.loans)
    ensures approve.Refused? && reject.Refused? && again.Refused?
  {
    ReturnedIsFinal(Approve);
    ReturnedIsFinal(Reject);
    ReturnedIsFinal(Return);
    approve := store.ApproveLoan(id);
    reject := store.RejectLoan(id, notes);
    again := store.ReturnBook(id, returnDate, notes, today);
  }

  /** A fresh pending row whose pair has no outstanding loan keeps the invariant. */
  lemma InsertKeepsInvariant(loans: map<nat, Loan>, l: Loan)
    requires TableInvariant(loans) && l.id !in loans
    requires l.status == Pending && l.returnDate.None?
    requires !HasOutstanding(loans, l.userId, l.bookId)
    ensures TableInvariant(loans[l.id := l])
  {
  }

  /**
   * Replacing a row by one with the same user, book and id keeps the
   * invariant when the new row has the row shape and stays outstanding only
   * if the old one was.
   */
  lemma ReplaceKeepsInvariant(loans: map<nat, Loan>, id: nat, l: Loan)
    requires TableInvariant(loans) && id in loans
    requires l.id == id && l.userId == loans[id].userId && l.bookId == loans[id].bookId
    requires RowShape(l) && (Outstanding(l) ==> Outstanding(loans[id]))
    ensures TableInvariant(loans[id := l])
  {
  }

  /**
   * A client of the store: after a return, the same user may ask for the
   * same book again, and the request is accepted.
   */
  method BorrowAgainAfterReturn(store: LoanStore, userId: int, bookId: string, book: Book,
                                loanDate: string, dueDate: string, today: string)
    returns (again: Reply<Loan>, later: Reply<Loan>)
    requires store.Valid() && bookId != [] && loanDate != [] && dueDate != []
    requires !HasOutstanding(store.loans, userId, bookId)
    modifies store
    ensures store.Valid()
    ensures again == Refuse(AlreadyBorrowed)
    ensures later.Done? && later.value.status == Pending
    ensures later.value.userId == userId && later.value.bookId == bookId
  {
    var first := store.CreateLoan(userId, Some(bookId), Some(loanDate), Some(dueDate), None, Fetched(book));
    var id := first.value.id;
    assert id in store.loans && store.loans[id] == first.value;
    again := store.CreateLoan(userId, Some(bookId), Some(loanDate), Some(dueDate), None, Fetched(book));
    ApproveThenReturn(store, id, today);
    assert !HasOutstanding(store.loans, userId, bookId);
    later := store.CreateLoan(userId, Some(bookId), Some(loanDate), Some(dueDate), None, Fetched(book));
  }

  /** Approving a pending loan and then returning it closes it, dated `today`, and touches no other row. */
  method ApproveThenReturn(store: LoanStore, id: nat, today: string)
    requires store.Valid() && id in store.loans && store.loans[id].status == Pending
    modifies store
    ensures store.Valid()
    ensures store.loans == old(store.loans)[id := old(store.loans)[id].(status := Dikembalikan, returnDate := Some(today))]
  {
    var approved := store.ApproveLoan(id);
    var returned := store.ReturnBook(id, None, None, today);
  }

  // ---------------------------------------------------------------------
  // Queries
  // ---------------------------------------------------------------------

  /** The `where` clause of the list handlers; `None` means no condition. */
  datatype LoanFilter = LoanFilter(userId: Option<int>, status: Option<string>)

  predicate Matches(l: Loan, f: LoanFilter) {
    && (f.userId.Some? ==> l.userId == f.userId.value)
    && (f.status.Some? ==> StatusName(l.status) == f.status.value)
  }

  /**
   * The matching rows with id below `k`, newest first. Ids are assigned in
   * insertion order, so descending id is descending `created_at`.
   */
  function Listed(loans: map<nat, Loan>, f: LoanFilter, k: nat): (r: seq<Loan>)
    requires IdsMatch(loans)
    ensures forall i :: 0 <= i < |r| ==> r[i].id in loans && loans[r[i].id] == r[i] && r[i].id < k && Matches(r[i], f)
    ensures forall id :: id in loans && id < k && Matches(loans[id], f) ==> loans[id] in r
    ensures forall i, j :: 0 <= i < j < |r| ==> r[i].id > r[j].id
  {
    if k == 0 then []
    else
      var rest := Listed(loans, f, k - 1);
      if k - 1 in loans && Matches(loans[k - 1], f) then [loans[k - 1]] + rest else rest
  }

  /** All rows matching `f`, newest first. */
  function FindAll(loans: map<nat, Loan>, nextId: nat, f: LoanFilter): (r: seq<Loan>)
    requires IdsMatch(loans) && forall id :: id in loans ==> id < nextId
    ensures forall l :: l in r <==> l in loans.Values && Matches(l, f)
    ensures forall i, j :: 0 <= i < j < |r| ==> r[i].id > r[j].id
  {
    var r := Listed(loans, f, nextId);
    assert forall l :: l in loans.Values ==> l.id in loans && loans[l.id] == l;
    r
  }

  /** `getMyLoans`: the caller's rows, optionally of one status. */
  function MyLoans(loans: map<nat, Loan>, nextId: nat, userId: int, status: Option<string>): (r: seq<Loan>)
    requires IdsMatch(loans) && forall id :: id in loans ==> id < nextId
    ensures forall l :: l in r ==> l.userId == userId && l in loans.Values
    ensures Present(status) ==> forall l :: l in r ==> StatusName(l.status) == status.value
    ensures forall l :: l in loans.Values && l.userId == userId && (Present(status) ==> StatusName(l.status) == status.value) ==> l in r
    ensures forall i, j :: 0 <= i < j < |r| ==> r[i].id > r[j].id
  {
    FindAll(loans, nextId, LoanFilter(Some(userId), if Present(status) then status else None))
  }

  /** `getAllLoans`: every row, optionally of one status and one user. */
  function AllLoans(loans: map<nat, Loan>, nextId: nat, status: Option<string>, userId: Option<int>): (r: seq<Loan>)
    requires IdsMatch(loans) && forall id :: id in loans ==> id < nextId
    ensures forall l :: l in r <==> l in loans.Values && Matches(l, LoanFilter(userId, if Present(status) then status else None))
    ensures !Present(status) && userId.None? ==> forall l :: l in r <==> l in loans.Values
    ensures forall i, j :: 0 <= i < j < |r| ==> r[i].id > r[j].id
  {
    FindAll(loans, nextId, LoanFilter(userId, if Present(status) then status else None))
  }

  /** A status filter naming no status of the enum lists nothing. */
  lemma UnknownStatusListsNothing(loans: map<nat, Loan>, nextId: nat, status: string, userId: Option<int>)
    requires IdsMatch(loans) && forall id :: id in loans ==> id < nextId
    requires status != [] && status !in {"pending", "dipinjam", "dikembalikan", "terlambat"}
    ensures AllLoans(loans, nextId, Some(status), userId) == []
  {
    var r := AllLoans(loans, nextId, Some(status), userId);
    assert forall l :: l !in r;
    NonEmptyHasFirst(r);
  }

  lemma NonEmptyHasFirst<T>(s: seq<T>)
    ensures s != [] ==> s[0] in s
  {
  }

  // ---------------------------------------------------------------------
  // Statistics
  // ---------------------------------------------------------------------

  function IdsWith(loans: map<nat, Loan>, s: Status): set<nat> {
    set id | id in loans && loans[id].status == s
  }

  /** `Loan.count({ where: { status } })`. */
  function CountStatus(loans: map<nat, Loan>, s: Status): nat {
    |IdsWith(loans, s)|
  }

  datatype LoanStats = LoanStats(total: nat, active: nat, pending: nat, returned: nat, byStatus: map<Status, nat>)

  /** `getLoanStatistics`. */
  function LoanStatistics(loans: map<nat, Loan>): (st: LoanStats)
    ensures st.total == |loans|
    ensures st.active == CountStatus(loans, Dipinjam) && st.pending == CountStatus(loans, Pending)
    ensures st.returned == CountStatus(loans, Dikembalikan)
    ensures forall s :: s in st.byStatus <==> exists id :: id in loans && loans[id].status == s
    ensures forall s :: s in st.byStatus ==> st.byStatus[s] == CountStatus(loans, s) > 0
  {
    var byStatus := map s: Status | s in {Pending, Dipinjam, Dikembalikan, Terlambat} && IdsWith(loans, s) != {} :: CountStatus(loans, s);
    StatusesInUse(loans);
    LoanStats(|loans|, CountStatus(loans, Dipinjam), CountStatus(loans, Pending), CountStatus(loans, Dikembalikan), byStatus)
  }

  /** A status has a non-empty id set exactly when some loan carries it. */
  lemma StatusesInUse(loans: map<nat, Loan>)
    ensures forall s :: IdsWith(loans, s) != {} <==> exists id :: id in loans && loans[id].status == s
  {
    forall s | exists id :: id in loans && loans[id].status == s
      ensures IdsWith(loans, s) != {}
    {
      var id :| id in loans && loans[id].status == s;
      assert id in IdsWith(loans, s);
    }
  }

  lemma DisjointUnion(a: set<nat>, b: set<nat>)
    requires a * b == {}
    ensures |a + b| == |a| + |b|
  {
  }

  /** The four status counts add up to the table size. */
  lemma CountsPartitionTable(loans: map<nat, Loan>)
    ensures CountStatus(loans, Pending) + CountStatus(loans, Dipinjam)
          + CountStatus(loans, Dikembalikan) + CountStatus(loans, Terlambat) == |loans|
  {
    var p, d, k, t := IdsWith(loans, Pending), IdsWith(loans, Dipinjam), IdsWith(loans, Dikembalikan), IdsWith(loans, Terlambat);
    StatusSetsDisjoint(loans, Pending, Dipinjam);
    DisjointUnion(p, d);
    StatusSetsDisjoint(loans, Pending, Dikembalikan);
    StatusSetsDisjoint(loans, Dipinjam, Dikembalikan);
    DisjointUnion(p + d, k);
    StatusSetsDisjoint(loans, Pending, Terlambat);
    StatusSetsDisjoint(loans, Dipinjam, Terlambat);
    StatusSetsDisjoint(loans, Dikembalikan, Terlambat);
    DisjointUnion(p + d + k, t);
    StatusSetsCover(loans);
  }

  lemma StatusSetsDisjoint(loans: map<nat, Loan>, s1: Status, s2: Status)
    requires s1 != s2
    ensures IdsWith(loans, s1) * IdsWith(loans, s2) == {}
  {
  }

  lemma StatusSetsCover(loans: map<nat, Loan>)
    ensures IdsWith(loans, Pending) + IdsWith(loans, Dipinjam) + IdsWith(loans, Dikembalikan)
          + IdsWith(loans, Terlambat) == loans.Keys
  {
  }

  /** In every table the handlers produce, the named counts add up to the total. */
  lemma StatisticsAddUp(loans: map<nat, Loan>)
    requires TableInvariant(loans)
    ensures var st := LoanStatistics(loans);
            st.active + st.pending + st.returned == st.total
  {
    CountsPartitionTable(loans);
    assert forall id :: id !in IdsWith(loans, Terlambat);
  }
}
