/** The transactions table (storage.TransactionRepository). */
module TransactionRepo {
  import opened Ledger
  import opened Paging
  import Store

  class TransactionRepository {
    const db: Store.Database

    constructor (db: Store.Database)
      ensures this.db == db
    {
      this.db := db;
    }

    /** SELECT ... FROM transactions WHERE id = $1. */
    function FindTransactionByID(transactionId: Uuid): (r: (Transaction, Option<Error>))
      reads db
      ensures r.1.None? <==> IdTaken(db.transactions, transactionId)
      ensures r.1.None? ==> r.0 in db.transactions && r.0.id == transactionId
      ensures r.1.Some? ==> r == (ZeroTransaction, Some(NoRows))
    {
      FindRecord(db.transactions, transactionId)
    }

    /** One unit of work: begin, lock the user row, insert the record, add the
        amount to the balance, commit. The insert and the update stay pending
        until the commit, so every early return is a rollback. */
    method AddTransaction(transaction: Transaction, fault: Fault) returns (out: Transaction, err: Option<Error>)
      requires db.Valid()
      modifies db
      ensures db.Valid() && db.opening == old(db.opening)
      ensures Applied(out, err, db.Snap()) == Apply(old(db.Snap()), transaction, fault)
    {
      // BeginTx
      if fault == FailBegin {
        return ZeroTransaction, Some(DriverError);
      }
      // SELECT balance FROM users WHERE id = $1 FOR UPDATE
      if fault == FailLock {
        return ZeroTransaction, Some(DriverError);
      }
      if transaction.userId !in db.users {
        return ZeroTransaction, Some(UserNotFound);
      }
      var currentBalance := db.users[transaction.userId];
      // INSERT INTO transactions ... RETURNING id, created_at
      if fault == FailInsert {
        return ZeroTransaction, Some(DriverError);
      }
      if IdTaken(db.transactions, transaction.id) {
        return ZeroTransaction, Some(UniqueViolation);
      }
      var pendingLog := db.transactions + [transaction];
      // UPDATE users SET balance = $1 WHERE id = $2
      var newBalance := currentBalance + transaction.amount;
      if fault == FailUpdate {
        return ZeroTransaction, Some(DriverError);
      }
      var pendingUsers := db.users[transaction.userId := newBalance];
      // Commit
      if fault == FailCommit {
        return ZeroTransaction, Some(DriverError);
      }
      ApplyKeepsConsistent(db.opening, db.Snap(), transaction, fault);
      db.users, db.transactions := pendingUsers, pendingLog;
      out, err := transaction, None;
    }

    /** One page of the user's history, newest first. `ordered` is the order in
        which the database returns the user's records; records with equal
        created_at may come in any order. */
    method GetUserTransactionHistory(userId: Uuid, page: int, pageSize: int)
      returns (transactions: seq<Transaction>, ghost ordered: seq<Transaction>)
      ensures IsQueryOrder(ordered, db.transactions, userId)
      ensures transactions == Window(ordered, Offset(page, pageSize), NormalisePageSize(pageSize))
      ensures IsHistoryPage(transactions, db.transactions, userId, page, pageSize)
    {
      var p := page;
      if p <= 0 {
        p := 1;
      }
      var size := pageSize;
      if size <= 0 {
        size := 10;
      }
      OffsetOfNormalised(page, pageSize, p, size);
      var offset: nat := (p - 1) * size;
      // ... WHERE user_id = $1 ORDER BY created_at DESC
      var rows := SortDesc(UserRecords(db.transactions, userId));
      ordered := rows;
      // LIMIT size OFFSET offset: the cursor yields rows[lo..hi]
      var lo := if offset < |rows| then offset else |rows|;
      var hi := if offset + size < |rows| then offset + size else |rows|;
      WindowBounds(rows, offset, size, lo, hi);
      transactions := ScanRows(rows, lo, hi);
      HistoryPage(ordered, db.transactions, userId, page, pageSize);
    }
  }

  /** The cursor loop of the history query (for rows.Next()): each row the
      query yields, from position lo up to hi, is appended in turn. */
  method ScanRows(rows: seq<Transaction>, lo: nat, hi: nat) returns (page: seq<Transaction>)
    requires lo <= hi <= |rows|
    ensures page == rows[lo..hi]
  {
    page := [];
    var k := lo;
    while k < hi
      invariant lo <= k <= hi
      invariant page == rows[lo..k]
    {
      page := page + [rows[k]];
      k := k + 1;
    }
  }
}
