/** The transaction manager (transaction_manager.TransactionManagerClient):
    validates amounts before touching storage, and reads balances and history
    through the two repositories. */
module TransactionManager {
  import opened Ledger
  import opened Paging
  import Store
  import Storage

  /** The manager's transaction (transaction_manager.Transaction): the stored
      record without its idempotency key. */
  datatype Transaction = Transaction(id: Uuid, amount: int, userId: Uuid, createdAt: int)
  const EmptyTransaction := Transaction.Transaction(Nil, 0, Nil, 0)

  /** The record the manager hands to storage: the idempotency key keeps its zero value. */
  function ToRecord(t: Transaction): Ledger.Transaction
  {
    Ledger.Transaction(t.id, t.userId, t.amount, t.createdAt, Nil)
  }

  /** The manager's copy of a stored record, field by field. */
  function FromRecord(r: Ledger.Transaction): Transaction
  {
    Transaction.Transaction(r.id, r.amount, r.userId, r.createdAt)
  }

  class TransactionManagerClient {
    const storageClient: Storage.StorageClient

    constructor (storage: Storage.StorageClient)
      ensures storageClient == storage
    {
      storageClient := storage;
    }

    function Db(): Store.Database
    {
      storageClient.userRepository.db
    }

    ghost predicate Valid()
      reads Db()
    {
      storageClient.SharesDb() && Db().Valid()
    }

    /** Only a strictly positive amount is a valid transaction. */
    predicate ValidateTransaction(transaction: Transaction)
    {
      transaction.amount > 0
    }

    /** Reject a non-positive amount without touching storage; otherwise run the
        repository's unit of work and return the input entity on success, the
        empty transaction and the repository's error otherwise. */
    method AddTransaction(transactionEntity: Transaction, fault: Fault) returns (out: Transaction, err: Option<Error>)
      requires Valid()
      modifies Db()
      ensures Valid()
      ensures !ValidateTransaction(transactionEntity) ==>
                out == EmptyTransaction && err == Some(InvalidTransaction) && unchanged(Db())
      ensures ValidateTransaction(transactionEntity) ==>
                var applied := Apply(old(Db().Snap()), ToRecord(transactionEntity), fault);
                && Db().Snap() == applied.after
                && err == applied.err
                && out == (if err.None? then transactionEntity else EmptyTransaction)
    {
      if !ValidateTransaction(transactionEntity) {
        return EmptyTransaction, Some(InvalidTransaction);
      }
      var stored, e := storageClient.transactionRepository.AddTransaction(ToRecord(transactionEntity), fault);
      if e.Some? {
        return EmptyTransaction, e;
      }
      out, err := transactionEntity, None;
    }

    /** The stored balance of a known user; zero and ErrUserNotFound otherwise. */
    function GetUserBalance(userId: Uuid): (r: (int, Option<Error>))
      reads Db()
      ensures userId in Db().users ==> r == (Db().users[userId], None)
      ensures userId !in Db().users ==> r == (0, Some(UserNotFound))
    {
      var (user, err) := storageClient.userRepository.FindByID(userId);
      if err.Some? then (0, err) else (user.balance, None)
    }

    /** For a known user, one page of history copied field by field from the
        repository's page (same length, same order); for an unknown user, an
        empty list and ErrUserNotFound, without querying the transactions. */
    method GetUserTransactionHistory(userId: Uuid, page: int, pageSize: int)
      returns (transactions: seq<Transaction>, err: Option<Error>, ghost ordered: seq<Ledger.Transaction>)
      requires Valid()
      ensures userId !in Db().users ==> transactions == [] && err == Some(UserNotFound)
      ensures userId in Db().users ==>
                var rows := Window(ordered, Offset(page, pageSize), NormalisePageSize(pageSize));
                && err == None
                && IsQueryOrder(ordered, Db().transactions, userId)
                && |transactions| == |rows|
                && (forall i | 0 <= i < |rows| :: transactions[i] == FromRecord(rows[i]))
    {
      var (_, e) := storageClient.userRepository.FindByID(userId);
      if e.Some? {
        return [], e, [];
      }
      var transactionResult;
      transactionResult, ordered := storageClient.transactionRepository.GetUserTransactionHistory(userId, page, pageSize);
      transactions := CopyRecords(transactionResult);
      err := None;
    }

    /** Whether the user exists with a non-nil id; lookup errors are passed on. */
    function IsUserValid(userId: Uuid): (r: (bool, Option<Error>))
      reads Db()
      ensures r.1.None? <==> userId in Db().users
      ensures r.1.Some? ==> r == (false, Some(UserNotFound))
      ensures r.0 <==> userId in Db().users && userId != Nil
    {
      var (user, err) := storageClient.userRepository.FindByID(userId);
      if err.Some? then (false, err) else (user.id != Nil, None)
    }
  }

  /** The manager's copy loop over the repository's page: each stored record
      becomes a manager transaction, field by field, in the same order. */
  method CopyRecords(records: seq<Ledger.Transaction>) returns (transactions: seq<Transaction>)
    ensures |transactions| == |records|
    ensures forall k | 0 <= k < |records| :: transactions[k] == FromRecord(records[k])
  {
    transactions := [];
    var i := 0;
    while i < |records|
      invariant 0 <= i <= |records|
      invariant |transactions| == i
      invariant forall k | 0 <= k < i :: transactions[k] == FromRecord(records[k])
    {
      var t := records[i];
      transactions := transactions + [Transaction.Transaction(t.id, t.amount, t.userId, t.createdAt)];
      i := i + 1;
    }
  }
}
