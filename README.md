# Ledger transaction engine — a Dafny model

This project models the core of `ledger_service`, a per-user monetary ledger written in Go.
The store is a users table (user id → balance) and an append-only transactions table.
Each row of the transactions table holds an id, a user id, an amount, a creation time and an idempotency key.
The model has four parts:

- **`ledger.dfy`** (module `Ledger`): the values. It also holds `Apply`, the specification of one unit of work of the repository's `AddTransaction`. The unit of work begins, locks the user row, inserts the record, adds the amount to the balance, then commits or rolls back. The module proves the ledger invariant: every balance is the user's opening balance plus the sum of the amounts logged for that user. Every record belongs to a known user, and record ids are unique.
- **`paging.dfy`** (module `Paging`): the history query. Page and page size are normalised. The query keeps the user's records, orders them newest first and applies LIMIT/OFFSET. The database may return records with equal `created_at` in any order. An order is therefore described by a predicate (`IsQueryOrder`: newest first, and a permutation of the user's records) and is not fixed.
- **`store.dfy`, `user_repo.dfy`, `transaction_repo.dfy`, `storage_client.dfy`**: the storage package. `Store.Database` is an in-memory stand-in for the PostgreSQL database both repositories share. `UserRepository` and `TransactionRepository` are classes holding that database. Their methods change it through `modifies` clauses. `TransactionRepository.AddTransaction` is proved against `Ledger.Apply`. `GetUserTransactionHistory` is proved against `Paging.Window` over an admissible order.
- **`transaction_manager.dfy`** (module `TransactionManager`): the decimal-based manager. It rejects non-positive amounts before touching storage. It checks that the user exists before reading balance or history. It copies history records field by field, and the copies drop the idempotency key.

Modelling choices:

- Amounts and balances are unbounded integers, standing in for `shopspring/decimal`.
- `created_at` is an integer, and a UUID is a 128-bit number with `Nil` = 0.
- Go's `(value, error)` results are pairs `(value, Option<Error>)`. The zero value is returned on every error, as in the source.
- Each call is one atomic step. The row lock taken with `SELECT ... FOR UPDATE` is not modelled.
- The database can fail on its own: a lost connection, a cancelled context. `AddTransaction` takes a `Fault` parameter that names the step at which that happens: begin, lock, insert, update or commit.
- The duplicate primary key on insert is modelled deterministically as `UniqueViolation`.

Three behaviours of the code that the model keeps:

- The stored `created_at` is the caller's `CreatedAt`, inserted as given (`internal/storage/transaction_repo.go:61-68`).
- A duplicate transaction id fails with the database's own unique-violation error. The repository defines no error of its own for it.
- The code never checks the idempotency key. The manager does not pass one on, so it stays `uuid.Nil` (`internal/transaction_manager/transaction.go:29-34`).

## Model

| member | source | states |
|---|---|---|
| `Ledger.Apply` | internal/storage/transaction_repo.go:40-95 | The unit of work succeeds iff no database fault occurs, the user exists and the id is fresh. On success it returns the input record, appends exactly that record to the log, adds the amount to that user's balance and leaves every other balance and the set of users unchanged. Every failure returns the zero transaction and leaves the store exactly as it was. `ErrUserNotFound` iff the lock step ran and the user is absent. A unique violation iff the insert ran on an existing id. Every other failure is a driver error. |
| `Ledger.SumForAppend` | internal/storage/transaction_repo.go:74-76 | Appending a record raises its own user's logged sum by its amount and leaves every other user's sum unchanged. |
| `Ledger.SumForAbsent` | internal/storage/user_repo.go:42-48 | A user with no record in the log has logged nothing, so a freshly added user's balance is their opening balance. |
| `Ledger.ApplyKeepsConsistent` | internal/storage/transaction_repo.go:40-95 | Whatever the outcome, the store stays consistent. Each balance equals the opening balance plus the sum of that user's logged amounts. Every record's user exists. Record ids stay unique. |
| `Ledger.ReplayKeepsConsistent` | internal/storage/transactionrepo_test.go:285-293 | Any run of adds keeps the store consistent. |
| `Ledger.ReplayAppendsAll` | internal/storage/transactionrepo_test.go:285-293 | Adds for known users with distinct fresh ids are all recorded, in call order, and no user is created. |
| `Ledger.BalancesFromZero` | internal/storage/transactionrepo_test.go:233-283 | Starting from balance 0 and an empty log, after a run of successful adds the log is exactly those records and each user's balance is the sum of that user's amounts. |
| `Ledger.TwoUsersScenario` | internal/storage/transactionrepo_test.go:233-283 | Four adds with distinct ids, 100 + 300 for one user and 800 + 1000 for another, starting from zero balances, give balances 400 and 1800. No balance leaks to the other user, and no user is created. |
| `Ledger.FindRecord` | internal/storage/transaction_repo.go:28-38 | A lookup by id succeeds iff a record with that id is logged, and returns such a record. Otherwise it returns the zero transaction with `sql.ErrNoRows`. |
| `Ledger.FindRecordAppended` | internal/storage/transaction_repo.go:28-38 | A record appended under a fresh id is exactly what a lookup by that id finds. |
| `Ledger.AppliedIsFound` | internal/storage/transaction_repo.go:88-94 | The transaction a successful add returns is found, field for field, by a lookup of its id. |
| `Ledger.InsertUser` | internal/storage/user_repo.go:42-48 | Inserting an existing id fails with a unique violation and changes nothing. Otherwise it adds exactly that id with the given balance and keeps every other row. |
| `Ledger.DistinctInsertsSucceed` | internal/storage/user_repo_test.go:62-86 | Users with pairwise distinct new ids are all added without error. |
| `Paging.NormalisePage` | internal/storage/transaction_repo.go:98-100 | A page of 0 or below becomes 1. Any other page is kept. |
| `Paging.NormalisePageSize` | internal/storage/transaction_repo.go:102-104 | A page size of 0 or below becomes 10. Any other size is kept. |
| `Paging.UserRecords` | internal/storage/transaction_repo.go:106 | The WHERE clause keeps exactly the log's records whose user id matches. Each such record occurs as often as in the log, and no other record occurs. |
| `Paging.SortDesc` | internal/storage/transaction_repo.go:106 | The ORDER BY clause: the result is newest first and a permutation of its input. This shows that an admissible order exists. |
| `Paging.QueryOrderMembers` | internal/storage/transaction_repo.go:106 | Any admissible order holds every record of the user and no other record. |
| `Paging.HistoryPage` | internal/storage/transaction_repo.go:97-132 | A page holds only the user's records, newest first. It holds exactly min(size, n − offset) of them: none past the end, and none when the user has no records. |
| `Paging.PagesCover` | internal/storage/transaction_repo.go:106 | Under one fixed order of the user's records, pages 1..k taken together are the first k·size records of that order, with none skipped and none repeated. |
| `Paging.QueryOrderUnique` | internal/storage/transaction_repo.go:106 | When no two of the user's records share a `created_at`, every admissible order is the same. Every page query then sees one order, and the page lemmas hold across separate queries. |
| `Paging.TiedPagesCanSkip` | internal/storage/transaction_repo.go:106 | Two records of one user with equal `created_at` admit both orders. With page size 1, page 1 under one order and page 2 under the other both return the same record, so the other record is on no page. |
| `Paging.EveryRecordOnAPage` | internal/storage/transaction_repo.go:106 | Under one fixed admissible order, every record of the user lies in the window of some page. |
| `Paging.AppliedAppearsInHistory` | internal/storage/transaction_repo.go:40-132 | Under any one admissible order of the new log, a transaction just added lies in the window of some page of its user's history. |
| `Store.Database.constructor` | internal/test_utils/utils.go:108-120 | A new database has empty users and transactions tables and is consistent. |
| `UserRepo.UserRepository.constructor` | internal/storage/user_repo.go:21-23 | The repository works on the given database. |
| `UserRepo.UserRepository.FindByID` | internal/storage/user_repo.go:27-40 | For a present id, returns that id with its stored balance. For an absent id, returns the zero user and `ErrUserNotFound`. As a function it cannot change the table. |
| `UserRepo.UserRepository.Add` | internal/storage/user_repo.go:42-48 | A new id adds one row and keeps the store consistent. A duplicate id fails and leaves the database unchanged. The transactions table is never touched. |
| `UserRepo.AddThenFind` | internal/storage/user_repo_test.go:88-116 | `FindByID` after `Add(u)` of a new id returns u, with its id and balance unchanged. |
| `TransactionRepo.TransactionRepository.constructor` | internal/storage/transaction_repo.go:24-26 | The repository works on the given database. |
| `TransactionRepo.TransactionRepository.FindTransactionByID` | internal/storage/transaction_repo.go:28-38 | Returns a logged record with that id, or the zero transaction with `sql.ErrNoRows`. |
| `TransactionRepo.TransactionRepository.AddTransaction` | internal/storage/transaction_repo.go:40-95 | The returned value, the error and the new store are exactly what `Ledger.Apply` gives for the old store. The database stays consistent. |
| `TransactionRepo.TransactionRepository.GetUserTransactionHistory` | internal/storage/transaction_repo.go:97-132 | The result is the normalised LIMIT/OFFSET window of an admissible newest-first order of the user's records. Ties are in any order. Whatever the tie order, the page holds only logged records of that user, newest first. It holds exactly min(size, n − offset) of them, so it is empty, not an error, past the end or when the user has no records. |
| `TransactionRepo.ScanRows` | internal/storage/transaction_repo.go:111-124 | The cursor loop appends every row the query yields, in order, and no other row: the page is exactly the rows from the window's start up to its end. |
| `Storage.NewStorageClient` | internal/storage/models.go:12-17 | Both repositories of the new client work on the given database. |
| `TransactionManager.TransactionManagerClient.constructor` | internal/transaction_manager/transaction.go:18-22 | The manager works through the given storage client. |
| `TransactionManager.TransactionManagerClient.AddTransaction` | internal/transaction_manager/transaction.go:24-45 | `ValidateTransaction` accepts exactly a strictly positive amount. A non-positive amount returns `ErrInvalidTransaction` and the empty transaction, and leaves storage unchanged. Otherwise storage changes exactly as `Ledger.Apply` prescribes for the record with a nil idempotency key. The repository's error is passed on with the empty transaction. On success the input entity is returned unchanged. |
| `TransactionManager.TransactionManagerClient.GetUserBalance` | internal/transaction_manager/transaction.go:47-54 | Returns the stored balance of an existing user. Returns 0 and `ErrUserNotFound` for an unknown one. |
| `TransactionManager.TransactionManagerClient.GetUserTransactionHistory` | internal/transaction_manager/transaction.go:56-78 | An unknown user gets an empty list and `ErrUserNotFound`. Otherwise the result has the repository page's length and order, with ID, Amount, UserID and CreatedAt copied per element. |
| `TransactionManager.CopyRecords` | internal/transaction_manager/transaction.go:68-76 | The copy has the same length and order as the repository's page. Each element carries the stored record's ID, Amount, UserID and CreatedAt. |
| `TransactionManager.TransactionManagerClient.IsUserValid` | internal/transaction_manager/transaction.go:80-87 | No error iff the user exists. The answer is true iff the user exists and its id is not nil. An unknown user gets false and `ErrUserNotFound`. |

## Left out

- Concurrency: the `SELECT ... FOR UPDATE` row lock, and the serialisation of concurrent callers it provides. Each call is modelled as one atomic step.
- Context cancellation and deadlines, and the SQL driver's scan and row errors. They appear only as `AddTransaction`'s `Fault` parameter. `FindByID`, `Add` and both history methods cannot fail in the model except for `ErrUserNotFound` and the duplicate key. The repository's query, scan and cursor error branches (`internal/storage/transaction_repo.go:107-109`, `120-122`, `127-129`) and the manager's branch that passes them on (`internal/transaction_manager/transaction.go:64-66`) are therefore not modelled.
- A failed commit is taken to leave nothing committed. The source returns its error without rolling back.
- Idempotency: the code never checks the idempotency key, and the schema does not make it unique. No at-most-once property is claimed. `FindTransactionByIdempotencyKey` (`internal/storage/transaction_repo.go:134-143`) is not modelled: with a non-unique key, which row it returns is unspecified.
- TransactionRepo.TransactionRepository.GetUserTransactionHistory: its contract does not fix the order of records with equal `created_at`. The body picks one admissible order (`Paging.SortDesc`).
- TransactionRepo.TransactionRepository.GetUserTransactionHistory: the offset `(page-1)*pageSize` is computed on unbounded integers. Go's 64-bit `int` could wrap for huge pages, and the database would then refuse a negative OFFSET.
- Decimal arithmetic internals: amounts are exact integers.
- Column types: the schema (`internal/test_utils/utils.go:108-120`) stores `balance` and `amount` as `DOUBLE PRECISION`, and `created_at` as a `TIMESTAMP` without time zone at microsecond precision. The model keeps exact integers, so it does not capture the rounding in those columns.
- Ledger.Apply: the repository returns the `id` and `created_at` read back through `RETURNING id, created_at` (`internal/storage/transaction_repo.go:61-68`). The model returns the input record. The two agree except for the rounding of the `TIMESTAMP` column just mentioned.
- Paging.PagesCover, Paging.EveryRecordOnAPage, Paging.AppliedAppearsInHistory: each fixes one order for all pages. `ORDER BY created_at DESC` has no tiebreaker (`internal/storage/transaction_repo.go:106`), so separate page queries may break a tie differently. With tied `created_at`, reading pages in turn can then skip or repeat a record (`Paging.TiedPagesCanSkip`). Only with distinct times do all queries agree (`Paging.QueryOrderUnique`).
- The HTTP layer, the rate limiter, process wiring and test harness bootstrap.
- The float-based earlier versions of the manager (`models.go`, `transaction_manager.go`) and the manager's unused `User` type (`internal/transaction_manager/model.go:25-28`).
