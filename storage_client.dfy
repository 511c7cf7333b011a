/** The pair of repositories the manager works through (storage.StorageClient). */
module Storage {
  import Store
  import UserRepo
  import TransactionRepo

  datatype StorageClient = StorageClient(
    transactionRepository: TransactionRepo.TransactionRepository,
    userRepository: UserRepo.UserRepository)
  {
    /** Both repositories work on one database. */
    predicate SharesDb()
    {
      transactionRepository.db == userRepository.db
    }
  }

  method NewStorageClient(db: Store.Database) returns (c: StorageClient)
    ensures c.transactionRepository.db == db && c.userRepository.db == db
    ensures c.SharesDb()
  {
    var transactions := new TransactionRepo.TransactionRepository(db);
    var users := new UserRepo.UserRepository(db);
    c := StorageClient(transactions, users);
  }
}
