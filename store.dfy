/** An in-memory stand-in for the PostgreSQL database both repositories share:
    the users table and the transactions table. */
module Store {
  import opened Ledger

  class Database {
    var users: map<Uuid, int>
    var transactions: seq<Transaction>
    /** The balance each user was provisioned with by UserRepository.Add. */
    ghost var opening: map<Uuid, int>

    ghost predicate Valid()
      reads this
    {
      Consistent(opening, Snap())
    }

    ghost function Snap(): Snapshot
      reads this
    {
      Snapshot(users, transactions)
    }

    constructor ()
      ensures Valid()
      ensures users == map[] && transactions == [] && opening == map[]
    {
      users := map[];
      transactions := [];
      opening := map[];
    }
  }
}
