/** The users table (storage.UserRepository). */
module UserRepo {
  import opened Ledger
  import Store

  class UserRepository {
    const db: Store.Database

    constructor (db: Store.Database)
      ensures this.db == db
    {
      this.db := db;
    }

    /** SELECT id, balance FROM users WHERE id = $1: the row, or ErrUserNotFound
        with the zero user. A lookup changes nothing. */
    function FindByID(id: Uuid): (r: (User, Option<Error>))
      reads db
      ensures r.1.None? <==> id in db.users
      ensures r.1.None? ==> r.0.id == id && r.0.balance == db.users[id]
      ensures r.1.Some? ==> r == (ZeroUser, Some(UserNotFound))
    {
      if id in db.users then (User(id, db.users[id]), None)
      else (ZeroUser, Some(UserNotFound))
    }

    /** INSERT INTO users (id, balance): the primary key refuses an id already
        present, and then nothing changes. */
    method Add(u: User) returns (err: Option<Error>)
      requires db.Valid()
      modifies db
      ensures db.Valid()
      ensures (db.users, err) == InsertUser(old(db.users), u)
      ensures db.transactions == old(db.transactions)
      ensures err.Some? ==> unchanged(db)
    {
      if u.id in db.users {
        return Some(UniqueViolation);
      }
      SumForAbsent(db.transactions, u.id);
      db.users := db.users[u.id := u.balance];
      db.opening := db.opening[u.id := u.balance];
      err := None;
    }
  }

  /** Add a user, then look it up: the row found has the id and balance added. */
  method AddThenFind(repo: UserRepository, u: User) returns (found: User, err: Option<Error>)
    requires repo.db.Valid()
    requires u.id !in repo.db.users
    modifies repo.db
    ensures found == u && err == None
  {
    var added := repo.Add(u);
    found, err := repo.FindByID(u.id).0, repo.FindByID(u.id).1;
  }
}
