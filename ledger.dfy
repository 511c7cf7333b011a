/** The values the ledger stores and the specification of one unit of work
    that applies a transaction to the store.

    The store is the users table (id -> balance) and the transactions table
    (an append-only log of records). Amounts and balances are exact integers,
    standing in for arbitrary-precision decimals; timestamps are integers. */
module Ledger {

  /** A 128-bit UUID. `Nil` is the all-zero UUID (uuid.Nil). */
  newtype Uuid = x: int | 0 <= x < 0x1_0000_0000_0000_0000_0000_0000_0000_0000
  const Nil: Uuid := 0

  datatype Option<T> = None | Some(value: T)

  datatype Error =
    | UserNotFound        // storage.ErrUserNotFound
    | InvalidTransaction  // transaction_manager.ErrInvalidTransaction
    | NoRows              // sql.ErrNoRows from a single-row query
    | UniqueViolation     // the database refused a duplicate primary key
    | DriverError         // any other failure the database reports

  /** A row of the users table. */
  datatype User = User(id: Uuid, balance: int)
  const ZeroUser := User(Nil, 0)

  /** A row of the transactions table (storage.Transaction). */
  datatype Transaction = Transaction(id: Uuid, userId: Uuid, amount: int, createdAt: int, idempotencyKey: Uuid)
  const ZeroTransaction := Transaction(Nil, Nil, 0, 0, Nil)

  /** The whole store at one instant. */
  datatype Snapshot = Snapshot(users: map<Uuid, int>, transactions: seq<Transaction>)

  /** The step of AddTransaction at which the database itself reports a failure
      (lost connection, cancelled context, ...), if any. The model cannot see
      those causes, so the caller names the step. */
  datatype Fault = NoFault | FailBegin | FailLock | FailInsert | FailUpdate | FailCommit

  /* ---------------- balances and the log ---------------- */

  /** The sum of the amounts logged for user `u`. */
  function SumFor(log: seq<Transaction>, u: Uuid): int
  {
    if log == [] then 0
    else (if log[0].userId == u then log[0].amount else 0) + SumFor(log[1..], u)
  }

  lemma {:induction false} SumForAppend(log: seq<Transaction>, t: Transaction, u: Uuid)
    ensures SumFor(log + [t], u) == SumFor(log, u) + (if t.userId == u then t.amount else 0)
  {
    if log != [] {
      assert (log + [t])[1..] == log[1..] + [t];
      SumForAppend(log[1..], t, u);
    }
  }

  /** A user with no record in the log has logged nothing. */
  lemma {:induction false} SumForAbsent(log: seq<Transaction>, u: Uuid)
    requires forall i | 0 <= i < |log| :: log[i].userId != u
    ensures SumFor(log, u) == 0
  {
    if log != [] {
      assert log[0].userId != u;
      SumForAbsent(log[1..], u);
    }
  }

  predicate IdTaken(log: seq<Transaction>, id: Uuid)
  {
    exists i | 0 <= i < |log| :: log[i].id == id
  }

  lemma IdTakenCons(log: seq<Transaction>, id: Uuid)
    requires log != []
    ensures IdTaken(log, id) <==> log[0].id == id || IdTaken(log[1..], id)
  {
    if IdTaken(log[1..], id) {
      var i :| 0 <= i < |log[1..]| && log[1..][i].id == id;
      assert log[i + 1].id == id;
    }
    if IdTaken(log, id) && log[0].id != id {
      var i :| 0 <= i < |log| && log[i].id == id;
      assert log[1..][i - 1].id == id;
    }
  }

  /** The primary key of the transactions table. */
  ghost predicate UniqueIds(log: seq<Transaction>)
  {
    forall i, j | 0 <= i < j < |log| :: log[i].id != log[j].id
  }

  /** The invariant the store keeps: the users table and the opening balances
      users were provisioned with have the same keys; every balance is its
      opening balance plus the sum of the user's logged amounts; every record
      belongs to a known user (foreign key); record ids are unique (primary key). */
  ghost predicate Consistent(opening: map<Uuid, int>, s: Snapshot)
  {
    && s.users.Keys == opening.Keys
    && (forall u | u in s.users :: s.users[u] == opening[u] + SumFor(s.transactions, u))
    && (forall i | 0 <= i < |s.transactions| :: s.transactions[i].userId in s.users)
    && UniqueIds(s.transactions)
  }

  /* ---------------- applying one transaction ---------------- */

  /** What AddTransaction returns and the store it leaves behind. */
  datatype Applied = Applied(returned: Transaction, err: Option<Error>, after: Snapshot)

  /** One unit of work of AddTransaction: begin, lock the user row, insert the
      record, add the amount to the balance, commit. Every failure leaves the
      store as it was and returns the zero transaction. */
  function Apply(s: Snapshot, t: Transaction, fault: Fault): (r: Applied)
    ensures r.err.None? <==> fault == NoFault && t.userId in s.users && !IdTaken(s.transactions, t.id)
    ensures r.err.None? ==>
              && r.returned == t
              && r.after.transactions == s.transactions + [t]
              && r.after.users.Keys == s.users.Keys
              && r.after.users[t.userId] == s.users[t.userId] + t.amount
              && (forall u | u in s.users && u != t.userId :: r.after.users[u] == s.users[u])
    ensures r.err.Some? ==> r.returned == ZeroTransaction && r.after == s
    ensures r.err == Some(UserNotFound) <==> fault != FailBegin && fault != FailLock && t.userId !in s.users
    ensures r.err == Some(UniqueViolation) <==>
              fault !in {FailBegin, FailLock, FailInsert} && t.userId in s.users && IdTaken(s.transactions, t.id)
    ensures r.err.Some? && r.err != Some(UserNotFound) && r.err != Some(UniqueViolation) ==> r.err == Some(DriverError)
    ensures fault in {FailBegin, FailLock} ==> r.err == Some(DriverError)
  {
    if fault == FailBegin || fault == FailLock then Applied(ZeroTransaction, Some(DriverError), s)
    else if t.userId !in s.users then Applied(ZeroTransaction, Some(UserNotFound), s)
    else if fault == FailInsert then Applied(ZeroTransaction, Some(DriverError), s)
    else if IdTaken(s.transactions, t.id) then Applied(ZeroTransaction, Some(UniqueViolation), s)
    else if fault == FailUpdate || fault == FailCommit then Applied(ZeroTransaction, Some(DriverError), s)
    else
      var users := s.users[t.userId := s.users[t.userId] + t.amount];
      assert fault.NoFault? && users.Keys == s.users.Keys;
      Applied(t, None, Snapshot(users, s.transactions + [t]))
  }

  /** Whatever happens, the store stays consistent: balance = opening + logged amounts. */
  lemma ApplyKeepsConsistent(opening: map<Uuid, int>, s: Snapshot, t: Transaction, fault: Fault)
    requires Consistent(opening, s)
    ensures Consistent(opening, Apply(s, t, fault).after)
  {
    var r := Apply(s, t, fault);
    if r.err.None? {
      var log' := s.transactions + [t];
      forall u | u in r.after.users
        ensures r.after.users[u] == opening[u] + SumFor(log', u)
      {
        SumForAppend(s.transactions, t, u);
      }
      forall i | 0 <= i < |log'| ensures log'[i].userId in r.after.users {
        if i < |s.transactions| {
          assert log'[i] == s.transactions[i];
        }
      }
      forall i, j | 0 <= i < j < |log'| ensures log'[i].id != log'[j].id {
        assert log'[i] == s.transactions[i];
        if j < |s.transactions| {
          assert log'[j] == s.transactions[j];
        }
      }
    }
  }

  /** Apply a sequence of transactions one after the other, with no database fault. */
  function Replay(s: Snapshot, ts: seq<Transaction>): Snapshot
    decreases |ts|
  {
    if ts == [] then s else Replay(Apply(s, ts[0], NoFault).after, ts[1..])
  }

  lemma {:induction false} ReplayKeepsConsistent(opening: map<Uuid, int>, s: Snapshot, ts: seq<Transaction>)
    requires Consistent(opening, s)
    ensures Consistent(opening, Replay(s, ts))
    decreases |ts|
  {
    if ts != [] {
      ApplyKeepsConsistent(opening, s, ts[0], NoFault);
      ReplayKeepsConsistent(opening, Apply(s, ts[0], NoFault).after, ts[1..]);
    }
  }

  /** Transactions for known users with fresh, distinct ids are all recorded, in order. */
  lemma {:induction false} ReplayAppendsAll(s: Snapshot, ts: seq<Transaction>)
    requires forall i | 0 <= i < |ts| :: ts[i].userId in s.users
    requires UniqueIds(s.transactions + ts)
    ensures Replay(s, ts).transactions == s.transactions + ts
    ensures Replay(s, ts).users.Keys == s.users.Keys
    decreases |ts|
  {
    if ts != [] {
      var log := s.transactions + ts;
      forall i | 0 <= i < |s.transactions| ensures s.transactions[i].id != ts[0].id {
        assert log[i] == s.transactions[i] && log[|s.transactions|] == ts[0];
      }
      var s' := Apply(s, ts[0], NoFault).after;
      assert s'.transactions + ts[1..] == log;
      ReplayAppendsAll(s', ts[1..]);
    }
  }

  /** Starting from users with balance 0 and an empty log, after a run of
      successful adds each user's balance is the sum of that user's amounts. */
  lemma BalancesFromZero(users: map<Uuid, int>, ts: seq<Transaction>)
    requires forall u | u in users :: users[u] == 0
    requires forall i | 0 <= i < |ts| :: ts[i].userId in users
    requires UniqueIds(ts)
    ensures Replay(Snapshot(users, []), ts).transactions == ts
    ensures forall u | u in users :: u in Replay(Snapshot(users, []), ts).users
    ensures forall u | u in users :: Replay(Snapshot(users, []), ts).users[u] == SumFor(ts, u)
  {
    var s := Snapshot(users, []);
    assert [] + ts == ts;
    ReplayAppendsAll(s, ts);
    assert Consistent(users, s);
    ReplayKeepsConsistent(users, s, ts);
    var r := Replay(s, ts);
    assert r.transactions == ts && Consistent(users, r);
  }

  /** Two users each receive two transactions, 100 + 300 and 800 + 1000, under
      distinct ids: their balances end at 400 and 1800, with no cross-contamination. */
  lemma TwoUsersScenario(u1: Uuid, u2: Uuid, ts: seq<Transaction>)
    requires u1 != u2 && |ts| == 4 && UniqueIds(ts)
    requires ts[0].userId == u1 && ts[1].userId == u1 && ts[2].userId == u2 && ts[3].userId == u2
    requires ts[0].amount == 100 && ts[1].amount == 300 && ts[2].amount == 800 && ts[3].amount == 1000
    ensures Replay(Snapshot(map[u1 := 0, u2 := 0], []), ts).users == map[u1 := 400, u2 := 1800]
  {
    var users := map[u1 := 0, u2 := 0];
    forall i | 0 <= i < |ts| ensures ts[i].userId in users {
      if i < 2 {
        assert i == 0 || i == 1;
      } else {
        assert i == 2 || i == 3;
      }
    }
    BalancesFromZero(users, ts);
    ScenarioSums(ts, u1, u2);
    ReplayAppendsAll(Snapshot(users, []), ts);
    TwoKeys(Replay(Snapshot(users, []), ts).users, u1, u2, 400, 1800);
  }

  /** The logged sums of the two-user scenario, 100 + 300 and 800 + 1000. */
  lemma ScenarioSums(ts: seq<Transaction>, u1: Uuid, u2: Uuid)
    requires u1 != u2 && |ts| == 4
    requires ts[0].userId == u1 && ts[1].userId == u1 && ts[2].userId == u2 && ts[3].userId == u2
    requires ts[0].amount == 100 && ts[1].amount == 300 && ts[2].amount == 800 && ts[3].amount == 1000
    ensures SumFor(ts, u1) == 400 && SumFor(ts, u2) == 1800
  {
    assert ts[3..][1..] == [] && ts[2..][1..] == ts[3..] && ts[1..][1..] == ts[2..];
    assert SumFor(ts[3..], u1) == 0 && SumFor(ts[3..], u2) == 1000;
    assert SumFor(ts[2..], u1) == 0 && SumFor(ts[2..], u2) == 1800;
    assert SumFor(ts[1..], u1) == 300 && SumFor(ts[1..], u2) == 1800;
  }

  lemma TwoKeys(m: map<Uuid, int>, u1: Uuid, u2: Uuid, a: int, b: int)
    requires m.Keys == {u1, u2} && m[u1] == a && m[u2] == b
    ensures m == map[u1 := a, u2 := b]
  {
  }

  /* ---------------- looking a record up by id ---------------- */

  /** SELECT ... FROM transactions WHERE id = $1: the record with that id, or
      sql.ErrNoRows with the zero transaction. */
  function FindRecord(log: seq<Transaction>, id: Uuid): (r: (Transaction, Option<Error>))
    ensures r.1.None? <==> IdTaken(log, id)
    ensures r.1.None? ==> r.0 in log && r.0.id == id
    ensures r.1.Some? ==> r == (ZeroTransaction, Some(NoRows))
  {
    if log == [] then (ZeroTransaction, Some(NoRows))
    else if log[0].id == id then (log[0], None)
    else
      IdTakenCons(log, id);
      FindRecord(log[1..], id)
  }

  /** A record appended under a fresh id is what a lookup by that id finds. */
  lemma {:induction false} FindRecordAppended(log: seq<Transaction>, t: Transaction)
    requires !IdTaken(log, t.id)
    ensures FindRecord(log + [t], t.id) == (t, None)
  {
    if log != [] {
      assert log[0].id != t.id;
      assert (log + [t])[1..] == log[1..] + [t];
      IdTakenCons(log, t.id);
      FindRecordAppended(log[1..], t);
    }
  }

  /** The transaction AddTransaction returns is found again by FindTransactionByID. */
  lemma AppliedIsFound(s: Snapshot, t: Transaction, fault: Fault)
    requires Apply(s, t, fault).err.None?
    ensures FindRecord(Apply(s, t, fault).after.transactions, t.id) == (Apply(s, t, fault).returned, None)
  {
    FindRecordAppended(s.transactions, t);
  }

  /* ---------------- the users table ---------------- */

  /** INSERT INTO users: a new row, or a unique violation that changes nothing. */
  function InsertUser(users: map<Uuid, int>, u: User): (r: (map<Uuid, int>, Option<Error>))
    ensures u.id in users ==> r == (users, Some(UniqueViolation))
    ensures u.id !in users ==>
              && r.1 == None
              && r.0.Keys == users.Keys + {u.id}
              && r.0[u.id] == u.balance
              && (forall v | v in users :: r.0[v] == users[v])
  {
    if u.id in users then (users, Some(UniqueViolation)) else (users[u.id := u.balance], None)
  }

  /** Insert users one after the other; the errors in call order. */
  function InsertUsers(users: map<Uuid, int>, us: seq<User>): (map<Uuid, int>, seq<Option<Error>>)
    decreases |us|
  {
    if us == [] then (users, [])
    else
      var (users', err) := InsertUser(users, us[0]);
      var (final, errs) := InsertUsers(users', us[1..]);
      (final, [err] + errs)
  }

  /** Users with pairwise distinct ids, none already present, are all added. */
  lemma {:induction false} DistinctInsertsSucceed(users: map<Uuid, int>, us: seq<User>)
    requires forall i | 0 <= i < |us| :: us[i].id !in users
    requires forall i, j | 0 <= i < j < |us| :: us[i].id != us[j].id
    ensures |InsertUsers(users, us).1| == |us|
    ensures forall i | 0 <= i < |us| :: InsertUsers(users, us).1[i] == None
    ensures forall i | 0 <= i < |us| :: us[i].id in InsertUsers(users, us).0
    decreases |us|
  {
    if us != [] {
      var users' := InsertUser(users, us[0]).0;
      forall i | 0 <= i < |us[1..]| ensures us[1..][i].id !in users' {
        assert us[1..][i] == us[i + 1];
      }
      DistinctInsertsSucceed(users', us[1..]);
      var final := InsertUsers(users, us).0;
      assert final == InsertUsers(users', us[1..]).0;
      forall i | 0 <= i < |us| ensures us[i].id in final && InsertUsers(users, us).1[i] == None {
        if i > 0 {
          assert us[i] == us[1..][i - 1];
        } else {
          InsertKeepsKey(users', us[1..], us[0].id);
        }
      }
    }
  }

  lemma {:induction false} InsertKeepsKey(users: map<Uuid, int>, us: seq<User>, id: Uuid)
    requires id in users
    ensures id in InsertUsers(users, us).0
    decreases |us|
  {
    if us != [] {
      InsertKeepsKey(InsertUser(users, us[0]).0, us[1..], id);
    }
  }
}
