/** The history query of the transactions table:
      WHERE user_id = $1 ORDER BY created_at DESC LIMIT size OFFSET (page-1)*size
    after page and page size have been normalised. The database may return
    records with equal created_at in any order, so an ordering is described by
    a predicate (IsQueryOrder) rather than fixed. */
module Paging {
  import opened Ledger

  const DefaultPageSize := 10

  /** A non-positive page number means the first page. */
  function NormalisePage(page: int): (r: int)
    ensures r >= 1
    ensures page >= 1 ==> r == page
    ensures page <= 0 ==> r == 1
  {
    if page <= 0 then 1 else page
  }

  /** A non-positive page size means the default size of 10. */
  function NormalisePageSize(pageSize: int): (r: int)
    ensures r >= 1
    ensures pageSize >= 1 ==> r == pageSize
    ensures pageSize <= 0 ==> r == DefaultPageSize
  {
    if pageSize <= 0 then DefaultPageSize else pageSize
  }

  /** The OFFSET of the query: the records on the pages before `page`. */
  function Offset(page: int, pageSize: int): nat
  {
    var p, size := NormalisePage(page), NormalisePageSize(pageSize);
    assert (p - 1) * size >= 0;
    (p - 1) * size
  }

  lemma OffsetOfNormalised(page: int, pageSize: int, p: int, size: int)
    requires p == NormalisePage(page) && size == NormalisePageSize(pageSize)
    ensures (p - 1) * size == Offset(page, pageSize)
  {
  }

  /** The user's records, in log order (WHERE user_id = $1). */
  function UserRecords(log: seq<Transaction>, u: Uuid): (r: seq<Transaction>)
    ensures |r| <= |log|
    ensures forall x :: x in r <==> x in log && x.userId == u
    ensures forall x :: multiset(r)[x] == if x.userId == u then multiset(log)[x] else 0
  {
    if log == [] then []
    else
      var rest := UserRecords(log[1..], u);
      assert log == [log[0]] + log[1..];
      assert forall x :: x in log <==> x == log[0] || x in log[1..];
      (if log[0].userId == u then [log[0]] else []) + rest
  }

  /** Newest first (ORDER BY created_at DESC). */
  ghost predicate Descending(o: seq<Transaction>)
  {
    forall i, j | 0 <= i < j < |o| :: o[i].createdAt >= o[j].createdAt
  }

  /** `o` is an order in which the database may return the user's records:
      exactly those records, newest first, ties in any order. */
  ghost predicate IsQueryOrder(o: seq<Transaction>, log: seq<Transaction>, u: Uuid)
  {
    Descending(o) && multiset(o) == multiset(UserRecords(log, u))
  }

  /** Insert `x` into a newest-first sequence. */
  function InsertDesc(x: Transaction, o: seq<Transaction>): (r: seq<Transaction>)
    requires Descending(o)
    ensures multiset(r) == multiset(o) + multiset{x}
    ensures Descending(r)
    ensures r[0] == x || (o != [] && r[0] == o[0])
  {
    if o == [] || x.createdAt >= o[0].createdAt then
      DescendingCons(x, o);
      [x] + o
    else
      var rest := InsertDesc(x, o[1..]);
      assert o == [o[0]] + o[1..];
      DescendingCons(o[0], rest);
      [o[0]] + rest
  }

  /** Putting a record no older than the head in front keeps the order newest first. */
  lemma DescendingCons(h: Transaction, o: seq<Transaction>)
    requires Descending(o)
    requires o != [] ==> h.createdAt >= o[0].createdAt
    ensures Descending([h] + o)
  {
    var r := [h] + o;
    forall i, j | 0 <= i < j < |r| ensures r[i].createdAt >= r[j].createdAt {
      if i == 0 {
        assert r[j] == o[j - 1];
      } else {
        assert r[i] == o[i - 1] && r[j] == o[j - 1];
      }
    }
  }

  /** One order the database may choose: sort newest first. */
  function SortDesc(s: seq<Transaction>): (r: seq<Transaction>)
    ensures multiset(r) == multiset(s)
    ensures Descending(r)
  {
    if s == [] then []
    else
      assert s == [s[0]] + s[1..];
      InsertDesc(s[0], SortDesc(s[1..]))
  }

  /** LIMIT `limit` OFFSET `offset` applied to the ordered rows. */
  function Window(o: seq<Transaction>, offset: nat, limit: nat): seq<Transaction>
  {
    var lo := if offset < |o| then offset else |o|;
    var hi := if offset + limit < |o| then offset + limit else |o|;
    o[lo..hi]
  }

  /** The window is the slice between its clamped bounds. */
  lemma WindowBounds(o: seq<Transaction>, offset: nat, limit: nat, lo: nat, hi: nat)
    requires lo == (if offset < |o| then offset else |o|)
    requires hi == (if offset + limit < |o| then offset + limit else |o|)
    ensures lo <= hi <= |o| && Window(o, offset, limit) == o[lo..hi]
  {
  }

  /** A query order holds every record of the user and nothing else. */
  lemma QueryOrderMembers(o: seq<Transaction>, log: seq<Transaction>, u: Uuid)
    requires IsQueryOrder(o, log, u)
    ensures |o| == |UserRecords(log, u)|
    ensures forall x :: x in o <==> x in log && x.userId == u
  {
    assert |multiset(o)| == |multiset(UserRecords(log, u))|;
    forall x ensures x in o <==> x in UserRecords(log, u) {
      assert x in o <==> x in multiset(o);
      assert x in UserRecords(log, u) <==> x in multiset(UserRecords(log, u));
    }
  }

  /** No two distinct records of the user share a creation time. */
  ghost predicate DistinctTimes(log: seq<Transaction>, u: Uuid)
  {
    forall x, y | x in log && y in log && x.userId == u && y.userId == u && x.createdAt == y.createdAt :: x == y
  }

  /** Without ties the ORDER BY leaves the database no choice: every query
      sees the same order of the user's records. */
  lemma QueryOrderUnique(o1: seq<Transaction>, o2: seq<Transaction>, log: seq<Transaction>, u: Uuid)
    requires IsQueryOrder(o1, log, u) && IsQueryOrder(o2, log, u)
    requires DistinctTimes(log, u)
    ensures o1 == o2
  {
    QueryOrderMembers(o1, log, u);
    SameDescending(o1, o2);
  }

  /** Two newest-first arrangements of the same records with distinct times are equal. */
  lemma {:induction false} SameDescending(o1: seq<Transaction>, o2: seq<Transaction>)
    requires Descending(o1) && Descending(o2) && multiset(o1) == multiset(o2)
    requires forall x, y | x in o1 && y in o1 && x.createdAt == y.createdAt :: x == y
    ensures o1 == o2
    decreases |o1|
  {
    assert |o1| == |multiset(o1)| == |multiset(o2)| == |o2|;
    if o1 != [] {
      var a, b := o1[0], o2[0];
      HeadIsNewest(o1, b);
      HeadIsNewest(o2, a);
      assert a == b;
      var t1, t2 := o1[1..], o2[1..];
      TailMultiset(o1, o2);
      DescendingTail(o1);
      DescendingTail(o2);
      assert forall x | x in t1 :: x in o1;
      SameDescending(t1, t2);
    }
  }

  /** Removing the same head from two arrangements of one multiset leaves arrangements of one multiset. */
  lemma TailMultiset(o1: seq<Transaction>, o2: seq<Transaction>)
    requires o1 != [] && o2 != [] && o1[0] == o2[0] && multiset(o1) == multiset(o2)
    ensures multiset(o1[1..]) == multiset(o2[1..])
  {
    assert o1 == [o1[0]] + o1[1..] && o2 == [o2[0]] + o2[1..];
    assert multiset(o1) == multiset([o1[0]]) + multiset(o1[1..]);
    assert multiset(o2) == multiset([o1[0]]) + multiset(o2[1..]);
    forall x ensures multiset(o1[1..])[x] == multiset(o2[1..])[x] {
      assert multiset(o1)[x] == multiset([o1[0]])[x] + multiset(o1[1..])[x];
      assert multiset(o2)[x] == multiset([o1[0]])[x] + multiset(o2[1..])[x];
    }
  }

  /** The head of a newest-first sequence is no older than any of its records. */
  lemma HeadIsNewest(o: seq<Transaction>, x: Transaction)
    requires Descending(o) && x in multiset(o)
    ensures o[0].createdAt >= x.createdAt
  {
    var k :| 0 <= k < |o| && o[k] == x;
    if k > 0 {
      assert o[0].createdAt >= o[k].createdAt;
    }
  }

  lemma DescendingTail(o: seq<Transaction>)
    requires Descending(o) && o != []
    ensures Descending(o[1..])
  {
    forall i, j | 0 <= i < j < |o[1..]| ensures o[1..][i].createdAt >= o[1..][j].createdAt {
      assert o[1..][i] == o[i + 1] && o[1..][j] == o[j + 1];
    }
  }

  /** With a tie the ORDER BY does not fix the order, and each page query may
      break the tie its own way: with page size 1, page 1 and page 2 can both
      return b, so a is on no page. */
  lemma TiedPagesCanSkip(a: Transaction, b: Transaction)
    requires a != b && a.userId == b.userId && a.createdAt == b.createdAt
    ensures IsQueryOrder([b, a], [a, b], a.userId) && IsQueryOrder([a, b], [a, b], a.userId)
    ensures Window([b, a], Offset(1, 1), 1) == [b] && Window([a, b], Offset(2, 1), 1) == [b]
  {
    TiedOrders(a, b);
    assert Offset(1, 1) == 0 && Offset(2, 1) == 1;
    WindowBounds([b, a], 0, 1, 0, 1);
    WindowBounds([a, b], 1, 1, 1, 2);
  }

  /** Both arrangements of two tied records of one user are admissible. */
  lemma TiedOrders(a: Transaction, b: Transaction)
    requires a.userId == b.userId && a.createdAt == b.createdAt
    ensures IsQueryOrder([b, a], [a, b], a.userId) && IsQueryOrder([a, b], [a, b], a.userId)
  {
    PairRecords(a, b);
    assert multiset([b, a]) == multiset([a, b]);
  }

  lemma PairRecords(a: Transaction, b: Transaction)
    requires a.userId == b.userId
    ensures UserRecords([a, b], a.userId) == [a, b]
  {
    assert [a, b][1..] == [b] && [b][1..] == [];
    assert UserRecords([b], a.userId) == [b];
  }

  /** `w` is a page of the user's history: only the user's records, newest
      first, and exactly min(size, n - offset) of them (none at all past the
      end, or when the user has no records), where n is the number of the
      user's records. */
  ghost predicate IsHistoryPage(w: seq<Transaction>, log: seq<Transaction>, u: Uuid, page: int, pageSize: int)
  {
    var n, off, size := |UserRecords(log, u)|, Offset(page, pageSize), NormalisePageSize(pageSize);
    && Descending(w)
    && (forall x | x in w :: x in log && x.userId == u)
    && |w| == (if off >= n then 0 else if n - off < size then n - off else size)
  }

  /** The window of any admissible order is a page of the user's history. */
  lemma HistoryPage(o: seq<Transaction>, log: seq<Transaction>, u: Uuid, page: int, pageSize: int)
    requires IsQueryOrder(o, log, u)
    ensures IsHistoryPage(Window(o, Offset(page, pageSize), NormalisePageSize(pageSize)), log, u, page, pageSize)
  {
    WindowOfQueryOrder(o, log, u, Offset(page, pageSize), NormalisePageSize(pageSize));
  }

  lemma WindowOfQueryOrder(o: seq<Transaction>, log: seq<Transaction>, u: Uuid, off: nat, size: nat)
    requires IsQueryOrder(o, log, u)
    ensures var w, n := Window(o, off, size), |UserRecords(log, u)|;
            && Descending(w)
            && (forall x | x in w :: x in log && x.userId == u)
            && |w| == (if off >= n then 0 else if n - off < size then n - off else size)
  {
    QueryOrderMembers(o, log, u);
    WindowInside(o, off, size);
  }

  /** A window is a run of consecutive elements: newest first if the order is. */
  lemma WindowInside(o: seq<Transaction>, off: nat, size: nat)
    ensures forall x | x in Window(o, off, size) :: x in o
    ensures Descending(o) ==> Descending(Window(o, off, size))
  {
    var lo := if off < |o| then off else |o|;
    var hi := if off + size < |o| then off + size else |o|;
    assert Window(o, off, size) == o[lo..hi];
  }

  /** Pages 1..k of size `size`, one after the other. */
  function Pages(o: seq<Transaction>, size: nat, k: nat): seq<Transaction>
  {
    if k == 0 then [] else Pages(o, size, k - 1) + Window(o, (k - 1) * size, size)
  }

  /** Reading pages 1..k in turn yields the first k*size records of the order,
      with none skipped and none repeated. */
  lemma {:induction false} PagesCover(o: seq<Transaction>, size: nat, k: nat)
    requires size >= 1
    ensures Pages(o, size, k) == o[..if k * size < |o| then k * size else |o|]
  {
    if k > 0 {
      PagesCover(o, size, k - 1);
      var a := if (k - 1) * size < |o| then (k - 1) * size else |o|;
      var b := if k * size < |o| then k * size else |o|;
      assert (k - 1) * size + size == k * size;
      assert o[..a] + o[a..b] == o[..b];
    }
  }

  /** Every record of the user is on some page of the history. */
  lemma EveryRecordOnAPage(o: seq<Transaction>, log: seq<Transaction>, u: Uuid, x: Transaction, pageSize: int)
    requires IsQueryOrder(o, log, u)
    requires x in log && x.userId == u
    ensures exists page | page >= 1 :: x in Window(o, Offset(page, pageSize), NormalisePageSize(pageSize))
  {
    QueryOrderMembers(o, log, u);
    var i :| 0 <= i < |o| && o[i] == x;
    var size := NormalisePageSize(pageSize);
    var q := PageIndex(i, size);
    var page := q + 1;
    OffsetOfNormalised(page, pageSize, page, size);
    InWindow(o, q * size, size, i);
    assert page >= 1 && x in Window(o, Offset(page, pageSize), size);
  }

  /** A position inside the window's range is on the page. */
  lemma InWindow(o: seq<Transaction>, off: nat, size: nat, i: nat)
    requires off <= i < off + size && i < |o|
    ensures o[i] in Window(o, off, size)
  {
    assert Window(o, off, size)[i - off] == o[i];
  }

  /** The zero-based page that holds position `i`. */
  lemma PageIndex(i: nat, size: int) returns (q: nat)
    requires size >= 1
    ensures q * size <= i < q * size + size
  {
    q := i / size;
    assert i == q * size + i % size;
  }

  /** A transaction just applied is on some page of its user's history. */
  lemma AppliedAppearsInHistory(s: Snapshot, t: Transaction, fault: Fault, o: seq<Transaction>, pageSize: int)
    requires Apply(s, t, fault).err.None?
    requires IsQueryOrder(o, Apply(s, t, fault).after.transactions, t.userId)
    ensures exists page | page >= 1 :: Apply(s, t, fault).returned in Window(o, Offset(page, pageSize), NormalisePageSize(pageSize))
  {
    var log := Apply(s, t, fault).after.transactions;
    assert log[|log| - 1] == t;
    EveryRecordOnAPage(o, log, t.userId, t, pageSize);
  }
}
