/** Recomputing the allocations of every customer affected by a change of a
    shop's area: keyset pages of 200 users, worked off in slices of 4. */
module AllocationFanout {
  import opened Common

  const BATCH_SIZE := 200
  const SLICE := 4
  const MAX_ITERATIONS := 5000
  const MAX_USERS := BATCH_SIZE * MAX_ITERATIONS

  /** How recomputing one user turns out. */
  datatype Outcome = Succeeds | Declines | Throws

  /** An affected user with one default address; complete says whether the
      address has coordinates and a pincode.  Nothing in the tables keeps a user
      from having two default addresses, and then there are two such rows. */
  datatype User = User(id: nat, complete: bool, outcome: Outcome)

  /** The order of the query. */
  ghost predicate Sorted(users: seq<User>)
  {
    forall i, j :: 0 <= i < j < |users| ==> users[i].id <= users[j].id
  }

  /** The order of the query when every user has one default address. */
  ghost predicate Increasing(users: seq<User>)
  {
    forall i, j :: 0 <= i < j < |users| ==> users[i].id < users[j].id
  }

  function Ids(users: seq<User>): (ids: seq<nat>)
    ensures |ids| == |users|
  {
    seq(|users|, i requires 0 <= i < |users| => users[i].id)
  }

  function SuccessOf(): User -> int
  {
    (u: User) => if u.complete && u.outcome == Succeeds then 1 else 0
  }

  /** The users after the cursor, in order. */
  function After(users: seq<User>, cursor: Option<nat>): seq<User>
  {
    if users == [] then []
    else (if cursor == None || users[0].id > cursor.value then [users[0]] else []) + After(users[1..], cursor)
  }

  /** One page: at most `limit` users after the cursor, and the limit is clamped
      to 1 to 1000. */
  function FindUsersAffected(users: seq<User>, cursor: Option<nat>, limit: nat): seq<User>
  {
    var safeLimit := Max(1, Min(1000, if limit == 0 then 200 else limit));
    var found := After(users, cursor);
    if |found| <= safeLimit then found else found[..safeLimit]
  }

  /** The pages the job works off, one behind the other: it stops behind a page
      that is not full, and after n pages. */
  function Visited(users: seq<User>, cursor: Option<nat>, n: nat): seq<User>
    decreases n
  {
    if n == 0 then []
    else
      var page := FindUsersAffected(users, cursor, BATCH_SIZE);
      if |page| < BATCH_SIZE then page else page + Visited(users, Some(page[|page| - 1].id), n - 1)
  }

  /** The job returns the ids it visited, in order, and its count of recomputed users. */
  method HandleRecomputeByShop(users: seq<User>) returns (visited: seq<nat>, processed: int)
    ensures visited == Ids(Visited(users, None, MAX_ITERATIONS))
    ensures processed == Recomputed(Visited(users, None, MAX_ITERATIONS))
  {
    hide Recomputed, Ids, SuccessOf, FindUsersAffected, SumBy;
    visited, processed := [], 0;
    NothingVisited();
    var cursor: Option<nat> := None;
    ghost var done: seq<User> := [];
    for i := 0 to MAX_ITERATIONS
      invariant Visited(users, None, MAX_ITERATIONS) == done + Visited(users, cursor, MAX_ITERATIONS - i)
      invariant visited == Ids(done)
      invariant processed == SumBy(done, SuccessOf())
    {
      var batch := FindUsersAffected(users, cursor, BATCH_SIZE);
      PageAdds(done, batch);
      CountsRecomputed(done + batch);
      if |batch| == 0 {
        return;
      }
      var ids, succeeded := ProcessBatch(batch);
      visited, processed := visited + ids, processed + succeeded;
      done := done + batch;
      cursor := Some(batch[|batch| - 1].id);
      if |batch| < BATCH_SIZE {
        return;
      }
    }
    assert done + [] == done;
    CountsRecomputed(done);
  }

  /** How many of the rows have a complete address and are recomputed with success. */
  ghost function Recomputed(v: seq<User>): nat
  {
    |set i | 0 <= i < |v| && v[i].complete && v[i].outcome == Succeeds|
  }

  lemma CountsRecomputed(v: seq<User>)
    ensures SumBy(v, SuccessOf()) == Recomputed(v)
  {
    SumByCounts(v, SuccessOf());
    assert Ones(v, SuccessOf()) == set i | 0 <= i < |v| && v[i].complete && v[i].outcome == Succeeds;
  }

  lemma NothingVisited()
    ensures Ids([]) == [] && SumBy([], SuccessOf()) == 0
  {
  }

  lemma PageAdds(done: seq<User>, page: seq<User>)
    ensures Ids(done + page) == Ids(done) + Ids(page)
    ensures SumBy(done + page, SuccessOf()) == SumBy(done, SuccessOf()) + SumBy(page, SuccessOf())
    ensures page == [] ==> done + page == done
  {
    SumByConcat(done, page, SuccessOf());
  }

  /** One page, in slices of four. */
  method ProcessBatch(batch: seq<User>) returns (visited: seq<nat>, processed: int)
    ensures visited == Ids(batch)
    ensures processed == SumBy(batch, SuccessOf())
  {
    visited, processed := [], 0;
    var j := 0;
    while j < |batch|
      invariant 0 <= j <= |batch|
      invariant visited == Ids(batch[..j])
      invariant processed == SumBy(batch[..j], SuccessOf())
    {
      var end := Min(|batch|, j + SLICE);
      var slice := batch[j..end];
      for k := 0 to |slice|
        invariant visited == Ids(batch[..j + k])
        invariant processed == SumBy(batch[..j + k], SuccessOf())
      {
        var user := slice[k];
        assert batch[..j + k + 1] == batch[..j + k] + [user];
        SumByAppend(batch[..j + k], user, SuccessOf());
        visited := visited + [user.id];
        if user.complete && user.outcome == Succeeds {
          processed := processed + 1;
        }
      }
      j := end;
    }
    assert batch[..|batch|] == batch;
  }

  /** The position of the first row after the cursor. */
  function Position(users: seq<User>, cursor: Option<nat>): int
  {
    |users| - |After(users, cursor)|
  }

  lemma {:induction false} AfterAll(users: seq<User>, cursor: Option<nat>)
    requires forall i :: 0 <= i < |users| ==> cursor == None || users[i].id > cursor.value
    ensures After(users, cursor) == users
  {
    if users != [] {
      AfterAll(users[1..], cursor);
    }
  }

  /** The rows from k on are exactly the ones after the cursor. */
  ghost predicate Splits(users: seq<User>, cursor: Option<nat>, k: int)
  {
    && 0 <= k <= |users|
    && (forall i :: 0 <= i < k ==> cursor.Some? && users[i].id <= cursor.value)
    && (forall i :: k <= i < |users| ==> cursor == None || users[i].id > cursor.value)
  }

  lemma {:induction false} AfterSplit(users: seq<User>, cursor: Option<nat>, k: nat)
    requires Splits(users, cursor, k)
    ensures After(users, cursor) == users[k..]
  {
    if k == 0 {
      AfterAll(users, cursor);
    } else {
      assert users[0].id <= cursor.value;
      forall i | 0 <= i < |users| - 1
        ensures if i < k - 1 then users[1..][i].id <= cursor.value else users[1..][i].id > cursor.value
      {
        assert users[1..][i] == users[i + 1];
      }
      AfterSplit(users[1..], cursor, k - 1);
      assert users[1..][k - 1..] == users[k..];
    }
  }

  lemma {:induction false} SplitPoint(users: seq<User>, cursor: Option<nat>) returns (k: nat)
    requires Sorted(users)
    ensures Splits(users, cursor, k)
    decreases |users|
  {
    if users == [] || cursor == None || users[0].id > cursor.value {
      k := 0;
    } else {
      SliceSorted(users, 1, |users|);
      k := SplitPoint(users[1..|users|], cursor);
      assert forall i :: 1 <= i < |users| ==> users[i] == users[1..|users|][i - 1];
      k := k + 1;
    }
  }

  /** What comes after a cursor is the rest of the table from its position on. */
  lemma AfterCursor(users: seq<User>, cursor: Option<nat>)
    requires Sorted(users)
    ensures var k := Position(users, cursor); Splits(users, cursor, k) && After(users, cursor) == users[k..]
  {
    hide Sorted, Splits;
    var k := SplitPoint(users, cursor);
    WithinTable(users, cursor, k);
    AfterSplit(users, cursor, k);
  }

  lemma WithinTable(users: seq<User>, cursor: Option<nat>, k: int)
    requires Splits(users, cursor, k)
    ensures 0 <= k <= |users|
  {
  }

  lemma SliceSorted(users: seq<User>, k: nat, m: nat)
    requires Sorted(users) && k <= m <= |users|
    ensures Sorted(users[k..m]) && forall i :: k <= i < m ==> users[k].id <= users[i].id
  {
  }

  /** A page holds the first rows after the cursor, as many as the limit allows:
      200 without one, and at most 1000. */
  lemma PageLimit(users: seq<User>, cursor: Option<nat>, limit: nat)
    ensures var after := After(users, cursor);
            var most := if limit == 0 then 200 else if limit > 1000 then 1000 else limit;
            FindUsersAffected(users, cursor, limit) == if |after| <= most then after else after[..most]
  {
  }

  /** A page starts at the position of its cursor. */
  lemma PageIs(users: seq<User>, cursor: Option<nat>)
    requires Sorted(users)
    ensures var k := Position(users, cursor);
            && 0 <= k <= |users|
            && FindUsersAffected(users, cursor, BATCH_SIZE) == users[k..Min(|users|, k + BATCH_SIZE)]
  {
    hide Position, Sorted, FindUsersAffected;
    AfterCursor(users, cursor);
    PageFrom(users, cursor, Position(users, cursor));
  }

  /** After a full page from k on, the next cursor is behind the page, and the
      rows it passes over are of the page's last user. */
  lemma NextPosition(users: seq<User>, k: nat)
    requires Sorted(users) && k + BATCH_SIZE <= |users|
    ensures var last := users[k + BATCH_SIZE - 1].id;
            var k' := Position(users, Some(last));
            && k + BATCH_SIZE <= k' <= |users|
            && (forall i :: k + BATCH_SIZE <= i < k' ==> users[i].id == last)
            && (Increasing(users) ==> k' == k + BATCH_SIZE)
  {
    hide Position;
    AfterCursor(users, Some(users[k + BATCH_SIZE - 1].id));
    if k + BATCH_SIZE < |users| {
      assert users[k + BATCH_SIZE - 1].id <= users[k + BATCH_SIZE].id;
    }
  }

  lemma PageFrom(users: seq<User>, cursor: Option<nat>, k: nat)
    requires k <= |users| && After(users, cursor) == users[k..]
    ensures FindUsersAffected(users, cursor, BATCH_SIZE) == users[k..Min(|users|, k + BATCH_SIZE)]
  {
    assert |users| > k + BATCH_SIZE ==> users[k..][..BATCH_SIZE] == users[k..k + BATCH_SIZE];
  }

  /** With one default address each, the job visits the rows from its cursor on,
      as many as n pages hold. */
  lemma {:induction false} VisitedIs(users: seq<User>, cursor: Option<nat>, n: nat)
    requires Increasing(users)
    ensures var k := Position(users, cursor);
            0 <= k <= |users| && Visited(users, cursor, n) == users[k..Min(|users|, k + BATCH_SIZE * n)]
    decreases n
  {
    hide Position, FindUsersAffected, Increasing, Sorted;
    IncreasingIsSorted(users);
    PageIs(users, cursor);
    if n > 0 {
      var k := Position(users, cursor);
      if k + BATCH_SIZE <= |users| {
        NextPosition(users, k);
        VisitedIs(users, Some(users[k + BATCH_SIZE - 1].id), n - 1);
        Joined(users, k, k + BATCH_SIZE, Min(|users|, k + BATCH_SIZE * n));
      }
    }
  }

  lemma IncreasingIsSorted(users: seq<User>)
    requires Increasing(users)
    ensures Sorted(users)
  {
  }

  lemma Joined(users: seq<User>, k: nat, l: nat, m: nat)
    requires k <= l <= m <= |users|
    ensures users[k..l] + users[l..m] == users[k..m]
  {
  }

  /** Every user with a row after the cursor is visited when n pages hold those
      rows.  A second row of a user that is cut off by the end of a page is
      passed over, but the user has been visited for the first. */
  lemma {:induction false} EveryoneAfter(users: seq<User>, cursor: Option<nat>, n: nat, i: nat)
    requires Sorted(users) && Position(users, cursor) <= i < |users|
    requires |users| - Position(users, cursor) <= BATCH_SIZE * n
    ensures users[i].id in Ids(Visited(users, cursor, n))
    decreases n
  {
    hide Position, FindUsersAffected, Ids, Sorted;
    PageIs(users, cursor);
    var k, visited := Position(users, cursor), Visited(users, cursor, n);
    if i < k + BATCH_SIZE {
      assert visited[i - k] == users[i];
      IdAt(visited, i - k);
    } else {
      NextPosition(users, k);
      var next := Some(users[k + BATCH_SIZE - 1].id);
      if i < Position(users, next) {
        assert visited[BATCH_SIZE - 1].id == users[i].id;
        IdAt(visited, BATCH_SIZE - 1);
      } else {
        EveryoneAfter(users, next, n - 1, i);
        PageAdds(users[k..k + BATCH_SIZE], Visited(users, next, n - 1));
      }
    }
  }

  lemma IdAt(users: seq<User>, i: nat)
    requires i < |users|
    ensures users[i].id in Ids(users)
  {
    assert Ids(users)[i] == users[i].id;
  }

  /** Whatever default addresses users have: with at most a million rows the job
      visits every affected user. */
  lemma EveryoneVisited(users: seq<User>)
    requires Sorted(users) && |users| <= 1_000_000
    ensures forall u :: u in users ==> u.id in Ids(Visited(users, None, MAX_ITERATIONS))
  {
    hide Ids, Visited;
    AfterCursor(users, None);
    forall u | u in users
      ensures u.id in Ids(Visited(users, None, MAX_ITERATIONS))
    {
      var i :| 0 <= i < |users| && users[i] == u;
      EveryoneAfter(users, None, MAX_ITERATIONS, i);
    }
  }

  /** The same user twice is within one page. */
  ghost predicate RepeatsOnPage(v: seq<User>)
  {
    forall a, b :: 0 <= a < b < |v| && v[a].id == v[b].id ==> a / 200 == b / 200
  }

  ghost predicate Above(v: seq<User>, cursor: Option<nat>)
  {
    forall a :: 0 <= a < |v| ==> cursor == None || v[a].id > cursor.value
  }

  lemma PageThenRest(page: seq<User>, rest: seq<User>, cursor: Option<nat>)
    requires |page| == BATCH_SIZE && Sorted(page) && Sorted(rest) && RepeatsOnPage(rest)
    requires Above(page, cursor) && Above(rest, Some(page[|page| - 1].id))
    ensures Sorted(page + rest) && RepeatsOnPage(page + rest) && Above(page + rest, cursor)
  {
    var v := page + rest;
    assert forall a, b :: 0 <= a < BATCH_SIZE <= b < |v| ==> v[a].id < v[b].id;
    forall a, b | 0 <= a < b < |v| && v[a].id == v[b].id
      ensures a / BATCH_SIZE == b / BATCH_SIZE
    {
      if a >= BATCH_SIZE {
        assert rest[a - BATCH_SIZE].id == rest[b - BATCH_SIZE].id;
        assert a / BATCH_SIZE == (a - BATCH_SIZE) / BATCH_SIZE + 1;
        assert b / BATCH_SIZE == (b - BATCH_SIZE) / BATCH_SIZE + 1;
      }
    }
  }

  lemma OnePage(users: seq<User>, cursor: Option<nat>)
    requires Sorted(users)
    ensures var page := FindUsersAffected(users, cursor, BATCH_SIZE);
            |page| <= BATCH_SIZE && Sorted(page) && RepeatsOnPage(page) && Above(page, cursor)
  {
    hide Position, FindUsersAffected, Sorted, RepeatsOnPage;
    PageIs(users, cursor);
    AfterCursor(users, cursor);
    var k := Position(users, cursor);
    SliceSorted(users, k, Min(|users|, k + BATCH_SIZE));
    OnFirstPage(users[k..Min(|users|, k + BATCH_SIZE)]);
  }

  lemma OnFirstPage(page: seq<User>)
    requires |page| <= BATCH_SIZE
    ensures RepeatsOnPage(page)
  {
    assert forall a :: 0 <= a < |page| ==> a / BATCH_SIZE == 0;
  }

  /** The job never comes back to a user on another page: the ids it visits
      never fall, and the same id twice is on one page. */
  lemma {:induction false} SameUserSamePage(users: seq<User>, cursor: Option<nat>, n: nat)
    requires Sorted(users)
    ensures var v := Visited(users, cursor, n); Sorted(v) && RepeatsOnPage(v) && Above(v, cursor)
    decreases n
  {
    hide FindUsersAffected, Sorted, RepeatsOnPage, Above;
    if n == 0 {
      NoneVisited(cursor);
    } else {
      OnePage(users, cursor);
      var page := FindUsersAffected(users, cursor, BATCH_SIZE);
      if |page| == BATCH_SIZE {
        SameUserSamePage(users, Some(page[|page| - 1].id), n - 1);
        PageThenRest(page, Visited(users, Some(page[|page| - 1].id), n - 1), cursor);
      }
    }
  }

  lemma NoneVisited(cursor: Option<nat>)
    ensures Sorted([]) && RepeatsOnPage([]) && Above([], cursor)
  {
  }

  /** No page that the job works off holds two rows of one user. */
  ghost predicate PagesDistinct(users: seq<User>, cursor: Option<nat>, n: nat)
    decreases n
  {
    n == 0 ||
    var page := FindUsersAffected(users, cursor, BATCH_SIZE);
    && Increasing(page)
    && (|page| < BATCH_SIZE || PagesDistinct(users, Some(page[|page| - 1].id), n - 1))
  }

  /** No user is visited twice if and only if no page holds two rows of a user. */
  lemma {:induction false} OncePerUser(users: seq<User>, cursor: Option<nat>, n: nat)
    requires Sorted(users)
    ensures Increasing(Visited(users, cursor, n)) <==> PagesDistinct(users, cursor, n)
    decreases n
  {
    hide FindUsersAffected, Sorted, RepeatsOnPage, Above, Increasing;
    if n == 0 {
      NoneTwice();
    } else {
      OnePage(users, cursor);
      var page := FindUsersAffected(users, cursor, BATCH_SIZE);
      if |page| == BATCH_SIZE {
        var next := Some(page[|page| - 1].id);
        OncePerUser(users, next, n - 1);
        SameUserSamePage(users, next, n - 1);
        IncreasingParts(page, Visited(users, next, n - 1));
      }
    }
  }

  /** A user with two default addresses is visited twice. */
  lemma TwoAddresses(u: User)
    ensures Ids(Visited([u, u], None, MAX_ITERATIONS)) == [u.id, u.id]
  {
    AfterAll([u, u], None);
    assert FindUsersAffected([u, u], None, BATCH_SIZE) == [u, u];
  }

  lemma NoneTwice()
    ensures Increasing([])
  {
  }

  lemma IncreasingParts(page: seq<User>, rest: seq<User>)
    requires |page| == BATCH_SIZE && Sorted(page) && Above(rest, Some(page[|page| - 1].id))
    ensures Increasing(page + rest) <==> Increasing(page) && Increasing(rest)
  {
    var v := page + rest;
    assert forall a :: 0 <= a < |page| ==> v[a] == page[a];
    assert forall a :: 0 <= a < |rest| ==> v[a + BATCH_SIZE] == rest[a];
    if Increasing(v) {
      forall a, b | 0 <= a < b < |rest|
        ensures rest[a].id < rest[b].id
      {
        assert v[a + BATCH_SIZE].id < v[b + BATCH_SIZE].id;
      }
    }
  }

  /** With one default address each, what the job visits is in increasing order,
      so no user twice, and it is every affected user exactly when there are at
      most a million of them. */
  lemma VisitsEveryoneUpToAMillion(users: seq<User>)
    requires Increasing(users)
    ensures var visited := Ids(Visited(users, None, MAX_ITERATIONS));
            && (forall i, j :: 0 <= i < j < |visited| ==> visited[i] < visited[j])
            && ((forall u :: u in users ==> u.id in visited) <==> |users| <= 1_000_000)
  {
    hide Visited, Ids, Position;
    StartsAtFirst(users);
    VisitedIs(users, None, MAX_ITERATIONS);
    FirstIds(users, MAX_USERS);
    if |users| <= MAX_USERS {
      EveryoneVisited(users);
    } else {
      assert users[MAX_USERS] in users;
    }
  }

  lemma StartsAtFirst(users: seq<User>)
    ensures Position(users, None) == 0
  {
    AfterAll(users, None);
  }

  lemma FirstIds(users: seq<User>, n: nat)
    requires Increasing(users)
    ensures var ids := Ids(users[..Min(|users|, n)]);
            && (forall i, j :: 0 <= i < j < |ids| ==> ids[i] < ids[j])
            && (n < |users| ==> users[n].id !in ids)
  {
  }
}
