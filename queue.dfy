/**
 * FIH_Queue: the `fih_queue` table of generation jobs, its priority order,
 * the batch run of process_queue and the `fih_queue_paused` option.
 *
 * The table is a sequence of rows in insertion order; `AUTO_INCREMENT` is
 * the field `nextId` and `current_time('mysql')` a logical clock `now` that
 * only the environment advances (Tick). The outcome of each generate_image
 * call of a batch run is an oracle.
 */
module Queue {
  import opened Wrappers
  import opened WordPress

  datatype Status = Pending | Processing | Completed | Failed

  /** Pending and processing rows block a new row for the same post. */
  predicate IsActive(s: Status) {
    s.Pending? || s.Processing?
  }

  /** A row of `fih_queue`; `processedAt` is NULL until a status update. */
  datatype Item = Item(id: nat, postId: nat, status: Status, priority: nat, createdAt: nat, processedAt: Option<nat>)

  function Min(a: int, b: int): int {
    if a < b then a else b
  }

  function Max(a: int, b: int): int {
    if a < b then b else a
  }

  /** Every id is below the next one to be assigned, and no row was created
      after `now`. */
  predicate RowsBefore(s: seq<Item>, nextId: nat, now: nat) {
    forall x :: x in s ==> 1 <= x.id < nextId && x.createdAt <= now
  }

  /** Ids grow in insertion order. */
  predicate IdsIncreasing(s: seq<Item>) {
    forall i, j :: 0 <= i < j < |s| ==> s[i].id < s[j].id
  }

  /** No two rows share an id. */
  predicate DistinctIds(s: seq<Item>) {
    forall i, j :: 0 <= i < j < |s| ==> s[i].id != s[j].id
  }

  // ---------------------------------------------------------------------
  // de-duplication

  /** The post ids that have an active row. */
  function ActivePosts(items: seq<Item>): set<int> {
    set i | 0 <= i < |items| && IsActive(items[i].status) :: items[i].postId as int
  }

  /** The check of add_to_queue: `post_id = %d AND status IN (pending, processing)`. */
  predicate HasActive(items: seq<Item>, postId: int) {
    postId in ActivePosts(items)
  }

  /** At most one active row per post. */
  predicate OneActivePerPost(items: seq<Item>) {
    forall i, j :: 0 <= i < j < |items| && IsActive(items[i].status) && IsActive(items[j].status)
      ==> items[i].postId != items[j].postId
  }

  lemma ActivePostsAppend(items: seq<Item>, x: Item)
    ensures ActivePosts(items + [x])
         == ActivePosts(items) + (if IsActive(x.status) then {x.postId as int} else {})
  {
    var s := items + [x];
    forall p | p in ActivePosts(s)
      ensures p in ActivePosts(items) + (if IsActive(x.status) then {x.postId as int} else {})
    {
      var i :| 0 <= i < |s| && IsActive(s[i].status) && s[i].postId as int == p;
      if i < |items| {
        assert items[i] == s[i];
      }
    }
    forall p | p in ActivePosts(items)
      ensures p in ActivePosts(s)
    {
      var i :| 0 <= i < |items| && IsActive(items[i].status) && items[i].postId as int == p;
      assert s[i] == items[i];
    }
    if IsActive(x.status) {
      assert s[|items|] == x;
    }
  }

  /** A new pending row for a post that has no active row keeps the
      one-active-row-per-post rule. */
  lemma AppendKeepsOneActive(items: seq<Item>, x: Item)
    requires OneActivePerPost(items) && !HasActive(items, x.postId)
    ensures OneActivePerPost(items + [x])
  {
    var s := items + [x];
    forall i, j | 0 <= i < j < |s| && IsActive(s[i].status) && IsActive(s[j].status)
      ensures s[i].postId != s[j].postId
    {
      if j == |items| {
        assert s[i] == items[i];
        assert items[i].postId as int in ActivePosts(items);
      } else {
        assert s[i] == items[i] && s[j] == items[j];
      }
    }
  }

  /** How many of `postIds` add_bulk_to_queue accepts, given the posts that
      already have an active row: each accepted id becomes active, as its
      `absint`. */
  function Accepted(active: set<int>, postIds: seq<int>): (n: nat)
    ensures n <= |postIds|
    decreases |postIds|
  {
    if postIds == [] then 0
    else if postIds[0] in active then Accepted(active, postIds[1..])
    else 1 + Accepted(active + {Absint(postIds[0])}, postIds[1..])
  }

  /** The posts add_bulk_to_queue enqueues, in order: the `absint` of each id
      that add_to_queue accepts in turn. */
  function AcceptedPosts(active: set<int>, postIds: seq<int>): (r: seq<nat>)
    ensures |r| == Accepted(active, postIds)
    decreases |postIds|
  {
    if postIds == [] then []
    else if postIds[0] in active then AcceptedPosts(active, postIds[1..])
    else [Absint(postIds[0])] + AcceptedPosts(active + {Absint(postIds[0])}, postIds[1..])
  }

  /** One step of AcceptedPosts, at index `i` of the ids. */
  lemma AcceptedPostsAt(active: set<int>, postIds: seq<int>, i: nat)
    requires i < |postIds|
    ensures AcceptedPosts(active, postIds[i..])
         == if postIds[i] in active then AcceptedPosts(active, postIds[i + 1..])
            else [Absint(postIds[i])] + AcceptedPosts(active + {Absint(postIds[i])}, postIds[i + 1..])
  {
    assert postIds[i..][1..] == postIds[i + 1..];
  }

  /** What is left to enqueue after index `i`, once the id there is
      accepted or refused. */
  lemma AcceptedPostsStep(all: seq<nat>, taken: seq<nat>, active: set<int>, postIds: seq<int>, i: nat)
    requires i < |postIds| && all == taken + AcceptedPosts(active, postIds[i..])
    ensures postIds[i] in active ==> all == taken + AcceptedPosts(active, postIds[i + 1..])
    ensures postIds[i] !in active ==>
      all == (taken + [Absint(postIds[i])]) + AcceptedPosts(active + {Absint(postIds[i])}, postIds[i + 1..])
  {
    AcceptedPostsAt(active, postIds, i);
    if postIds[i] !in active {
      var p := Absint(postIds[i]);
      AppendAssoc(taken, [p], AcceptedPosts(active + {p}, postIds[i + 1..]));
    }
  }

  lemma AppendAssoc<T>(a: seq<T>, b: seq<T>, c: seq<T>)
    ensures a + (b + c) == (a + b) + c
  {
  }

  /** The rows a bulk add appends for `posts`: pending, with consecutive ids
      from `firstId`, one priority, created at `now`, never processed. */
  function QueuedRows(posts: seq<nat>, firstId: nat, priority: nat, now: nat): (r: seq<Item>)
    ensures |r| == |posts|
  {
    seq(|posts|, k requires 0 <= k < |posts| => Item(firstId + k, posts[k], Pending, priority, now, None))
  }

  lemma QueuedRowsSnoc(posts: seq<nat>, p: nat, firstId: nat, priority: nat, now: nat)
    ensures QueuedRows(posts + [p], firstId, priority, now)
         == QueuedRows(posts, firstId, priority, now) + [Item(firstId + |posts|, p, Pending, priority, now, None)]
  {
  }

  /** Appending the next queued row to a table that ends with `taken`'s rows. */
  lemma QueuedRowsStep(start: seq<Item>, taken: seq<nat>, p: nat, firstId: nat, priority: nat, now: nat,
                       before: seq<Item>, rowId: nat, after: seq<Item>)
    requires before == start + QueuedRows(taken, firstId, priority, now)
    requires rowId == firstId + |taken| && after == before + [Item(rowId, p, Pending, priority, now, None)]
    ensures after == start + QueuedRows(taken + [p], firstId, priority, now)
  {
    QueuedRowsSnoc(taken, p, firstId, priority, now);
    AppendAssoc(start, QueuedRows(taken, firstId, priority, now),
      [Item(firstId + |taken|, p, Pending, priority, now, None)]);
  }

  /** Where a bulk add stands after the ids before `i`: it has enqueued
      `taken`, `all` is what it will have enqueued at the end, and the table
      is the starting one with `taken`'s rows appended. */
  ghost predicate BulkProgress(start: seq<Item>, firstId: nat, all: seq<nat>, postIds: seq<int>, i: nat,
                               priority: nat, now: nat, taken: seq<nat>, items: seq<Item>, nextId: nat)
  {
    i <= |postIds|
    && ActivePosts(items) == ActivePosts(start) + PostSet(taken)
    && all == taken + AcceptedPosts(ActivePosts(items), postIds[i..])
    && nextId == firstId + |taken|
    && items == start + QueuedRows(taken, firstId, priority, now)
  }

  /** add_to_queue on the id at `i` moves a bulk add one id on: an accepted
      id appends its row and its post to `taken`. */
  lemma BulkProgressStep(start: seq<Item>, firstId: nat, all: seq<nat>, postIds: seq<int>, i: nat,
                         priority: nat, now: nat, taken: seq<nat>, items: seq<Item>, nextId: nat,
                         accepted: bool, items': seq<Item>, nextId': nat)
    requires BulkProgress(start, firstId, all, postIds, i, priority, now, taken, items, nextId) && i < |postIds|
    requires accepted <==> postIds[i] !in ActivePosts(items)
    requires accepted ==>
      items' == items + [Item(nextId, Absint(postIds[i]), Pending, priority, now, None)] && nextId' == nextId + 1
    requires !accepted ==> items' == items && nextId' == nextId
    ensures BulkProgress(start, firstId, all, postIds, i + 1, priority, now,
      if accepted then taken + [Absint(postIds[i])] else taken, items', nextId')
  {
    var active := ActivePosts(items);
    AcceptedPostsStep(all, taken, active, postIds, i);
    if accepted {
      var p := Absint(postIds[i]);
      QueuedRowsStep(start, taken, p, firstId, priority, now, items, nextId, items');
      ActivePostsAppend(items, Item(nextId, p, Pending, priority, now, None));
      PostSetSnoc(taken, p);
    }
  }

  /** The posts of a sequence, as a set. */
  function PostSet(posts: seq<nat>): set<int> {
    set k | 0 <= k < |posts| :: posts[k] as int
  }

  lemma PostSetSnoc(posts: seq<nat>, p: nat)
    ensures PostSet(posts + [p]) == PostSet(posts) + {p as int}
  {
    var s := posts + [p];
    forall x | x in PostSet(s) ensures x in PostSet(posts) + {p as int} {
      var k :| 0 <= k < |s| && s[k] as int == x;
      if k < |posts| {
        assert posts[k] == s[k];
      }
    }
    forall x | x in PostSet(posts) ensures x in PostSet(s) {
      var k :| 0 <= k < |posts| && posts[k] as int == x;
      assert s[k] == posts[k];
    }
    assert s[|posts|] == p;
  }

  /** The distinct members of a sequence. */
  function Members(s: seq<int>): set<int> {
    set i | 0 <= i < |s| :: s[i]
  }

  /** For post ids that are not negative, a bulk enqueue adds one row per
      distinct post that has no active row. */
  lemma {:induction false} AcceptedDistinct(active: set<int>, postIds: seq<int>)
    requires forall i :: 0 <= i < |postIds| ==> postIds[i] >= 0
    ensures Accepted(active, postIds) == |Members(postIds) - active|
    decreases |postIds|
  {
    if postIds != [] {
      var p, rest := postIds[0], postIds[1..];
      MembersCons(postIds);
      if p in active {
        AcceptedDistinct(active, rest);
        AbsorbKnown(Members(rest), active, p);
      } else {
        assert Absint(p) == p;
        AcceptedDistinct(active + {p}, rest);
        AddFresh(Members(rest), active, p);
      }
    }
  }

  lemma MembersCons(s: seq<int>)
    requires s != []
    ensures Members(s) == {s[0]} + Members(s[1..])
  {
    forall x | x in Members(s)
      ensures x in {s[0]} + Members(s[1..])
    {
      var i :| 0 <= i < |s| && s[i] == x;
      if i > 0 {
        assert s[1..][i - 1] == x;
      }
    }
    forall x | x in Members(s[1..])
      ensures x in Members(s)
    {
      var i :| 0 <= i < |s[1..]| && s[1..][i] == x;
      assert s[i + 1] == x;
    }
    assert s[0] in Members(s);
  }

  lemma AbsorbKnown(m: set<int>, active: set<int>, p: int)
    requires p in active
    ensures ({p} + m) - active == m - active
  {
  }

  lemma AddFresh(m: set<int>, active: set<int>, p: int)
    requires p !in active
    ensures |({p} + m) - active| == |m - (active + {p})| + 1
  {
    var after := m - (active + {p});
    assert ({p} + m) - active == after + {p};
    assert p !in after;
  }

  /** The bulk enqueue pinned by the plugin's tests: the same post three
      times on an empty queue adds one row. */
  lemma SamePostThrice()
    ensures Accepted({}, [7, 7, 7]) == 1
  {
    assert [7, 7, 7][1..] == [7, 7];
    assert [7, 7][1..] == [7];
  }

  // ---------------------------------------------------------------------
  // counting rows by status

  /** The rows with the given status, in table order. */
  function WithStatus(items: seq<Item>, s: Status): (r: seq<Item>)
    ensures |r| <= |items|
    ensures forall x :: x in r <==> x in items && x.status == s
  {
    if items == [] then []
    else if items[0].status == s then [items[0]] + WithStatus(items[1..], s)
    else WithStatus(items[1..], s)
  }

  /** The result of get_stats; `total` is what the grouped counts add up to. */
  datatype Stats = Stats(pending: nat, processing: nat, completed: nat, failed: nat, total: nat)

  /** FIH_Queue::get_stats on a table: a count per status and their sum. */
  function StatsOf(items: seq<Item>): (st: Stats)
    ensures st.total == st.pending + st.processing + st.completed + st.failed
    ensures st.total == |items|
    ensures st.pending == |WithStatus(items, Pending)| && st.processing == |WithStatus(items, Processing)|
    ensures st.completed == |WithStatus(items, Completed)| && st.failed == |WithStatus(items, Failed)|
  {
    CountsAddUp(items);
    var p, q, c, f := |WithStatus(items, Pending)|, |WithStatus(items, Processing)|,
                      |WithStatus(items, Completed)|, |WithStatus(items, Failed)|;
    Stats(p, q, c, f, p + q + c + f)
  }

  /** Every row has exactly one of the four statuses. */
  lemma {:induction false} CountsAddUp(items: seq<Item>)
    ensures |WithStatus(items, Pending)| + |WithStatus(items, Processing)|
          + |WithStatus(items, Completed)| + |WithStatus(items, Failed)| == |items|
  {
    if items != [] {
      CountsAddUp(items[1..]);
    }
  }

  /** The rows clear_processed keeps: the active ones. */
  function ActiveRows(items: seq<Item>): (r: seq<Item>)
    ensures forall x :: x in r <==> x in items && IsActive(x.status)
    ensures |WithStatus(r, Pending)| == |WithStatus(items, Pending)|
    ensures |WithStatus(r, Processing)| == |WithStatus(items, Processing)|
    ensures |WithStatus(r, Completed)| == 0 && |WithStatus(r, Failed)| == 0
  {
    if items == [] then []
    else if IsActive(items[0].status) then [items[0]] + ActiveRows(items[1..])
    else ActiveRows(items[1..])
  }

  /** Rows without the given id. */
  function WithoutId(items: seq<Item>, id: int): (r: seq<Item>)
    ensures forall x :: x in r <==> x in items && x.id != id
    ensures |r| <= |items|
  {
    if items == [] then []
    else if items[0].id == id then WithoutId(items[1..], id)
    else [items[0]] + WithoutId(items[1..], id)
  }

  // ---------------------------------------------------------------------
  // the order of `ORDER BY priority DESC, created_at ASC`

  /** `a` is taken no later than `b`: higher priority first, then the older
      row. MySQL leaves rows equal on both keys in no particular order; the
      model takes them by id, that is, in insertion order. */
  predicate RankLe(a: Item, b: Item) {
    a.priority > b.priority
    || (a.priority == b.priority && (a.createdAt < b.createdAt || (a.createdAt == b.createdAt && a.id <= b.id)))
  }

  predicate Sorted(s: seq<Item>) {
    forall i, j :: 0 <= i < j < |s| ==> RankLe(s[i], s[j])
  }

  /** Places `x` before the first row it ranks no later than. */
  function Insert(x: Item, s: seq<Item>): (r: seq<Item>)
    ensures |r| == |s| + 1 && multiset(r) == multiset(s) + multiset{x}
  {
    if s == [] || RankLe(x, s[0]) then [x] + s
    else
      assert s == [s[0]] + s[1..];
      [s[0]] + Insert(x, s[1..])
  }

  /** Insertion sort by rank. */
  function SortByRank(s: seq<Item>): (r: seq<Item>)
    ensures |r| == |s| && multiset(r) == multiset(s)
  {
    if s == [] then []
    else
      assert s == [s[0]] + s[1..];
      Insert(s[0], SortByRank(s[1..]))
  }

  lemma {:induction false} InsertSorted(x: Item, s: seq<Item>)
    requires Sorted(s)
    ensures Sorted(Insert(x, s))
    decreases |s|
  {
    if s != [] && !RankLe(x, s[0]) {
      var t := Insert(x, s[1..]);
      InsertSorted(x, s[1..]);
      forall y | y in t
        ensures RankLe(s[0], y)
      {
        assert y in multiset(t);
        if y != x {
          assert y in multiset(s[1..]);
          var k :| 0 <= k < |s[1..]| && s[1..][k] == y;
          assert s[k + 1] == y;
        }
      }
      var r := [s[0]] + t;
      forall i, j | 0 <= i < j < |r|
        ensures RankLe(r[i], r[j])
      {
        if i == 0 {
          assert r[j] == t[j - 1] && t[j - 1] in t;
        } else {
          assert r[i] == t[i - 1] && r[j] == t[j - 1];
        }
      }
    } else if s != [] {
      var r := [x] + s;
      forall i, j | 0 <= i < j < |r|
        ensures RankLe(r[i], r[j])
      {
        if i == 0 && j > 1 {
          assert RankLe(s[0], s[j - 1]);
        }
      }
    }
  }

  lemma {:induction false} SortSorted(s: seq<Item>)
    ensures Sorted(SortByRank(s))
    decreases |s|
  {
    if s != [] {
      SortSorted(s[1..]);
      InsertSorted(s[0], SortByRank(s[1..]));
    }
  }

  lemma {:induction false} InsertDistinct(x: Item, s: seq<Item>)
    requires DistinctIds(s) && forall y :: y in s ==> y.id != x.id
    ensures DistinctIds(Insert(x, s))
    decreases |s|
  {
    if s != [] && !RankLe(x, s[0]) {
      var t := Insert(x, s[1..]);
      assert forall y :: y in s[1..] ==> y in s;
      assert DistinctIds(s[1..]) by {
        forall i, j | 0 <= i < j < |s[1..]|
          ensures s[1..][i].id != s[1..][j].id
        {
          assert s[1..][i] == s[i + 1] && s[1..][j] == s[j + 1];
        }
      }
      InsertDistinct(x, s[1..]);
      forall y | y in t
        ensures y.id != s[0].id
      {
        assert y in multiset(t);
        if y != x {
          assert y in multiset(s[1..]);
          var k :| 0 <= k < |s[1..]| && s[1..][k] == y;
          assert s[k + 1] == y;
        }
      }
      ConsDistinct(s[0], t);
    } else if s != [] {
      ConsDistinct(x, s);
    }
  }

  /** A row whose id none of the rows after it has keeps the ids distinct. */
  lemma ConsDistinct(h: Item, t: seq<Item>)
    requires DistinctIds(t) && forall y :: y in t ==> y.id != h.id
    ensures DistinctIds([h] + t)
  {
    var r := [h] + t;
    forall i, j | 0 <= i < j < |r|
      ensures r[i].id != r[j].id
    {
      assert r[j] == t[j - 1];
      if i == 0 {
        assert t[j - 1] in t;
      } else {
        assert r[i] == t[i - 1];
      }
    }
  }

  lemma {:induction false} SortDistinct(s: seq<Item>)
    requires DistinctIds(s)
    ensures DistinctIds(SortByRank(s))
    decreases |s|
  {
    if s != [] {
      var t := SortByRank(s[1..]);
      SortDistinct(s[1..]);
      forall y | y in t
        ensures y.id != s[0].id
      {
        assert y in multiset(t);
        assert y in multiset(s[1..]);
        var k :| 0 <= k < |s[1..]| && s[1..][k] == y;
        assert s[k + 1] == y;
      }
      InsertDistinct(s[0], t);
    }
  }

  lemma {:induction false} WithStatusDistinct(items: seq<Item>, s: Status)
    requires DistinctIds(items)
    ensures DistinctIds(WithStatus(items, s))
    decreases |items|
  {
    if items != [] {
      WithStatusDistinct(items[1..], s);
      if items[0].status == s {
        var t := WithStatus(items[1..], s);
        var r := [items[0]] + t;
        forall i, j | 0 <= i < j < |r|
          ensures r[i].id != r[j].id
        {
          if i == 0 {
            assert r[j] == t[j - 1] && t[j - 1] in t;
            var k :| 0 <= k < |items[1..]| && items[1..][k] == r[j];
            assert items[k + 1] == r[j];
          } else {
            assert r[i] == t[i - 1] && r[j] == t[j - 1];
          }
        }
      }
    }
  }

  /** The batch of process_queue and the result of get_pending_items:
      `WHERE status = 'pending' ORDER BY priority DESC, created_at ASC
      LIMIT limit`. A limit of zero selects nothing, and so does a negative
      one, which MySQL rejects. */
  function Select(items: seq<Item>, limit: int): seq<Item> {
    var ranked := SortByRank(WithStatus(items, Pending));
    ranked[..Min(Max(limit, 0), |ranked|)]
  }

  /** The selection holds only pending rows of the table, as many as the
      limit allows, in the query's order, and no pending row left out ranks
      before a selected one. */
  lemma SelectSpec(items: seq<Item>, limit: int)
    ensures var r := Select(items, limit);
      |r| == Min(Max(limit, 0), StatsOf(items).pending)
      && (forall x :: x in r ==> x in items && x.status == Pending)
      && Sorted(r)
      && (forall x, j :: x in items && x.status == Pending && x !in r && 0 <= j < |r| ==> RankLe(r[j], x))
  {
    var pending := WithStatus(items, Pending);
    var ranked := SortByRank(pending);
    var r := Select(items, limit);
    SortSorted(pending);
    assert r == ranked[..|r|];
    forall x | x in r
      ensures x in items && x.status == Pending
    {
      assert x in multiset(ranked);
    }
    forall x, j | x in items && x.status == Pending && x !in r && 0 <= j < |r|
      ensures RankLe(r[j], x)
    {
      assert x in multiset(pending);
      assert x in multiset(ranked);
      var k :| 0 <= k < |ranked| && ranked[k] == x;
      PrefixMembers(ranked, |r|);
      assert |r| <= k;
      assert r[j] == ranked[j];
    }
  }

  lemma PrefixMembers(s: seq<Item>, n: nat)
    requires n <= |s|
    ensures forall k :: 0 <= k < n ==> s[k] in s[..n]
  {
    forall k | 0 <= k < n
      ensures s[k] in s[..n]
    {
      assert s[..n][k] == s[k];
    }
  }

  /** On a table without repeated ids the selection has none either. */
  lemma SelectDistinct(items: seq<Item>, limit: int)
    requires DistinctIds(items)
    ensures DistinctIds(Select(items, limit))
  {
    WithStatusDistinct(items, Pending);
    SortDistinct(WithStatus(items, Pending));
  }

  /** A table without pending rows gives an empty batch. */
  lemma NoPendingNoBatch(items: seq<Item>, limit: int)
    requires StatsOf(items).pending == 0
    ensures Select(items, limit) == []
  {
    SelectSpec(items, limit);
  }

  /** One more pending row of higher priority than a selected row is
      selected too: within one batch, priority beats age. */
  lemma HigherPriorityFirst(items: seq<Item>, limit: int, a: Item, b: Item)
    requires a in items && a.status == Pending
    requires b in Select(items, limit)
    requires a.priority > b.priority
    ensures a in Select(items, limit)
  {
    SelectSpec(items, limit);
    var r := Select(items, limit);
    var j :| 0 <= j < |r| && r[j] == b;
  }

  // ---------------------------------------------------------------------
  // status updates and a batch run

  /** `UPDATE ... SET status, processed_at WHERE id = id`. */
  function SetStatus(items: seq<Item>, id: int, status: Status, now: nat): (r: seq<Item>)
    ensures |r| == |items|
    ensures forall i :: 0 <= i < |items| ==>
      r[i] == if items[i].id == id then items[i].(status := status, processedAt := Some(now)) else items[i]
  {
    seq(|items|, i requires 0 <= i < |items| =>
      if items[i].id == id then items[i].(status := status, processedAt := Some(now)) else items[i])
  }

  /** A status update keeps ids and creation times. */
  lemma SetStatusKeepsOrder(items: seq<Item>, id: int, status: Status, now: nat, nextId: nat)
    requires RowsBefore(items, nextId, now) && IdsIncreasing(items)
    ensures RowsBefore(SetStatus(items, id, status, now), nextId, now)
    ensures IdsIncreasing(SetStatus(items, id, status, now))
  {
    var r := SetStatus(items, id, status, now);
    forall x | x in r
      ensures 1 <= x.id < nextId && x.createdAt <= now
    {
      var i :| 0 <= i < |r| && r[i] == x;
      assert items[i] in items;
    }
  }

  lemma IncreasingDistinct(items: seq<Item>)
    requires IdsIncreasing(items)
    ensures DistinctIds(items)
  {
  }

  /** The final status of a processed row. */
  function Verdict(generated: bool): Status {
    if generated then Completed else Failed
  }

  /** The table after process_queue has taken each row of `batch` through
      processing to its verdict; `generated(k)` is whether the k-th
      generate_image call of the run succeeded. */
  function Settle(items: seq<Item>, batch: seq<Item>, generated: nat -> bool, now: nat): seq<Item>
    decreases |batch|
  {
    if batch == [] then items
    else
      var k := |batch| - 1;
      var before := Settle(items, batch[..k], generated, now);
      SetStatus(SetStatus(before, batch[k].id, Processing, now), batch[k].id, Verdict(generated(k)), now)
  }

  /** After a batch run every selected row holds its verdict and its
      processing time, and every other row is as it was. */
  lemma {:induction false} SettleAt(items: seq<Item>, batch: seq<Item>, generated: nat -> bool, now: nat)
    requires DistinctIds(batch)
    ensures |Settle(items, batch, generated, now)| == |items|
    ensures forall i, k :: 0 <= i < |items| && 0 <= k < |batch| && items[i].id == batch[k].id ==>
      Settle(items, batch, generated, now)[i]
        == items[i].(status := Verdict(generated(k)), processedAt := Some(now))
    ensures forall i :: 0 <= i < |items| && (forall k :: 0 <= k < |batch| ==> batch[k].id != items[i].id) ==>
      Settle(items, batch, generated, now)[i] == items[i]
    decreases |batch|
  {
    if batch != [] {
      var n := |batch| - 1;
      var prefix := batch[..n];
      assert DistinctIds(prefix);
      SettleAt(items, prefix, generated, now);
      var before := Settle(items, prefix, generated, now);
      var after := Settle(items, batch, generated, now);
      assert after == SetStatus(SetStatus(before, batch[n].id, Processing, now), batch[n].id, Verdict(generated(n)), now);
      forall i, k | 0 <= i < |items| && 0 <= k < |batch| && items[i].id == batch[k].id
        ensures after[i] == items[i].(status := Verdict(generated(k)), processedAt := Some(now))
      {
        if k < n {
          assert prefix[k] == batch[k];
          assert batch[n].id != batch[k].id;
        } else {
          forall m | 0 <= m < |prefix|
            ensures prefix[m].id != items[i].id
          {
            assert prefix[m] == batch[m];
          }
        }
      }
      forall i | 0 <= i < |items| && (forall k :: 0 <= k < |batch| ==> batch[k].id != items[i].id)
        ensures after[i] == items[i]
      {
        forall m | 0 <= m < |prefix|
          ensures prefix[m].id != items[i].id
        {
          assert prefix[m] == batch[m];
        }
        assert batch[n].id != items[i].id;
      }
    }
  }

  /** A batch run only moves rows out of the active states, so it keeps the
      one-active-row-per-post rule. */
  lemma SettleKeepsOneActive(items: seq<Item>, batch: seq<Item>, generated: nat -> bool, now: nat)
    requires DistinctIds(batch) && OneActivePerPost(items)
    ensures OneActivePerPost(Settle(items, batch, generated, now))
  {
    SettleAt(items, batch, generated, now);
    var r := Settle(items, batch, generated, now);
    forall i | 0 <= i < |items|
      ensures IsActive(r[i].status) ==> r[i] == items[i]
    {
      if exists k :: 0 <= k < |batch| && batch[k].id == items[i].id {
        var k :| 0 <= k < |batch| && batch[k].id == items[i].id;
        assert !IsActive(r[i].status);
      }
    }
  }

  /** After the run, no selected row is pending or processing. */
  lemma SettleFinishes(items: seq<Item>, batch: seq<Item>, generated: nat -> bool, now: nat, i: nat)
    requires DistinctIds(batch)
    requires i < |items| && exists k :: 0 <= k < |batch| && batch[k].id == items[i].id
    ensures i < |Settle(items, batch, generated, now)|
    ensures !IsActive(Settle(items, batch, generated, now)[i].status)
  {
    SettleAt(items, batch, generated, now);
    var k :| 0 <= k < |batch| && batch[k].id == items[i].id;
  }

  // ---------------------------------------------------------------------
  // the completion email

  /** The counts the completion email reports. */
  datatype Notice = Notice(completed: nat, failed: nat)

  /** check_completion_notification with send_completion_notification: an
      email when nothing is pending or processing, the table is not empty
      and `fih_send_completion_email` is on. No "already notified" flag is
      consulted. */
  function CompletionNotice(items: seq<Item>, emailEnabled: bool): Option<Notice> {
    var st := StatsOf(items);
    if st.pending == 0 && st.processing == 0 && st.total > 0 && emailEnabled
    then Some(Notice(st.completed, st.failed))
    else None
  }

  /** When an email is due, the next batch is empty, so the run after the one
      that sent it sends nothing: one email per drain, unless rows are added. */
  lemma NoticeMeansDrained(items: seq<Item>, emailEnabled: bool, limit: int)
    requires CompletionNotice(items, emailEnabled).Some?
    ensures Select(items, limit) == []
    ensures var n := CompletionNotice(items, emailEnabled).value; n.completed + n.failed == |items|
  {
    NoPendingNoBatch(items, limit);
  }

  // ---------------------------------------------------------------------
  // the queue

  /** The default `$priority` of add_to_queue and add_bulk_to_queue. */
  const DefaultPriority: int := 0
  /** The default of the `fih_batch_size` option. */
  const DefaultBatchSize: int := 5
  /** The default `$limit` of get_pending_items. */
  const DefaultPendingLimit: int := 100

  class JobQueue {
    /** The rows of `fih_queue`, in insertion order. */
    var items: seq<Item>
    /** The table's `AUTO_INCREMENT`. */
    var nextId: nat
    /** `current_time('mysql')`, as a logical clock. */
    var now: nat
    /** The `fih_queue_paused` option. */
    var paused: bool

    /** Ids are assigned in increasing order below `nextId`, and no row was
        created in the future. */
    ghost predicate Valid()
      reads this
    {
      nextId >= 1 && RowsBefore(items, nextId, now) && IdsIncreasing(items)
    }

    /** The empty table the activator creates, with processing not paused. */
    constructor ()
      ensures Valid()
      ensures items == [] && nextId == 1 && now == 0 && !paused
    {
      items := [];
      nextId := 1;
      now := 0;
      paused := false;
    }

    /** Time passes. */
    method Tick(seconds: nat)
      requires Valid()
      modifies this`now
      ensures Valid() && now == old(now) + seconds
    {
      now := now + seconds;
    }

    /** FIH_Queue::add_to_queue: refused (false) when the post has an active
        row, otherwise one pending row with a fresh id. The check compares
        the id as given, the row stores its `absint`. */
    method AddToQueue(postId: int, priority: int) returns (id: Option<nat>)
      requires Valid()
      modifies this`items, this`nextId
      ensures Valid()
      ensures HasActive(old(items), postId) ==>
        id.None? && items == old(items) && nextId == old(nextId)
      ensures !HasActive(old(items), postId) ==>
        id == Some(old(nextId)) && nextId == old(nextId) + 1
        && items == old(items) + [Item(old(nextId), Absint(postId), Pending, Absint(priority), now, None)]
      ensures postId >= 0 && OneActivePerPost(old(items)) ==> OneActivePerPost(items)
      ensures ActivePosts(items)
           == ActivePosts(old(items)) + (if id.Some? then {Absint(postId) as int} else {})
    {
      if HasActive(items, postId) {
        return None;
      }
      var row := Item(nextId, Absint(postId), Pending, Absint(priority), now, None);
      ActivePostsAppend(items, row);
      if postId >= 0 && OneActivePerPost(items) {
        AppendKeepsOneActive(items, row);
      }
      items := items + [row];
      id := Some(nextId);
      nextId := nextId + 1;
    }

    /** FIH_Queue::add_bulk_to_queue: add_to_queue for each id in turn, and
        the number of ids it accepted. */
    method AddBulkToQueue(postIds: seq<int>, priority: int) returns (added: nat)
      requires Valid()
      modifies this`items, this`nextId
      ensures Valid()
      ensures added == Accepted(ActivePosts(old(items)), postIds)
      ensures nextId == old(nextId) + added
      ensures items == old(items)
        + QueuedRows(AcceptedPosts(ActivePosts(old(items)), postIds), old(nextId), Absint(priority), now)
      ensures ActivePosts(items) == ActivePosts(old(items)) + PostSet(AcceptedPosts(ActivePosts(old(items)), postIds))
      ensures (forall i :: 0 <= i < |postIds| ==> postIds[i] >= 0) && OneActivePerPost(old(items))
        ==> OneActivePerPost(items)
    {
      added := 0;
      var i := 0;
      ghost var start, firstId := items, nextId;
      ghost var keepsRule := (forall k :: 0 <= k < |postIds| ==> postIds[k] >= 0) && OneActivePerPost(start);
      ghost var taken: seq<nat> := [];
      ghost var all := AcceptedPosts(ActivePosts(start), postIds);
      assert postIds[0..] == postIds;
      while i < |postIds|
        invariant Valid()
        invariant BulkProgress(start, firstId, all, postIds, i, Absint(priority), now, taken, items, nextId)
        invariant added == |taken|
        invariant keepsRule ==> OneActivePerPost(items)
      {
        assert keepsRule ==> postIds[i] >= 0;
        ghost var before, rowId := items, nextId;
        var id := AddToQueue(postIds[i], priority);
        BulkProgressStep(start, firstId, all, postIds, i, Absint(priority), now, taken, before, rowId,
          id.Some?, items, nextId);
        if id.Some? {
          taken := taken + [Absint(postIds[i])];
          added := added + 1;
        }
        i := i + 1;
      }
      assert postIds[i..] == [];
      assert all == taken;
    }

    /** FIH_Queue::update_status: the row with that id, if any, gets the
        status and the current time; it reports success whether or not a
        row matched. */
    method UpdateStatus(id: int, status: Status) returns (ok: bool)
      requires Valid()
      modifies this`items
      ensures Valid() && ok
      ensures items == SetStatus(old(items), id, status, now)
    {
      SetStatusKeepsOrder(items, id, status, now, nextId);
      items := SetStatus(items, id, status, now);
      ok := true;
    }

    /** FIH_Queue::process_queue. Does nothing when no row is pending;
        otherwise takes each row of the batch to processing and then to
        completed or failed, and checks for the completion email. The pause
        flag is not read. */
    method ProcessQueue(batchSize: int, generated: nat -> bool, emailEnabled: bool)
      returns (notice: Option<Notice>)
      requires Valid()
      modifies this`items
      ensures Valid()
      ensures var batch := Select(old(items), batchSize);
        items == Settle(old(items), batch, generated, now)
        && notice == (if batch == [] then None else CompletionNotice(items, emailEnabled))
      ensures OneActivePerPost(old(items)) ==> OneActivePerPost(items)
    {
      var batch := GetPendingItems(batchSize);
      if batch == [] {
        return None;
      }
      IncreasingDistinct(items);
      SelectDistinct(items, batchSize);
      RunBatch(batch, generated);
      notice := CheckCompletionNotification(emailEnabled);
    }

    /** The loop of process_queue: each row of the batch goes to processing
        before its generate_image call and to its verdict after it. */
    method RunBatch(batch: seq<Item>, generated: nat -> bool)
      requires Valid() && DistinctIds(batch)
      modifies this`items
      ensures Valid()
      ensures items == Settle(old(items), batch, generated, now)
      ensures OneActivePerPost(old(items)) ==> OneActivePerPost(items)
    {
      ghost var start := items;
      var k := 0;
      while k < |batch|
        invariant 0 <= k <= |batch|
        invariant Valid()
        invariant items == Settle(start, batch[..k], generated, now)
      {
        assert batch[..k + 1][..k] == batch[..k];
        var _ := UpdateStatus(batch[k].id, Processing);
        var result := generated(k);
        var _ := UpdateStatus(batch[k].id, Verdict(result));
        k := k + 1;
      }
      assert batch[..|batch|] == batch;
      if OneActivePerPost(start) {
        SettleKeepsOneActive(start, batch, generated, now);
      }
    }

    /** FIH_Queue::get_stats. */
    method GetStats() returns (stats: Stats)
      ensures stats == StatsOf(items)
      ensures stats.total == |items|
      ensures stats.pending + stats.processing + stats.completed + stats.failed == stats.total
    {
      stats := StatsOf(items);
    }

    /** FIH_Queue::clear_processed: deletes the completed and failed rows and
        returns how many went. */
    method ClearProcessed() returns (deleted: nat)
      requires Valid()
      modifies this`items
      ensures Valid()
      ensures items == ActiveRows(old(items))
      ensures deleted == StatsOf(old(items)).completed + StatsOf(old(items)).failed
      ensures StatsOf(items) == StatsOf(old(items)).(completed := 0, failed := 0,
                                  total := StatsOf(old(items)).pending + StatsOf(old(items)).processing)
    {
      var before := StatsOf(items);
      ActiveRowsInOrder(items);
      items := ActiveRows(items);
      deleted := before.completed + before.failed;
    }

    /** FIH_Queue::pause. */
    method Pause() returns (ok: bool)
      modifies this`paused
      ensures paused && ok
    {
      paused := true;
      ok := true;
    }

    /** FIH_Queue::resume. */
    method Resume() returns (ok: bool)
      modifies this`paused
      ensures !paused && ok
    {
      paused := false;
      ok := true;
    }

    /** FIH_Queue::is_paused. */
    method IsPaused() returns (p: bool)
      ensures p == paused
    {
      p := paused;
    }

    /** FIH_Queue::get_pending_items, also the batch query of process_queue. */
    method GetPendingItems(limit: int) returns (batch: seq<Item>)
      ensures batch == Select(items, limit)
      ensures |batch| == Min(Max(limit, 0), StatsOf(items).pending)
      ensures forall x :: x in batch ==> x in items && x.status == Pending
      ensures forall i, j :: 0 <= i < j < |batch| ==>
        batch[i].priority > batch[j].priority
        || (batch[i].priority == batch[j].priority && batch[i].createdAt <= batch[j].createdAt)
    {
      SelectSpec(items, limit);
      batch := Select(items, limit);
    }

    /** FIH_Queue::remove_item: deletes the row with that id, if any. */
    method RemoveItem(id: int) returns (ok: bool)
      requires Valid()
      modifies this`items
      ensures Valid() && ok
      ensures items == WithoutId(old(items), id)
      ensures OneActivePerPost(old(items)) ==> OneActivePerPost(items)
    {
      WithoutIdInOrder(items, id);
      items := WithoutId(items, id);
      ok := true;
    }

    /** FIH_Queue::clear_queue: `TRUNCATE`, which also resets the ids. */
    method ClearQueue() returns (ok: bool)
      requires Valid()
      modifies this`items, this`nextId
      ensures Valid() && ok
      ensures items == [] && nextId == 1
    {
      items := [];
      nextId := 1;
      ok := true;
    }

    /** FIH_Queue::check_completion_notification: the email it sends, if any. */
    method CheckCompletionNotification(emailEnabled: bool) returns (notice: Option<Notice>)
      ensures notice == CompletionNotice(items, emailEnabled)
      ensures notice.Some? <==>
        emailEnabled && |items| > 0 && forall x :: x in items ==> !IsActive(x.status)
    {
      notice := CompletionNotice(items, emailEnabled);
      NoActiveIff(items);
    }
  }

  /** The same post three times on a new queue: one row, one count. */
  method SamePostThriceOnNewQueue() returns (added: nat)
    ensures added == 1
  {
    var q := new JobQueue();
    assert ActivePosts([]) == {};
    added := q.AddBulkToQueue([7, 7, 7], DefaultPriority);
    SamePostThrice();
  }

  /** Two scheduled runs with nothing enqueued between them: when the first
      sends the completion email, the second finds no pending row, changes
      nothing and sends none. */
  method TwoRuns(q: JobQueue, batchSize: int, generated: nat -> bool, emailEnabled: bool)
    returns (first: Option<Notice>, second: Option<Notice>)
    requires q.Valid()
    modifies q`items
    ensures q.Valid()
    ensures first.Some? ==> second.None?
  {
    first := q.ProcessQueue(batchSize, generated, emailEnabled);
    if first.Some? {
      NoticeMeansDrained(q.items, emailEnabled, batchSize);
    }
    second := q.ProcessQueue(batchSize, generated, emailEnabled);
  }

  /** No pending and no processing rows means no active row at all. */
  lemma NoActiveIff(items: seq<Item>)
    ensures (StatsOf(items).pending == 0 && StatsOf(items).processing == 0)
        <==> forall x :: x in items ==> !IsActive(x.status)
  {
    if forall x :: x in items ==> !IsActive(x.status) {
      WithStatusEmpty(items, Pending);
      WithStatusEmpty(items, Processing);
    }
    forall x | x in items && IsActive(x.status)
      ensures x in WithStatus(items, Pending) || x in WithStatus(items, Processing)
    {
    }
  }

  /** No row with the status means no rows selected for it. */
  lemma {:induction false} WithStatusEmpty(items: seq<Item>, s: Status)
    requires forall x :: x in items ==> x.status != s
    ensures WithStatus(items, s) == []
    decreases |items|
  {
    if items != [] {
      assert forall x :: x in items[1..] ==> x in items;
      WithStatusEmpty(items[1..], s);
    }
  }

  /** The rows after the first keep the one-active-row-per-post rule, and
      none of their active rows shares an active first row's post. */
  lemma TailKeepsOneActive(items: seq<Item>)
    requires items != [] && OneActivePerPost(items)
    ensures OneActivePerPost(items[1..])
    ensures IsActive(items[0].status) ==>
      forall y :: y in items[1..] && IsActive(y.status) ==> y.postId != items[0].postId
  {
    var t := items[1..];
    forall i, j | 0 <= i < j < |t| && IsActive(t[i].status) && IsActive(t[j].status)
      ensures t[i].postId != t[j].postId
    {
      assert t[i] == items[i + 1] && t[j] == items[j + 1];
    }
    forall y | y in t && IsActive(y.status) && IsActive(items[0].status)
      ensures y.postId != items[0].postId
    {
      var k :| 0 <= k < |t| && t[k] == y;
      assert items[k + 1] == y;
    }
  }

  /** The rows after the first all have larger ids. */
  lemma TailIdsLarger(items: seq<Item>)
    requires items != [] && IdsIncreasing(items)
    ensures forall y :: y in items[1..] ==> y.id > items[0].id
  {
    forall y | y in items[1..]
      ensures y.id > items[0].id
    {
      var k :| 0 <= k < |items[1..]| && items[1..][k] == y;
      assert items[k + 1] == y;
    }
  }

  /** A first row followed by a filtered tail whose rows all come after it
      in id, and do not share its post when both are active. */
  lemma ConsKeeps(x: Item, t: seq<Item>)
    requires IdsIncreasing(t)
    requires forall y :: y in t ==> y.id > x.id
    requires OneActivePerPost(t)
    requires IsActive(x.status) ==> forall y :: y in t && IsActive(y.status) ==> y.postId != x.postId
    ensures IdsIncreasing([x] + t) && OneActivePerPost([x] + t)
  {
    var r := [x] + t;
    forall i, j | 0 <= i < j < |r|
      ensures r[i].id < r[j].id
      ensures IsActive(r[i].status) && IsActive(r[j].status) ==> r[i].postId != r[j].postId
    {
      if i == 0 {
        assert r[j] == t[j - 1] && t[j - 1] in t;
      } else {
        assert r[i] == t[i - 1] && r[j] == t[j - 1];
      }
    }
  }

  /** Keeping the active rows keeps ids increasing and the one-active-row
      rule. */
  lemma {:induction false} ActiveRowsInOrder(items: seq<Item>)
    requires IdsIncreasing(items)
    ensures IdsIncreasing(ActiveRows(items))
    ensures OneActivePerPost(items) ==> OneActivePerPost(ActiveRows(items))
    decreases |items|
  {
    if items != [] {
      ActiveRowsInOrder(items[1..]);
      TailIdsLarger(items);
      var t := ActiveRows(items[1..]);
      if OneActivePerPost(items) {
        TailKeepsOneActive(items);
        ActiveRowsInOrder(items[1..]);
      }
      if IsActive(items[0].status) {
        if OneActivePerPost(items) {
          ConsKeeps(items[0], t);
        } else {
          IdsCons(items[0], t);
        }
      }
    }
  }

  /** Keeping the rows without a given id keeps ids increasing and the
      one-active-row rule. */
  lemma {:induction false} WithoutIdInOrder(items: seq<Item>, id: int)
    requires IdsIncreasing(items)
    ensures IdsIncreasing(WithoutId(items, id))
    ensures OneActivePerPost(items) ==> OneActivePerPost(WithoutId(items, id))
    decreases |items|
  {
    if items != [] {
      WithoutIdInOrder(items[1..], id);
      TailIdsLarger(items);
      var t := WithoutId(items[1..], id);
      if OneActivePerPost(items) {
        TailKeepsOneActive(items);
      }
      if items[0].id != id {
        if OneActivePerPost(items) {
          ConsKeeps(items[0], t);
        } else {
          IdsCons(items[0], t);
        }
      }
    }
  }

  lemma IdsCons(x: Item, t: seq<Item>)
    requires IdsIncreasing(t)
    requires forall y :: y in t ==> y.id > x.id
    ensures IdsIncreasing([x] + t)
  {
    var r := [x] + t;
    forall i, j | 0 <= i < j < |r|
      ensures r[i].id < r[j].id
    {
      if i == 0 {
        assert r[j] == t[j - 1] && t[j - 1] in t;
      } else {
        assert r[i] == t[i - 1] && r[j] == t[j - 1];
      }
    }
  }
}
