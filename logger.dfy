/**
 * FIH_Logger: the `fih_logs` table. Generation attempts are logged only
 * with debug logging on and the table is then cut back to the newest
 * `max_logs` rows; API events are always logged and never cut back; a daily
 * job deletes rows older than the retention period.
 *
 * The table is a sequence of rows in insertion order, `AUTO_INCREMENT` the
 * field `nextId`, and `current_time('mysql')` and MySQL's `NOW()` one
 * logical clock `now`, in seconds, that only the environment advances.
 */
module Logging {
  import opened Wrappers
  import opened WordPress

  /** A row of `fih_logs`. `generationTime` stands for the float the caller
      measured; the logger only stores it. */
  datatype LogRow = LogRow(
    id: nat,
    postId: nat,
    prompt: string,
    status: string,
    errorMessage: string,
    generationTime: nat,
    createdAt: nat)

  /** `$max_logs`. */
  const MaxLogs: nat := 3
  const SecondsPerDay: nat := 86400
  /** The default of the `fih_log_retention_days` option. */
  const DefaultRetentionDays: int := 7
  /** The default `$limit` of get_logs. */
  const DefaultLogLimit: int := 3
  /** The default `$status` of log_api_event. */
  const DefaultApiEventStatus := "info"

  function Min(a: int, b: int): int {
    if a < b then a else b
  }

  function Max(a: int, b: int): int {
    if a < b then b else a
  }

  /** Every id is below the next one to be assigned, and no row was created
      after `now`. */
  predicate RowsBefore(rows: seq<LogRow>, nextId: nat, now: nat) {
    forall x :: x in rows ==> 1 <= x.id < nextId && x.createdAt <= now
  }

  /** Rows appear in the order they were inserted: increasing ids, and
      creation times that never go back. */
  predicate Chronological(rows: seq<LogRow>) {
    forall i, j :: 0 <= i < j < |rows| ==> rows[i].id < rows[j].id && rows[i].createdAt <= rows[j].createdAt
  }

  // ---------------------------------------------------------------------
  // the rolling window of log

  /** The last `n` rows: what is left after limit_logs deletes the oldest
      `count - n` of them. */
  function Newest(rows: seq<LogRow>, n: nat): seq<LogRow> {
    if |rows| > n then rows[|rows| - n..] else rows
  }

  /** Cutting back after every insert keeps the same rows as cutting back
      once at the end: the table is always the newest rows ever logged. */
  lemma RollingWindow(rows: seq<LogRow>, x: LogRow, n: nat)
    requires n >= 1
    ensures Newest(Newest(rows, n) + [x], n) == Newest(rows + [x], n)
  {
    if |rows| > n {
      var kept := rows[|rows| - n..];
      assert |kept + [x]| == n + 1;
      assert (kept + [x])[1..] == rows[|rows| - n + 1..] + [x];
      assert (rows + [x])[|rows| + 1 - n..] == rows[|rows| - n + 1..] + [x];
    }
  }

  /** The window of a chronological table keeps its newest rows: every
      evicted row is at least as old as every kept one. */
  lemma OldestEvictedFirst(rows: seq<LogRow>, n: nat)
    requires Chronological(rows)
    ensures var kept := Newest(rows, n);
      |kept| == Min(|rows|, n) && kept == rows[|rows| - |kept|..]
      && forall i, j :: 0 <= i < |rows| - |kept| <= j < |rows| ==> rows[i].createdAt <= rows[j].createdAt
  {
  }

  // ---------------------------------------------------------------------
  // queries

  /** The rows newest first. */
  function Reverse(rows: seq<LogRow>): (r: seq<LogRow>)
    ensures |r| == |rows|
    ensures forall i :: 0 <= i < |rows| ==> r[i] == rows[|rows| - 1 - i]
  {
    if rows == [] then [] else [rows[|rows| - 1]] + Reverse(rows[..|rows| - 1])
  }

  /** The rows of one post, in table order. */
  function ForPost(rows: seq<LogRow>, postId: int): (r: seq<LogRow>)
    ensures forall x :: x in r <==> x in rows && x.postId == postId
    ensures forall x :: multiset(r)[x] == if x.postId == postId then multiset(rows)[x] else 0
  {
    if rows == [] then []
    else
      assert rows == [rows[0]] + rows[1..];
      if rows[0].postId == postId then [rows[0]] + ForPost(rows[1..], postId)
      else ForPost(rows[1..], postId)
  }

  /** Filtering keeps the table's order. */
  lemma {:induction false} ForPostChronological(rows: seq<LogRow>, postId: int)
    requires Chronological(rows)
    ensures Chronological(ForPost(rows, postId))
    decreases |rows|
  {
    if rows != [] {
      SuffixChronological(rows, 1);
      ForPostChronological(rows[1..], postId);
      if rows[0].postId == postId {
        HeadPrecedes(rows);
        ConsChronological(rows[0], ForPost(rows[1..], postId));
      }
    }
  }

  lemma HeadPrecedes(rows: seq<LogRow>)
    requires Chronological(rows) && rows != []
    ensures forall x :: x in rows[1..] ==> rows[0].id < x.id && rows[0].createdAt <= x.createdAt
  {
    forall x | x in rows[1..]
      ensures rows[0].id < x.id && rows[0].createdAt <= x.createdAt
    {
      var k :| 0 <= k < |rows[1..]| && rows[1..][k] == x;
      assert rows[k + 1] == x;
    }
  }

  lemma ConsChronological(h: LogRow, rest: seq<LogRow>)
    requires Chronological(rest)
    requires forall x :: x in rest ==> h.id < x.id && h.createdAt <= x.createdAt
    ensures Chronological([h] + rest)
  {
    var r := [h] + rest;
    forall i, j | 0 <= i < j < |r|
      ensures r[i].id < r[j].id && r[i].createdAt <= r[j].createdAt
    {
      assert r[j] == rest[j - 1];
      if i > 0 {
        assert r[i] == rest[i - 1];
      }
    }
  }

  /** Reversal keeps every row as many times as it occurs. */
  lemma {:induction false} ReversePermutes(rows: seq<LogRow>)
    ensures multiset(Reverse(rows)) == multiset(rows)
  {
    if rows != [] {
      var init := rows[..|rows| - 1];
      ReversePermutes(init);
      assert rows == init + [rows[|rows| - 1]];
    }
  }

  /** Reversal keeps the rows, and turns a chronological table newest first. */
  lemma ReverseKeepsRows(rows: seq<LogRow>)
    ensures forall x :: x in Reverse(rows) <==> x in rows
    ensures Chronological(rows) ==>
      forall i, j :: 0 <= i < j < |rows| ==> Reverse(rows)[i].createdAt >= Reverse(rows)[j].createdAt
  {
    var r := Reverse(rows);
    forall x | x in r
      ensures x in rows
    {
      var k :| 0 <= k < |r| && r[k] == x;
      assert rows[|rows| - 1 - k] == x;
    }
    forall x | x in rows
      ensures x in r
    {
      var k :| 0 <= k < |rows| && rows[k] == x;
      assert r[|rows| - 1 - k] == x;
    }
  }

  /** The row with the given id, if there is one. */
  function FindId(rows: seq<LogRow>, id: int): (r: Option<LogRow>)
    ensures r.Some? ==> r.value in rows && r.value.id == id
    ensures r.None? ==> forall x :: x in rows ==> x.id != id
  {
    if rows == [] then None
    else if rows[0].id == id then Some(rows[0])
    else FindId(rows[1..], id)
  }

  /** The rows created at or after the cutoff. */
  function Since(rows: seq<LogRow>, cutoff: int): (r: seq<LogRow>)
    ensures forall x :: x in r <==> x in rows && x.createdAt >= cutoff
  {
    if rows == [] then []
    else if rows[0].createdAt >= cutoff then [rows[0]] + Since(rows[1..], cutoff)
    else Since(rows[1..], cutoff)
  }

  /** On a chronological table the rows the age cleanup keeps are a suffix:
      it deletes the oldest rows and nothing else. */
  lemma {:induction false} SinceIsSuffix(rows: seq<LogRow>, cutoff: int) returns (m: nat)
    requires Chronological(rows)
    ensures m <= |rows| && Since(rows, cutoff) == rows[m..]
    ensures forall i :: 0 <= i < m ==> rows[i].createdAt < cutoff
    decreases |rows|
  {
    if rows == [] {
      m := 0;
    } else if rows[0].createdAt >= cutoff {
      AllSince(rows, cutoff);
      m := 0;
    } else {
      var t := rows[1..];
      assert Chronological(t) by {
        forall i, j | 0 <= i < j < |t| ensures t[i].id < t[j].id && t[i].createdAt <= t[j].createdAt {
          assert t[i] == rows[i + 1] && t[j] == rows[j + 1];
        }
      }
      var k := SinceIsSuffix(t, cutoff);
      m := k + 1;
      assert t[k..] == rows[m..];
    }
  }

  lemma {:induction false} AllSince(rows: seq<LogRow>, cutoff: int)
    requires Chronological(rows) && rows != [] && rows[0].createdAt >= cutoff
    ensures Since(rows, cutoff) == rows
    decreases |rows|
  {
    var t := rows[1..];
    if t != [] {
      assert t[0] == rows[1];
      assert Chronological(t) by {
        forall i, j | 0 <= i < j < |t| ensures t[i].id < t[j].id && t[i].createdAt <= t[j].createdAt {
          assert t[i] == rows[i + 1] && t[j] == rows[j + 1];
        }
      }
      AllSince(t, cutoff);
    }
    assert [rows[0]] + t == rows;
  }

  lemma SuffixChronological(rows: seq<LogRow>, m: nat)
    requires Chronological(rows) && m <= |rows|
    ensures Chronological(rows[m..])
  {
    var t := rows[m..];
    forall i, j | 0 <= i < j < |t|
      ensures t[i].id < t[j].id && t[i].createdAt <= t[j].createdAt
    {
      assert t[i] == rows[m + i] && t[j] == rows[m + j];
    }
  }

  lemma SuffixBefore(rows: seq<LogRow>, m: nat, nextId: nat, now: nat)
    requires RowsBefore(rows, nextId, now) && m <= |rows|
    ensures RowsBefore(rows[m..], nextId, now)
  {
    forall x | x in rows[m..]
      ensures x in rows
    {
      var k :| 0 <= k < |rows[m..]| && rows[m..][k] == x;
      assert rows[m + k] == x;
    }
  }

  // ---------------------------------------------------------------------
  // the logger

  class Logger {
    /** The rows of `fih_logs`, in insertion order. */
    var rows: seq<LogRow>
    /** The table's `AUTO_INCREMENT`. */
    var nextId: nat
    /** The clock, in seconds. */
    var now: nat

    ghost predicate Valid()
      reads this
    {
      nextId >= 1 && RowsBefore(rows, nextId, now) && Chronological(rows)
    }

    /** The empty table the activator creates. */
    constructor ()
      ensures Valid()
      ensures rows == [] && nextId == 1 && now == 0
    {
      rows := [];
      nextId := 1;
      now := 0;
    }

    /** Time passes. */
    method Tick(seconds: nat)
      requires Valid()
      modifies this`now
      ensures Valid() && now == old(now) + seconds
    {
      now := now + seconds;
    }

    /** Appends a row stamped with the next id and the current time. */
    method Insert(postId: nat, prompt: string, status: string, errorMessage: string, generationTime: nat)
      returns (id: nat)
      requires Valid()
      modifies this`rows, this`nextId
      ensures Valid()
      ensures id == old(nextId) && nextId == old(nextId) + 1
      ensures rows == old(rows) + [LogRow(id, postId, prompt, status, errorMessage, generationTime, now)]
    {
      var row := LogRow(nextId, postId, prompt, status, errorMessage, generationTime, now);
      assert forall i :: 0 <= i < |rows| ==> rows[i] in rows;
      rows := rows + [row];
      id := nextId;
      nextId := nextId + 1;
    }

    /** FIH_Logger::log: nothing unless `fih_debug_logging_enabled` is on;
        then one row, after which the table is cut back to the newest
        `max_logs` rows. */
    method Log(debugEnabled: bool, postId: int, prompt: string, status: string, errorMessage: string,
               generationTime: nat, fmt: Formatting)
      returns (id: Option<nat>)
      requires Valid()
      modifies this`rows, this`nextId
      ensures Valid()
      ensures !debugEnabled ==> id.None? && rows == old(rows) && nextId == old(nextId)
      ensures debugEnabled ==>
        id == Some(old(nextId)) && nextId == old(nextId) + 1
        && rows == Newest(old(rows) + [LogRow(old(nextId), Absint(postId), fmt.sanitizeTextarea(prompt),
                                              fmt.sanitizeTextField(status), fmt.sanitizeTextarea(errorMessage),
                                              generationTime, now)], MaxLogs)
        && 1 <= |rows| <= MaxLogs && rows[|rows| - 1].id == old(nextId)
    {
      if !debugEnabled {
        return None;
      }
      var inserted := Insert(Absint(postId), fmt.sanitizeTextarea(prompt), fmt.sanitizeTextField(status),
                             fmt.sanitizeTextarea(errorMessage), generationTime);
      LimitLogs();
      id := Some(inserted);
    }

    /** FIH_Logger::limit_logs: with more than `max_logs` rows, deletes the
        `count - max_logs` oldest. */
    method LimitLogs()
      requires Valid()
      modifies this`rows
      ensures Valid()
      ensures rows == Newest(old(rows), MaxLogs)
      ensures |old(rows)| > MaxLogs ==> |old(rows)| - |rows| == |old(rows)| - MaxLogs
      ensures |old(rows)| <= MaxLogs ==> rows == old(rows)
      ensures forall i, j :: 0 <= i < |old(rows)| - |rows| <= j < |old(rows)| ==>
        old(rows)[i].createdAt <= old(rows)[j].createdAt
    {
      var count := |rows|;
      if count > MaxLogs {
        var deleteCount := count - MaxLogs;
        SuffixChronological(rows, deleteCount);
        SuffixBefore(rows, deleteCount, nextId, now);
        rows := rows[deleteCount..];
      }
    }

    /** FIH_Logger::get_logs: the newest `limit` rows, newest first. */
    method GetLogs(limit: int) returns (r: seq<LogRow>)
      requires Valid()
      ensures |r| == Min(Max(limit, 0), |rows|)
      ensures forall i :: 0 <= i < |r| ==> r[i] == rows[|rows| - 1 - i]
      ensures forall i, j :: 0 <= i < j < |r| ==> r[i].createdAt >= r[j].createdAt
    {
      var newestFirst := Reverse(rows);
      ReverseKeepsRows(rows);
      r := newestFirst[..Min(Max(limit, 0), |rows|)];
    }

    /** FIH_Logger::clear_logs: `TRUNCATE`, which also resets the ids. */
    method ClearLogs() returns (ok: bool)
      requires Valid()
      modifies this`rows, this`nextId
      ensures Valid() && ok
      ensures rows == [] && nextId == 1
    {
      rows := [];
      nextId := 1;
      ok := true;
    }

    /** FIH_Logger::cleanup_old_logs: deletes the rows created before
        `now` minus the retention period, given in days by the
        `fih_log_retention_days` option (7 when unset). */
    method CleanupOldLogs(retentionOption: Option<int>)
      requires Valid()
      modifies this`rows
      ensures Valid()
      ensures var cutoff := now - retentionOption.GetOr(DefaultRetentionDays) * SecondsPerDay;
        rows == Since(old(rows), cutoff)
        && (forall x :: x in old(rows) ==> (x in rows <==> x.createdAt >= cutoff))
        && exists m :: 0 <= m <= |old(rows)| && rows == old(rows)[m..]
    {
      var retentionDays := retentionOption.GetOr(DefaultRetentionDays);
      var cutoff := now - retentionDays * SecondsPerDay;
      var m := SinceIsSuffix(rows, cutoff);
      SuffixChronological(rows, m);
      SuffixBefore(rows, m, nextId, now);
      rows := Since(rows, cutoff);
    }

    /** FIH_Logger::get_log: the row with that id, or null. */
    method GetLog(id: int) returns (r: Option<LogRow>)
      ensures r.Some? ==> r.value in rows && r.value.id == id
      ensures r.None? <==> forall x :: x in rows ==> x.id != id
    {
      r := FindId(rows, id);
    }

    /** FIH_Logger::get_logs_by_post: every row of the post, newest first. */
    method GetLogsByPost(postId: int) returns (r: seq<LogRow>)
      requires Valid()
      ensures forall x :: x in r <==> x in rows && x.postId == postId
      ensures forall x :: multiset(r)[x] == if x.postId == postId then multiset(rows)[x] else 0
      ensures forall i, j :: 0 <= i < j < |r| ==> r[i].createdAt >= r[j].createdAt
    {
      var own := ForPost(rows, postId);
      ForPostChronological(rows, postId);
      ReverseKeepsRows(own);
      ReversePermutes(own);
      r := Reverse(own);
    }

    /** FIH_Logger::log_api_event: always one row for post 0, with the event
        type as the prompt and a time of 0; the table is not cut back. */
    method LogApiEvent(eventType: string, message: string, status: string, fmt: Formatting)
      returns (id: nat)
      requires Valid()
      modifies this`rows, this`nextId
      ensures Valid()
      ensures id == old(nextId) && nextId == old(nextId) + 1
      ensures rows == old(rows) + [LogRow(id, 0, fmt.sanitizeTextField(eventType), fmt.sanitizeTextField(status),
                                          fmt.sanitizeTextarea(message), 0, now)]
    {
      id := Insert(0, fmt.sanitizeTextField(eventType), fmt.sanitizeTextField(status),
                   fmt.sanitizeTextarea(message), 0);
    }
  }

  /** A full window followed by an API event: four rows until the next
      generation log cuts the table back to three. */
  method ApiEventAfterFullWindow(fmt: Formatting) returns (afterEvent: nat, afterLog: nat)
    ensures afterEvent == 4 && afterLog == 3
  {
    var logger := new Logger();
    var _ := logger.Log(true, 1, "a", "success", "", 0, fmt);
    var _ := logger.Log(true, 2, "b", "success", "", 0, fmt);
    var _ := logger.Log(true, 3, "c", "success", "", 0, fmt);
    var _ := logger.LogApiEvent("api_test", "ok", "success", fmt);
    afterEvent := |logger.rows|;
    var _ := logger.Log(true, 4, "d", "success", "", 0, fmt);
    afterLog := |logger.rows|;
  }
}
