/**
 * The dashboard view of the server (`logs_dashboard`): an optional,
 * case-insensitive username search over all log rows, a group-by on
 * (username, pc_name) that counts rows and keeps the latest timestamp, and
 * the list of per-user summaries handed to the template.
 */
module Dashboard {
  import opened Common
  import opened Text
  import opened Logs

  /** The grouping key `(log["username"], log["pc_name"])`. */
  datatype Key = Key(username: Option<string>, pcName: Option<string>)

  /** A value of the `summary` dictionary: `{"log_count": ..., "last_active": ...}`. */
  datatype Info = Info(logCount: nat, lastActive: Option<int>)

  /** One entry of the `users` list given to the template. */
  datatype UserSummary = UserSummary(username: Option<string>, pcName: Option<string>, logCount: nat, lastActive: int)

  /** What the `select("*")` query hands back: an error attribute and a data attribute. */
  datatype QueryResult = QueryResult(error: Option<string>, data: Option<seq<LogRow>>)

  /** The arguments of `render_template("logs.html", ...)`. */
  datatype Page = Page(users: seq<UserSummary>, search: string)

  function KeyOf(log: LogRow): Key {
    Key(log.username, log.pcName)
  }

  function UserKey(u: UserSummary): Key {
    Key(u.username, u.pcName)
  }

  // ---------------------------------------------------------------------------
  // The search filter
  // ---------------------------------------------------------------------------

  /** `search in (log.get("username") or "").lower()`; a null username reads as "". */
  predicate MatchesSearch(log: LogRow, search: string) {
    Contains(Lower(log.username.GetOr("")), search)
  }

  /** The list comprehension that keeps the rows matching `search`. */
  function FilterBySearch(data: seq<LogRow>, search: string): (kept: seq<LogRow>)
    ensures |kept| <= |data|
    ensures forall log :: log in kept ==> log in data && MatchesSearch(log, search)
  {
    if data == [] then []
    else (if MatchesSearch(data[0], search) then [data[0]] else []) + FilterBySearch(data[1..], search)
  }

  /** Every matching row is kept as often as it occurs; no other row is kept. */
  lemma {:induction false} FilterBySearchCounts(data: seq<LogRow>, search: string)
    ensures forall log :: multiset(FilterBySearch(data, search))[log]
                          == if MatchesSearch(log, search) then multiset(data)[log] else 0
  {
    if data != [] {
      FilterBySearchCounts(data[1..], search);
      assert data == [data[0]] + data[1..];
    }
  }

  /** The kept rows appear in the same relative order as in the input. */
  lemma {:induction false} FilterBySearchIsSubsequence(data: seq<LogRow>, search: string)
    ensures IsSubsequence(FilterBySearch(data, search), data)
  {
    if data != [] {
      FilterBySearchIsSubsequence(data[1..], search);
      var rest := FilterBySearch(data[1..], search);
      if MatchesSearch(data[0], search) {
        assert ([data[0]] + rest)[1..] == rest;
      } else {
        assert [] + rest == rest;
      }
    }
  }

  /** With an empty search string every row passes the filter. */
  lemma {:induction false} FilterByEmptySearchKeepsAll(data: seq<LogRow>)
    ensures FilterBySearch(data, "") == data
  {
    if data != [] {
      FilterByEmptySearchKeepsAll(data[1..]);
      assert data == [data[0]] + data[1..];
    }
  }

  /** The search string occurs somewhere in the row's lower-cased username ("" when null). */
  ghost predicate UsernameHasSubstring(log: LogRow, search: string) {
    exists i :: OccursAt(search, Lower(log.username.GetOr("")), i)
  }

  /**
   * A row is kept exactly when the (already lower-cased) search string occurs
   * in its lower-cased username, a null username counting as "".
   */
  lemma {:induction false} KeptIffSubstring(data: seq<LogRow>, search: string, log: LogRow)
    ensures log in FilterBySearch(data, search) <==> log in data && UsernameHasSubstring(log, search)
  {
    FilterBySearchCounts(data, search);
    ContainsIff(Lower(log.username.GetOr("")), search);
    var kept := FilterBySearch(data, search);
    assert log in kept <==> multiset(kept)[log] > 0;
    assert log in data <==> multiset(data)[log] > 0;
  }

  /** Lines 95 and 105-106: lower-case the `search` argument and filter only when it is non-empty. */
  function SearchedRows(searchArg: Option<string>, data: seq<LogRow>): (kept: seq<LogRow>)
    ensures |kept| <= |data|
    ensures forall log :: log in kept ==> log in data && MatchesSearch(log, Lower(searchArg.GetOr("")))
  {
    var search := Lower(searchArg.GetOr(""));
    if search != "" then FilterBySearch(data, search) else data
  }

  /** The `if search:` guard only skips work: filtering by "" would keep every row anyway. */
  lemma SearchedRowsIsFilter(searchArg: Option<string>, data: seq<LogRow>)
    ensures SearchedRows(searchArg, data) == FilterBySearch(data, Lower(searchArg.GetOr("")))
    ensures searchArg.GetOr("") == "" ==> SearchedRows(searchArg, data) == data
  {
    FilterByEmptySearchKeepsAll(data);
  }

  // ---------------------------------------------------------------------------
  // The group-by: what the summary of a list of rows must be
  // ---------------------------------------------------------------------------

  /** Some row has key `k`. */
  ghost predicate Occurs(rows: seq<LogRow>, k: Key) {
    exists j :: 0 <= j < |rows| && KeyOf(rows[j]) == k
  }

  /** `t` is the greatest timestamp among the rows with key `k`. */
  ghost predicate IsLatest(rows: seq<LogRow>, k: Key, t: int) {
    && (forall j :: 0 <= j < |rows| && KeyOf(rows[j]) == k ==> rows[j].timestamp <= t)
    && (exists j :: 0 <= j < |rows| && KeyOf(rows[j]) == k && rows[j].timestamp == t)
  }

  /** The number of rows with key `k`. */
  function CountKey(rows: seq<LogRow>, k: Key): nat {
    if rows == [] then 0
    else CountKey(rows[..|rows| - 1], k) + (if KeyOf(rows[|rows| - 1]) == k then 1 else 0)
  }

  /** The distinct keys of `rows`, in the order of their first occurrence. */
  function DistinctKeys(rows: seq<LogRow>): seq<Key> {
    if rows == [] then []
    else
      var earlier := DistinctKeys(rows[..|rows| - 1]);
      var k := KeyOf(rows[|rows| - 1]);
      if k in earlier then earlier else earlier + [k]
  }

  lemma OccursSnoc(rows: seq<LogRow>, log: LogRow, k: Key)
    ensures Occurs(rows + [log], k) <==> Occurs(rows, k) || KeyOf(log) == k
  {
    if Occurs(rows + [log], k) && KeyOf(log) != k {
      var j :| 0 <= j < |rows| + 1 && KeyOf((rows + [log])[j]) == k;
      assert KeyOf(rows[j]) == k;
    }
    if Occurs(rows, k) {
      var j :| 0 <= j < |rows| && KeyOf(rows[j]) == k;
      assert KeyOf((rows + [log])[j]) == k;
    }
    if KeyOf(log) == k {
      assert KeyOf((rows + [log])[|rows|]) == k;
    }
  }

  /** A key occurs exactly when at least one row is counted for it. */
  lemma {:induction false} CountKeyPositive(rows: seq<LogRow>, k: Key)
    ensures Occurs(rows, k) <==> CountKey(rows, k) >= 1
  {
    if rows != [] {
      var init := rows[..|rows| - 1];
      CountKeyPositive(init, k);
      assert rows == init + [rows[|rows| - 1]];
      OccursSnoc(init, rows[|rows| - 1], k);
    }
  }

  lemma {:induction false} DistinctKeysHas(rows: seq<LogRow>, k: Key)
    ensures k in DistinctKeys(rows) <==> Occurs(rows, k)
  {
    if rows != [] {
      var init := rows[..|rows| - 1];
      var last := rows[|rows| - 1];
      DistinctKeysHas(init, k);
      assert rows == init + [last];
      OccursSnoc(init, last, k);
    }
  }

  /** DistinctKeys lists every key that occurs, and each only once. */
  lemma {:induction false} DistinctKeysSpec(rows: seq<LogRow>)
    ensures NoDuplicates(DistinctKeys(rows))
    ensures forall k :: k in DistinctKeys(rows) <==> Occurs(rows, k)
  {
    if rows != [] {
      var init := rows[..|rows| - 1];
      var last := rows[|rows| - 1];
      DistinctKeysSpec(init);
      assert rows == init + [last];
      forall k
        ensures k in DistinctKeys(rows) <==> Occurs(rows, k)
      {
        DistinctKeysHas(rows, k);
      }
      DistinctKeysHas(init, KeyOf(last));
      OccursSnoc(init, last, KeyOf(last));
    }
  }

  /** Adding one row of key `KeyOf(log)` raises exactly that key's count by one. */
  lemma CountKeySnoc(rows: seq<LogRow>, log: LogRow, k: Key)
    ensures CountKey(rows + [log], k) == CountKey(rows, k) + (if KeyOf(log) == k then 1 else 0)
  {
    assert (rows + [log])[..|rows|] == rows;
  }

  lemma DistinctKeysSnoc(rows: seq<LogRow>, log: LogRow)
    ensures DistinctKeys(rows + [log])
            == if KeyOf(log) in DistinctKeys(rows) then DistinctKeys(rows) else DistinctKeys(rows) + [KeyOf(log)]
  {
    assert (rows + [log])[..|rows|] == rows;
  }

  /** How the latest timestamp of a key changes when one row is appended. */
  lemma LatestSnoc(rows: seq<LogRow>, log: LogRow, k: Key, t: Option<int>)
    requires t.Some? <==> Occurs(rows, k)
    requires t.Some? ==> IsLatest(rows, k, t.value)
    ensures KeyOf(log) != k && t.Some? ==> IsLatest(rows + [log], k, t.value)
    ensures KeyOf(log) == k ==>
              IsLatest(rows + [log], k,
                       if t.None? || log.timestamp > t.value then log.timestamp else t.value)
  {
    var rows' := rows + [log];
    assert forall j :: 0 <= j < |rows| ==> rows'[j] == rows[j];
    assert rows'[|rows|] == log;
    if t.Some? {
      var j :| 0 <= j < |rows| && KeyOf(rows[j]) == k && rows[j].timestamp == t.value;
      assert KeyOf(rows'[j]) == k && rows'[j].timestamp == t.value;
    } else {
      assert forall j :: 0 <= j < |rows| ==> KeyOf(rows[j]) != k;
    }
  }

  // ---------------------------------------------------------------------------
  // The group-by loop and the users list
  // ---------------------------------------------------------------------------

  /** The entry for `k` is right: present exactly when `k` occurs, with its count and latest timestamp. */
  ghost predicate IsExactFor(summary: map<Key, Info>, rows: seq<LogRow>, k: Key) {
    if k in summary then
      && Occurs(rows, k)
      && summary[k].logCount == CountKey(rows, k)
      && summary[k].lastActive.Some?
      && IsLatest(rows, k, summary[k].lastActive.value)
    else
      !Occurs(rows, k)
  }

  /** `summary` is the group-by of `rows`: the entry of every key is right. */
  ghost predicate IsSummaryOf(summary: map<Key, Info>, rows: seq<LogRow>) {
    forall k :: IsExactFor(summary, rows, k)
  }

  /** The value a loop iteration stores for the key of `log`, given the current summary. */
  ghost predicate IsBumped(summary: map<Key, Info>, log: LogRow, info: Info) {
    var current := if KeyOf(log) in summary then summary[KeyOf(log)] else Info(0, None);
    && info.logCount == current.logCount + 1
    && info.lastActive == if current.lastActive.None? || log.timestamp > current.lastActive.value
                          then Some(log.timestamp) else current.lastActive
  }

  lemma EntryStep(summary: map<Key, Info>, rows: seq<LogRow>, log: LogRow, info: Info, k: Key)
    requires IsExactFor(summary, rows, k)
    requires IsBumped(summary, log, info)
    ensures IsExactFor(summary[KeyOf(log) := info], rows + [log], k)
  {
    OccursSnoc(rows, log, k);
    CountKeySnoc(rows, log, k);
    CountKeyPositive(rows, k);
    LatestSnoc(rows, log, k, if k in summary then summary[k].lastActive else None);
  }

  /**
   * One iteration of the loop keeps the summary exact: the entry for the
   * row's key (starting from `{0, None}` when absent) counts one more row and
   * moves its latest timestamp up to the row's when the row is later.
   */
  lemma SummaryStep(summary: map<Key, Info>, rows: seq<LogRow>, log: LogRow, info: Info)
    requires IsSummaryOf(summary, rows)
    requires IsBumped(summary, log, info)
    ensures IsSummaryOf(summary[KeyOf(log) := info], rows + [log])
  {
    var updated, extended := summary[KeyOf(log) := info], rows + [log];
    forall k
      ensures IsExactFor(updated, extended, k)
    {
      EntryStep(summary, rows, log, info, k);
    }
  }

  /**
   * Lines 108-115: one pass over the rows. The first lookup of a key creates
   * its `defaultdict` entry (so `order` is the dictionary's insertion order);
   * each row increments its key's count and raises its latest timestamp.
   */
  method Summarize(data: seq<LogRow>) returns (summary: map<Key, Info>, order: seq<Key>)
    ensures order == DistinctKeys(data)
    ensures forall k :: k in summary <==> Occurs(data, k)
    ensures forall k :: k in summary ==> summary[k].logCount == CountKey(data, k)
    ensures forall k :: k in summary ==> summary[k].lastActive.Some? && IsLatest(data, k, summary[k].lastActive.value)
  {
    summary, order := map[], [];
    var i := 0;
    while i < |data|
      invariant 0 <= i <= |data|
      invariant order == DistinctKeys(data[..i])
      invariant IsSummaryOf(summary, data[..i])
    {
      var log := data[i];
      var key := KeyOf(log);
      ghost var done := data[..i];
      assert data[..i + 1] == done + [log];
      DistinctKeysHas(done, key);
      DistinctKeysSnoc(done, log);
      assert IsExactFor(summary, done, key);

      var info := if key in summary then summary[key] else Info(0, None);
      if key !in summary {
        order := order + [key];
      }
      info := info.(logCount := info.logCount + 1);
      var currentTs := log.timestamp;
      if info.lastActive.None? || currentTs > info.lastActive.value {
        info := info.(lastActive := Some(currentTs));
      }
      SummaryStep(summary, done, log, info);
      summary := summary[key := info];
      i := i + 1;
    }
    assert data[..i] == data;
    forall k
      ensures k in summary <==> Occurs(data, k)
      ensures k in summary ==> summary[k].logCount == CountKey(data, k)
      ensures k in summary ==> summary[k].lastActive.Some? && IsLatest(data, k, summary[k].lastActive.value)
    {
      assert IsExactFor(summary, data, k);
    }
  }

  /** The entry appended to `users` for one key of the summary. */
  function Entry(k: Key, info: Info): UserSummary
    requires info.lastActive.Some?
  {
    UserSummary(k.username, k.pcName, info.logCount, info.lastActive.value)
  }

  /**
   * Lines 117-124: one entry per dictionary item, in insertion order. The
   * requirement on `lastActive` is what line 123 relies on (`strftime` on
   * `None` would raise); Summarize establishes it.
   */
  method BuildUsers(summary: map<Key, Info>, order: seq<Key>) returns (users: seq<UserSummary>)
    requires forall k :: k in order ==> k in summary && summary[k].lastActive.Some?
    ensures |users| == |order|
    ensures forall i :: 0 <= i < |order| ==> users[i] == Entry(order[i], summary[order[i]])
  {
    users := [];
    for i := 0 to |order|
      invariant |users| == i
      invariant forall j :: 0 <= j < i ==> users[j] == Entry(order[j], summary[order[j]])
    {
      var k := order[i];
      var info := summary[k];
      users := users + [UserSummary(k.username, k.pcName, info.logCount, info.lastActive.value)];
    }
  }

  /** `users` is the summary of `rows`: one entry per distinct key, with its count and latest timestamp. */
  ghost predicate SummarizesRows(users: seq<UserSummary>, rows: seq<LogRow>) {
    var ks := DistinctKeys(rows);
    && |users| == |ks|
    && (forall i :: 0 <= i < |users| ==> UserKey(users[i]) == ks[i])
    && (forall i :: 0 <= i < |users| ==> users[i].logCount == CountKey(rows, ks[i]))
    && (forall i :: 0 <= i < |users| ==> IsLatest(rows, ks[i], users[i].lastActive))
  }

  /**
   * Lines 94-126, with the database query passed in: an error attribute or a
   * null data attribute gives an error response; otherwise the searched rows
   * are summarised.
   */
  method LogsDashboard(searchArg: Option<string>, result: QueryResult) returns (r: Result<Page, string>)
    ensures result.error.Some? && result.error.value != "" ==> r == Err(result.error.value)
    ensures (result.error.None? || result.error.value == "") && result.data.None? ==> r == Err("No data returned")
    ensures (result.error.None? || result.error.value == "") && result.data.Some? ==>
              && r.Ok?
              && r.value.search == Lower(searchArg.GetOr(""))
              && SummarizesRows(r.value.users, SearchedRows(searchArg, result.data.value))
  {
    var search := Lower(searchArg.GetOr(""));
    if result.error.Some? && result.error.value != "" {
      return Err(result.error.value);
    }
    if result.data.None? {
      return Err("No data returned");
    }
    var data := result.data.value;
    if search != "" {
      data := FilterBySearch(data, search);
    }
    var summary, order := Summarize(data);
    DistinctKeysSpec(data);
    var users := BuildUsers(summary, order);
    r := Ok(Page(users, search));
  }

  // ---------------------------------------------------------------------------
  // What a summary promises
  // ---------------------------------------------------------------------------

  /** The sum of `log_count` over a list of entries. */
  function TotalLogCount(users: seq<UserSummary>): nat {
    if users == [] then 0 else users[0].logCount + TotalLogCount(users[1..])
  }

  /** The sum of the counts of the keys `ks` in `rows`. */
  function SumCounts(ks: seq<Key>, rows: seq<LogRow>): nat {
    if ks == [] then 0 else CountKey(rows, ks[0]) + SumCounts(ks[1..], rows)
  }

  /** Appending a row adds one to the total of any duplicate-free key list that holds its key. */
  lemma {:induction false} SumCountsSnoc(ks: seq<Key>, rows: seq<LogRow>, log: LogRow)
    requires NoDuplicates(ks)
    ensures SumCounts(ks, rows + [log]) == SumCounts(ks, rows) + (if KeyOf(log) in ks then 1 else 0)
  {
    if ks != [] {
      CountKeySnoc(rows, log, ks[0]);
      assert NoDuplicates(ks[1..]) by {
        forall i, j | 0 <= i < j < |ks[1..]| ensures ks[1..][i] != ks[1..][j] {
          assert ks[1..][i] == ks[i + 1] && ks[1..][j] == ks[j + 1];
        }
      }
      SumCountsSnoc(ks[1..], rows, log);
      assert KeyOf(log) in ks <==> KeyOf(log) == ks[0] || KeyOf(log) in ks[1..];
      assert KeyOf(log) == ks[0] ==> KeyOf(log) !in ks[1..];
    }
  }

  lemma SumCountsAppendKey(ks: seq<Key>, k: Key, rows: seq<LogRow>)
    ensures SumCounts(ks + [k], rows) == SumCounts(ks, rows) + CountKey(rows, k)
    decreases |ks|
  {
    if ks != [] {
      assert (ks + [k])[1..] == ks[1..] + [k];
      SumCountsAppendKey(ks[1..], k, rows);
    }
  }

  /** The counts of the distinct keys add up to the number of rows. */
  lemma {:induction false} SumOfDistinctCounts(rows: seq<LogRow>)
    ensures SumCounts(DistinctKeys(rows), rows) == |rows|
  {
    if rows != [] {
      var init := rows[..|rows| - 1];
      var last := rows[|rows| - 1];
      assert rows == init + [last];
      SumOfDistinctCounts(init);
      DistinctKeysSpec(init);
      DistinctKeysSnoc(init, last);
      var d := DistinctKeys(init);
      SumCountsSnoc(d, init, last);
      if KeyOf(last) !in d {
        SumCountsAppendKey(d, KeyOf(last), rows);
        CountKeySnoc(init, last, KeyOf(last));
        CountKeyPositive(init, KeyOf(last));
      }
    }
  }

  lemma {:induction false} TotalIsSumCounts(users: seq<UserSummary>, ks: seq<Key>, rows: seq<LogRow>)
    requires |users| == |ks|
    requires forall i :: 0 <= i < |users| ==> users[i].logCount == CountKey(rows, ks[i])
    ensures TotalLogCount(users) == SumCounts(ks, rows)
  {
    if users != [] {
      TotalIsSumCounts(users[1..], ks[1..], rows);
    }
  }

  /**
   * A summary has one entry per distinct (username, pc_name) key that occurs
   * in the rows and no other, every count is at least one, and the counts add
   * up to the number of rows.
   */
  lemma {:induction false} SummaryFacts(users: seq<UserSummary>, rows: seq<LogRow>)
    requires SummarizesRows(users, rows)
    ensures forall i, j :: 0 <= i < j < |users| ==> UserKey(users[i]) != UserKey(users[j])
    ensures forall k :: Occurs(rows, k) <==> exists i :: 0 <= i < |users| && UserKey(users[i]) == k
    ensures forall i :: 0 <= i < |users| ==> users[i].logCount >= 1
    ensures TotalLogCount(users) == |rows|
  {
    var ks := DistinctKeys(rows);
    DistinctKeysSpec(rows);
    forall i | 0 <= i < |users|
      ensures users[i].logCount >= 1
    {
      assert ks[i] in ks;
      CountKeyPositive(rows, ks[i]);
    }
    forall k | Occurs(rows, k)
      ensures exists i :: 0 <= i < |users| && UserKey(users[i]) == k
    {
      var i :| 0 <= i < |ks| && ks[i] == k;
      assert UserKey(users[i]) == k;
    }
    TotalIsSumCounts(users, ks, rows);
    SumOfDistinctCounts(rows);
  }

  /** Everything the dashboard shows about the searched rows, for a successful query. */
  lemma DashboardCountsSearchedRows(searchArg: Option<string>, data: seq<LogRow>, users: seq<UserSummary>)
    requires SummarizesRows(users, SearchedRows(searchArg, data))
    ensures TotalLogCount(users) == |FilterBySearch(data, Lower(searchArg.GetOr("")))|
    ensures forall i :: 0 <= i < |users| ==>
              users[i].logCount == CountKey(FilterBySearch(data, Lower(searchArg.GetOr(""))), UserKey(users[i]))
  {
    SearchedRowsIsFilter(searchArg, data);
    SummaryFacts(users, SearchedRows(searchArg, data));
  }
}
