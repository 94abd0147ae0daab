/**
 * `get_stats`: aggregates over the whole table.
 *
 * The row count, the number of distinct `from_msisdn` values, the senders
 * grouped with their row counts (`GROUP BY from_msisdn ORDER BY count DESC
 * LIMIT 10`), and the least and greatest `ts` under SQLite's text order, both
 * NULL on an empty table. The SQL leaves the order of senders with equal
 * counts open; the model settles it one way, and its contract
 * (`IsTopSenders`) admits every order SQL admits.
 */
module MessageStats {
  import opened Wrappers
  import opened Strings
  import opened MessageTable
  import opened MessageQuery

  const TOP_SENDERS: nat := 10

  /** One entry of `messages_per_sender`: `{"from": ..., "count": ...}`. */
  datatype SenderCount = SenderCount(from: string, count: nat)

  datatype Stats = Stats(
    totalMessages: nat,
    sendersCount: nat,
    messagesPerSender: seq<SenderCount>,
    firstMessageTs: Option<string>,
    lastMessageTs: Option<string>)

  ghost predicate NoDuplicates<T>(s: seq<T>) {
    forall i, j :: 0 <= i < j < |s| ==> s[i] != s[j]
  }

  /** The distinct `from_msisdn` values of the table. */
  function Senders(rows: seq<Row>): set<string> {
    set r | r in rows :: r.fromMsisdn
  }

  /** `COUNT(*) ... WHERE from_msisdn = s`. */
  function CountFrom(rows: seq<Row>, s: string): nat {
    if rows == [] then 0
    else (if rows[0].fromMsisdn == s then 1 else 0) + CountFrom(rows[1..], s)
  }

  lemma {:induction false} CountFromPositive(rows: seq<Row>, s: string)
    ensures CountFrom(rows, s) >= 1 <==> s in Senders(rows)
    decreases |rows|
  {
    if rows != [] {
      CountFromPositive(rows[1..], s);
      assert Senders(rows) == Senders(rows[1..]) + {rows[0].fromMsisdn} by {
        assert rows == [rows[0]] + rows[1..];
      }
    }
  }

  /** The groups of `GROUP BY from_msisdn`, each sender once. */
  function DistinctSenders(rows: seq<Row>): (d: seq<string>)
    ensures forall x :: x in d <==> x in Senders(rows)
    ensures NoDuplicates(d)
    decreases |rows|
  {
    if rows == [] then []
    else
      assert Senders(rows) == Senders(rows[1..]) + {rows[0].fromMsisdn} by {
        assert rows == [rows[0]] + rows[1..];
      }
      var rest := DistinctSenders(rows[1..]);
      if rows[0].fromMsisdn in rest then rest
      else
        NoDuplicatesCons(rows[0].fromMsisdn, rest);
        [rows[0].fromMsisdn] + rest
  }

  lemma NoDuplicatesCons<T>(x: T, s: seq<T>)
    requires NoDuplicates(s) && x !in s
    ensures NoDuplicates([x] + s)
  {
    var t := [x] + s;
    forall i, j | 0 <= i < j < |t| ensures t[i] != t[j] {
      assert t[j] == s[j - 1];
      if i > 0 { assert t[i] == s[i - 1]; }
    }
  }

  lemma {:induction false} NoDuplicatesCard<T>(s: seq<T>)
    requires NoDuplicates(s)
    ensures |set x | x in s| == |s|
    decreases |s|
  {
    if s != [] {
      assert s == [s[0]] + s[1..];
      assert (set x | x in s) == (set x | x in s[1..]) + {s[0]};
      assert s[0] !in s[1..] by {
        forall j | 0 <= j < |s[1..]| ensures s[1..][j] != s[0] {
          assert s[1..][j] == s[j + 1];
        }
      }
      NoDuplicatesCard(s[1..]);
    }
  }

  /** `COUNT(DISTINCT from_msisdn)` is the number of groups. */
  lemma SendersCountIsGroupCount(rows: seq<Row>)
    ensures |Senders(rows)| == |DistinctSenders(rows)|
  {
    var d := DistinctSenders(rows);
    NoDuplicatesCard(d);
    assert (set x | x in d) == Senders(rows);
  }

  /** `SELECT from_msisdn, COUNT(*) ... GROUP BY from_msisdn`. */
  function GroupCounts(rows: seq<Row>): (g: seq<SenderCount>)
    ensures |g| == |DistinctSenders(rows)|
    ensures forall i :: 0 <= i < |g| ==>
      g[i] == SenderCount(DistinctSenders(rows)[i], CountFrom(rows, DistinctSenders(rows)[i]))
  {
    var d := DistinctSenders(rows);
    seq(|d|, i requires 0 <= i < |d| => SenderCount(d[i], CountFrom(rows, d[i])))
  }

  // ---------------------------------------------------------------------------
  // ORDER BY count DESC

  predicate CountDescending(s: seq<SenderCount>) {
    forall i, j :: 0 <= i < j < |s| ==> s[i].count >= s[j].count
  }

  lemma BehindByCount(x: SenderCount, s: seq<SenderCount>, t: seq<SenderCount>)
    requires CountDescending(s) && s != [] && x.count < s[0].count
    requires CountDescending(t) && multiset(t) == multiset(s[1..]) + multiset{x}
    ensures CountDescending([s[0]] + t)
  {
    var r := [s[0]] + t;
    forall i, j | 0 <= i < j < |r| ensures r[i].count >= r[j].count {
      assert r[j] == t[j - 1];
      if i > 0 {
        assert r[i] == t[i - 1];
      } else {
        assert t[j - 1] in multiset(t);
        if t[j - 1] != x {
          assert t[j - 1] in s[1..];
        }
      }
    }
  }

  function InsertByCount(x: SenderCount, s: seq<SenderCount>): (r: seq<SenderCount>)
    requires CountDescending(s)
    ensures |r| == |s| + 1
    ensures multiset(r) == multiset(s) + multiset{x}
    ensures CountDescending(r)
    decreases |s|
  {
    if s == [] then [x]
    else if x.count >= s[0].count then [x] + s
    else
      assert s == [s[0]] + s[1..];
      var t := InsertByCount(x, s[1..]);
      BehindByCount(x, s, t);
      [s[0]] + t
  }

  /** `ORDER BY count DESC`: the same groups, largest count first. */
  function SortByCount(s: seq<SenderCount>): (r: seq<SenderCount>)
    ensures |r| == |s|
    ensures multiset(r) == multiset(s)
    ensures CountDescending(r)
    decreases |s|
  {
    if s == [] then []
    else
      assert s == [s[0]] + s[1..];
      InsertByCount(s[0], SortByCount(s[1..]))
  }

  lemma TwoPositions<T>(s: seq<T>, i: nat, j: nat)
    requires i < j < |s|
    ensures multiset{s[i], s[j]} <= multiset(s)
  {
    assert s == s[..i] + [s[i]] + s[i + 1..j] + [s[j]] + s[j + 1..];
  }

  lemma {:induction false} NoDuplicatesAtMostOnce<T>(s: seq<T>)
    requires NoDuplicates(s)
    ensures forall x :: multiset(s)[x] <= 1
    decreases |s|
  {
    if s != [] {
      assert s == [s[0]] + s[1..];
      NoDuplicatesAtMostOnce(s[1..]);
      assert s[0] !in multiset(s[1..]) by {
        forall j | 0 <= j < |s[1..]| ensures s[1..][j] != s[0] {
          assert s[1..][j] == s[j + 1];
        }
      }
    }
  }

  /** A reordering of a sequence without repetitions has none either. */
  lemma PermutationNoDuplicates<T>(a: seq<T>, b: seq<T>)
    requires NoDuplicates(a) && multiset(a) == multiset(b)
    ensures NoDuplicates(b)
  {
    NoDuplicatesAtMostOnce(a);
    forall i, j | 0 <= i < j < |b| ensures b[i] != b[j] {
      TwoPositions(b, i, j);
      assert multiset{b[i], b[j]}[b[i]] <= 1;
    }
  }

  // ---------------------------------------------------------------------------
  // The top senders

  /**
   * What `ORDER BY count DESC LIMIT n` over the groups promises: n groups, or
   * all of them when there are fewer; each a sender of the table with its
   * true row count, no sender twice, counts non-increasing, and no sender
   * left out has more rows than the last one listed.
   */
  ghost predicate IsTopSenders(rows: seq<Row>, top: seq<SenderCount>, n: nat) {
    && |top| == Min(n, |Senders(rows)|)
    && (forall i :: 0 <= i < |top| ==> top[i].from in Senders(rows) && top[i].count == CountFrom(rows, top[i].from))
    && (forall i, j :: 0 <= i < j < |top| ==> top[i].from != top[j].from)
    && CountDescending(top)
    && (forall s :: s in Senders(rows) && (forall i :: 0 <= i < |top| ==> top[i].from != s) ==>
          |top| == n && (n > 0 ==> CountFrom(rows, s) <= top[n - 1].count))
  }

  /** `messages_per_sender`. */
  function TopSenders(rows: seq<Row>, n: nat): (top: seq<SenderCount>)
    ensures IsTopSenders(rows, top, n)
  {
    TopSendersCorrect(rows, n);
    Page(SortByCount(GroupCounts(rows)), n, 0)
  }

  /** Every group carries a sender of the table with that sender's true count, each sender once. */
  lemma GroupsAreTrueCounts(rows: seq<Row>)
    ensures NoDuplicates(GroupCounts(rows))
    ensures forall e :: e in GroupCounts(rows) ==> e.from in Senders(rows) && e.count == CountFrom(rows, e.from)
    ensures forall s :: s in Senders(rows) ==> SenderCount(s, CountFrom(rows, s)) in GroupCounts(rows)
  {
    var d := DistinctSenders(rows);
    var g := GroupCounts(rows);
    forall i, j | 0 <= i < j < |g| ensures g[i] != g[j] {
      assert g[i].from == d[i] && g[j].from == d[j];
    }
    forall e | e in g ensures e.from in Senders(rows) && e.count == CountFrom(rows, e.from) {
      var k :| 0 <= k < |g| && g[k] == e;
      assert d[k] in d;
    }
    forall s | s in Senders(rows) ensures SenderCount(s, CountFrom(rows, s)) in g {
      var k :| 0 <= k < |d| && d[k] == s;
      assert g[k] == SenderCount(s, CountFrom(rows, s));
    }
  }

  /** The sorted groups: true counts, distinct senders, every sender present. */
  lemma SortedGroups(rows: seq<Row>)
    ensures var sorted := SortByCount(GroupCounts(rows));
      && |sorted| == |Senders(rows)|
      && (forall i :: 0 <= i < |sorted| ==>
            sorted[i].from in Senders(rows) && sorted[i].count == CountFrom(rows, sorted[i].from))
      && (forall i, j :: 0 <= i < j < |sorted| ==> sorted[i].from != sorted[j].from)
      && (forall s :: s in Senders(rows) ==> exists p :: 0 <= p < |sorted| && sorted[p].from == s)
  {
    var g := GroupCounts(rows);
    var sorted := SortByCount(g);
    SendersCountIsGroupCount(rows);
    GroupsAreTrueCounts(rows);
    PermutationNoDuplicates(g, sorted);
    forall i | 0 <= i < |sorted|
      ensures sorted[i].from in Senders(rows) && sorted[i].count == CountFrom(rows, sorted[i].from)
    {
      assert sorted[i] in multiset(g);
    }
    forall s | s in Senders(rows) ensures exists p :: 0 <= p < |sorted| && sorted[p].from == s {
      assert SenderCount(s, CountFrom(rows, s)) in multiset(sorted);
    }
  }

  /** An entry beyond a prefix of a descending list counts no more than the prefix's last entry. */
  lemma BeyondPrefix(sorted: seq<SenderCount>, n: nat, p: nat)
    requires CountDescending(sorted) && p < |sorted| && p >= Min(n, |sorted|)
    ensures |Page(sorted, n, 0)| == n
    ensures n > 0 ==> sorted[p].count <= Page(sorted, n, 0)[n - 1].count
  {
    if n > 0 {
      assert sorted[n - 1].count >= sorted[p].count;
    }
  }

  lemma TopSendersCorrect(rows: seq<Row>, n: nat)
    ensures IsTopSenders(rows, Page(SortByCount(GroupCounts(rows)), n, 0), n)
  {
    SortedGroups(rows);
    TopOfSorted(rows, SortByCount(GroupCounts(rows)), n);
  }

  /** The first n entries of the groups, sorted by count, are a top-n list. */
  lemma TopOfSorted(rows: seq<Row>, sorted: seq<SenderCount>, n: nat)
    requires |sorted| == |Senders(rows)|
    requires forall i :: 0 <= i < |sorted| ==>
      sorted[i].from in Senders(rows) && sorted[i].count == CountFrom(rows, sorted[i].from)
    requires forall i, j :: 0 <= i < j < |sorted| ==> sorted[i].from != sorted[j].from
    requires forall s :: s in Senders(rows) ==> exists p :: 0 <= p < |sorted| && sorted[p].from == s
    requires CountDescending(sorted)
    ensures IsTopSenders(rows, Page(sorted, n, 0), n)
  {
    PrefixKeepsOrder(sorted, n);
    LeftOutCountNoMore(rows, sorted, n);
  }

  /** A prefix keeps the entries, their distinct senders and their descending counts. */
  lemma PrefixKeepsOrder(sorted: seq<SenderCount>, n: nat)
    ensures forall i :: 0 <= i < |Page(sorted, n, 0)| ==> Page(sorted, n, 0)[i] == sorted[i]
    ensures CountDescending(sorted) ==> CountDescending(Page(sorted, n, 0))
  {
  }

  /** A sender not in the prefix counts no more than the prefix's last entry. */
  lemma LeftOutCountNoMore(rows: seq<Row>, sorted: seq<SenderCount>, n: nat)
    requires forall i :: 0 <= i < |sorted| ==> sorted[i].count == CountFrom(rows, sorted[i].from)
    requires forall s :: s in Senders(rows) ==> exists p :: 0 <= p < |sorted| && sorted[p].from == s
    requires CountDescending(sorted)
    ensures var top := Page(sorted, n, 0);
      forall s :: s in Senders(rows) && (forall i :: 0 <= i < |top| ==> top[i].from != s) ==>
        |top| == n && (n > 0 ==> CountFrom(rows, s) <= top[n - 1].count)
  {
    var top := Page(sorted, n, 0);
    forall s | s in Senders(rows) && (forall i :: 0 <= i < |top| ==> top[i].from != s)
      ensures |top| == n && (n > 0 ==> CountFrom(rows, s) <= top[n - 1].count)
    {
      var p :| 0 <= p < |sorted| && sorted[p].from == s;
      BeyondPrefix(sorted, n, p);
    }
  }

  // ---------------------------------------------------------------------------
  // MIN(ts), MAX(ts)

  /** `MIN(ts)`: NULL on an empty table, otherwise the least `ts` under text order. */
  function MinTs(rows: seq<Row>): (r: Option<string>)
    ensures r.None? <==> rows == []
    ensures r.Some? ==> exists x :: x in rows && x.ts == r.value
    ensures r.Some? ==> forall x :: x in rows ==> LexLe(r.value, x.ts)
    decreases |rows|
  {
    if rows == [] then None
    else
      assert rows == [rows[0]] + rows[1..];
      var rest := MinTs(rows[1..]);
      LexLeReflexive(rows[0].ts);
      if rest.None? then Some(rows[0].ts)
      else
        LexLeTotal(rows[0].ts, rest.value);
        if LexLe(rows[0].ts, rest.value) then
          BoundBelow(rows[0].ts, rest.value, rows[1..]);
          Some(rows[0].ts)
        else
          rest
  }

  lemma BoundBelow(a: string, b: string, rows: seq<Row>)
    requires LexLe(a, b)
    requires forall x :: x in rows ==> LexLe(b, x.ts)
    ensures forall x :: x in rows ==> LexLe(a, x.ts)
  {
    forall x | x in rows ensures LexLe(a, x.ts) {
      LexLeTransitive(a, b, x.ts);
    }
  }

  /** `MAX(ts)`: NULL on an empty table, otherwise the greatest `ts` under text order. */
  function MaxTs(rows: seq<Row>): (r: Option<string>)
    ensures r.None? <==> rows == []
    ensures r.Some? ==> exists x :: x in rows && x.ts == r.value
    ensures r.Some? ==> forall x :: x in rows ==> LexLe(x.ts, r.value)
    decreases |rows|
  {
    if rows == [] then None
    else
      assert rows == [rows[0]] + rows[1..];
      var rest := MaxTs(rows[1..]);
      LexLeReflexive(rows[0].ts);
      if rest.None? then Some(rows[0].ts)
      else
        LexLeTotal(rows[0].ts, rest.value);
        if LexLe(rest.value, rows[0].ts) then
          BoundAbove(rows[0].ts, rest.value, rows[1..]);
          Some(rows[0].ts)
        else
          rest
  }

  lemma BoundAbove(a: string, b: string, rows: seq<Row>)
    requires LexLe(b, a)
    requires forall x :: x in rows ==> LexLe(x.ts, b)
    ensures forall x :: x in rows ==> LexLe(x.ts, a)
  {
    forall x | x in rows ensures LexLe(x.ts, a) {
      LexLeTransitive(x.ts, b, a);
    }
  }

  // ---------------------------------------------------------------------------
  // get_stats

  function GetStats(rows: seq<Row>): (st: Stats)
    ensures st.totalMessages == |rows|
    ensures st.sendersCount == |Senders(rows)|
    ensures IsTopSenders(rows, st.messagesPerSender, TOP_SENDERS)
    ensures st.firstMessageTs.None? <==> rows == []
    ensures st.lastMessageTs.None? <==> rows == []
    ensures st.firstMessageTs.Some? ==>
      (exists x :: x in rows && x.ts == st.firstMessageTs.value) && forall x :: x in rows ==> LexLe(st.firstMessageTs.value, x.ts)
    ensures st.lastMessageTs.Some? ==>
      (exists x :: x in rows && x.ts == st.lastMessageTs.value) && forall x :: x in rows ==> LexLe(x.ts, st.lastMessageTs.value)
  {
    Stats(|rows|, |Senders(rows)|, TopSenders(rows, TOP_SENDERS), MinTs(rows), MaxTs(rows))
  }

  function SumCounts(rows: seq<Row>, senders: seq<string>): nat {
    if senders == [] then 0 else CountFrom(rows, senders[0]) + SumCounts(rows, senders[1..])
  }

  lemma {:induction false} SumCountsCons(h: Row, t: seq<Row>, senders: seq<string>)
    ensures SumCounts([h] + t, senders) == SumCounts(t, senders) + multiset(senders)[h.fromMsisdn]
    decreases |senders|
  {
    if senders != [] {
      assert ([h] + t)[1..] == t;
      SumCountsCons(h, t, senders[1..]);
      assert senders == [senders[0]] + senders[1..];
    }
  }

  /** Grouping by sender partitions the table: the group counts add up to the row count. */
  lemma {:induction false} GroupsPartitionTable(rows: seq<Row>)
    ensures SumCounts(rows, DistinctSenders(rows)) == |rows|
    decreases |rows|
  {
    if rows != [] {
      var h, t := rows[0], rows[1..];
      assert rows == [h] + t;
      GroupsPartitionTable(t);
      var d, d' := DistinctSenders(rows), DistinctSenders(t);
      SumCountsCons(h, t, d);
      NoDuplicatesAtMostOnce(d);
      assert h.fromMsisdn in multiset(d);
      if h.fromMsisdn !in d' {
        CountFromPositive(t, h.fromMsisdn);
        assert d == [h.fromMsisdn] + d';
      }
    }
  }

  /**
   * What `get_stats` reports: `total_messages` is the row count and
   * `senders_count` the number of distinct senders (zero exactly when the
   * table is empty); `messages_per_sender` is a top-10 list of senders with
   * their true counts, the whole grouping when there are at most ten senders,
   * and then its counts add up to `total_messages`; the first and last
   * timestamps are the least and greatest `ts`, both null on an empty table.
   */
  lemma StatsSpec(rows: seq<Row>)
    ensures var st := GetStats(rows);
      && st.totalMessages == |rows|
      && st.sendersCount == |Senders(rows)| <= st.totalMessages
      && (st.sendersCount == 0 <==> st.totalMessages == 0)
      && IsTopSenders(rows, st.messagesPerSender, TOP_SENDERS)
      && (st.sendersCount <= TOP_SENDERS ==> SumOf(st.messagesPerSender) == st.totalMessages)
      && (st.firstMessageTs.None? <==> rows == []) && (st.lastMessageTs.None? <==> rows == [])
      && (rows != [] ==> LexLe(st.firstMessageTs.value, st.lastMessageTs.value))
  {
    var st := GetStats(rows);
    SendersCountIsGroupCount(rows);
    assert |DistinctSenders(rows)| <= |rows| by {
      GroupsPartitionTable(rows);
      CountsAtLeastOne(rows, DistinctSenders(rows));
    }
    if rows != [] {
      assert rows[0].fromMsisdn in Senders(rows);
      var x :| x in rows && x.ts == st.lastMessageTs.value;
    }
    if st.sendersCount <= TOP_SENDERS {
      GroupsPartitionTable(rows);
      TopListsAllGroups(rows);
    }
  }

  function SumOf(s: seq<SenderCount>): nat {
    if s == [] then 0 else s[0].count + SumOf(s[1..])
  }

  lemma {:induction false} CountsAtLeastOne(rows: seq<Row>, senders: seq<string>)
    requires forall s :: s in senders ==> s in Senders(rows)
    ensures SumCounts(rows, senders) >= |senders|
    decreases |senders|
  {
    if senders != [] {
      CountFromPositive(rows, senders[0]);
      CountsAtLeastOne(rows, senders[1..]);
    }
  }

  lemma {:induction false} SumOfPermutation(a: seq<SenderCount>, b: seq<SenderCount>)
    requires multiset(a) == multiset(b)
    ensures SumOf(a) == SumOf(b)
    decreases |a|
  {
    if a != [] {
      assert a[0] in multiset(a);
      var k :| 0 <= k < |b| && b[k] == a[0];
      RemoveMatching(a, b, k);
      SumOfPermutation(a[1..], b[..k] + b[k + 1..]);
      SumOfRemove(b, k);
    }
  }

  /** Taking the same element out of two permutations of each other leaves permutations. */
  lemma RemoveMatching<T>(a: seq<T>, b: seq<T>, k: nat)
    requires a != [] && k < |b| && b[k] == a[0]
    requires multiset(a) == multiset(b)
    ensures multiset(a[1..]) == multiset(b[..k] + b[k + 1..])
  {
    assert a == [a[0]] + a[1..];
    assert b == b[..k] + [b[k]] + b[k + 1..];
    var b' := b[..k] + b[k + 1..];
    forall z ensures multiset(a[1..])[z] == multiset(b')[z] {
      assert multiset(a[1..])[z] == multiset(a)[z] - (if z == a[0] then 1 else 0);
      assert multiset(b')[z] == multiset(b)[z] - (if z == a[0] then 1 else 0);
    }
  }

  lemma {:induction false} SumOfRemove(s: seq<SenderCount>, k: nat)
    requires k < |s|
    ensures SumOf(s) == s[k].count + SumOf(s[..k] + s[k + 1..])
    decreases k
  {
    if k > 0 {
      SumOfRemove(s[1..], k - 1);
      assert s[1..][..k - 1] + s[1..][k..] == (s[..k] + s[k + 1..])[1..];
    } else {
      assert s[..0] + s[1..] == s[1..];
    }
  }

  lemma {:induction false} SumOfGroups(rows: seq<Row>, d: seq<string>, g: seq<SenderCount>)
    requires |g| == |d|
    requires forall i :: 0 <= i < |g| ==> g[i] == SenderCount(d[i], CountFrom(rows, d[i]))
    ensures SumOf(g) == SumCounts(rows, d)
    decreases |d|
  {
    if d != [] {
      SumOfGroups(rows, d[1..], g[1..]);
    }
  }

  /** With at most ten senders the top list is the whole grouping, so its counts add up to the row count. */
  lemma TopListsAllGroups(rows: seq<Row>)
    requires |Senders(rows)| <= TOP_SENDERS
    ensures SumOf(TopSenders(rows, TOP_SENDERS)) == SumCounts(rows, DistinctSenders(rows))
  {
    SendersCountIsGroupCount(rows);
    var g := GroupCounts(rows);
    var sorted := SortByCount(g);
    assert Page(sorted, TOP_SENDERS, 0) == sorted;
    SumOfPermutation(sorted, g);
    SumOfGroups(rows, DistinctSenders(rows), g);
  }

  /** The empty table: zero counts, no senders, null timestamps. */
  lemma EmptyTableStats()
    ensures GetStats([]) == Stats(0, 0, [], None, None)
  {
    assert Senders([]) == {};
  }
}
