/**
 * `fetch_messages`: a filtered, ordered and paginated read of the table that
 * also reports how many rows match.
 *
 * The WHERE clause is built condition by condition from the supplied filters
 * (a filter that is None or the empty string adds no condition) and the
 * conditions are joined with AND. Matching rows are ordered by
 * `(ts, message_id)` ascending and sliced by LIMIT and OFFSET; the total is
 * counted before slicing. Each returned item renames `from_msisdn` to "from"
 * and `to_msisdn` to "to" and leaves out `created_at`.
 */
module MessageQuery {
  import opened Wrappers
  import opened Strings
  import opened Schemas
  import opened MessageTable

  datatype Filter = Filter(fromMsisdn: Option<string>, since: Option<string>, q: Option<string>)

  /** Python truthiness of an optional string: neither None nor "". */
  predicate Given(o: Option<string>) {
    o.Some? && o.value != ""
  }

  /** One condition of the WHERE clause. */
  datatype Condition =
    | FromEquals(v: string)  // from_msisdn = ?
    | TsAtLeast(v: string)   // ts >= ?
    | TextLike(v: string)    // text LIKE '%' || ? || '%'

  /** The WHERE clause, in the order the conditions are appended. */
  function Conditions(f: Filter): (cs: seq<Condition>)
    ensures Given(f.fromMsisdn) <==> FromEquals(f.fromMsisdn.GetOr("")) in cs
    ensures Given(f.since) <==> TsAtLeast(f.since.GetOr("")) in cs
    ensures Given(f.q) <==> TextLike(f.q.GetOr("")) in cs
    ensures forall c :: c in cs ==>
      || (c.FromEquals? && f.fromMsisdn == Some(c.v))
      || (c.TsAtLeast? && f.since == Some(c.v))
      || (c.TextLike? && f.q == Some(c.v))
  {
    (if Given(f.fromMsisdn) then [FromEquals(f.fromMsisdn.value)] else [])
    + (if Given(f.since) then [TsAtLeast(f.since.value)] else [])
    + (if Given(f.q) then [TextLike(f.q.value)] else [])
  }

  /** SQL truth of a condition on a row; a NULL `text` never matches LIKE. */
  predicate Holds(c: Condition, r: Row) {
    match c
    case FromEquals(v) => r.fromMsisdn == v
    case TsAtLeast(v) => LexLe(v, r.ts)
    case TextLike(v) => r.text.Some? && Contains(r.text.value, v)
  }

  predicate Satisfies(r: Row, conds: seq<Condition>) {
    forall c :: c in conds ==> Holds(c, r)
  }

  /** The filters stated directly: every supplied filter holds; the others are ignored. */
  predicate Selected(f: Filter, r: Row) {
    && (Given(f.fromMsisdn) ==> r.fromMsisdn == f.fromMsisdn.value)
    && (Given(f.since) ==> LexLe(f.since.value, r.ts))
    && (Given(f.q) ==> r.text.Some? && Contains(r.text.value, f.q.value))
  }

  /** The WHERE clause built from a filter selects exactly the rows meeting all supplied filters. */
  lemma ConditionsMeaning(f: Filter, r: Row)
    ensures Satisfies(r, Conditions(f)) <==> Selected(f, r)
  {
    var cs := Conditions(f);
    if Given(f.fromMsisdn) { assert FromEquals(f.fromMsisdn.value) in cs; }
    if Given(f.since) { assert TsAtLeast(f.since.value) in cs; }
    if Given(f.q) { assert TextLike(f.q.value) in cs; }
  }

  /** `SELECT ... WHERE conds`: the matching rows, in table order. */
  function Where(rows: seq<Row>, conds: seq<Condition>): (w: seq<Row>)
    ensures forall x :: x in w <==> x in rows && Satisfies(x, conds)
    ensures UniqueIds(rows) ==> UniqueIds(w)
    decreases |rows|
  {
    if rows == [] then []
    else
      var rest := Where(rows[1..], conds);
      assert forall x :: x in rows <==> x == rows[0] || x in rows[1..] by {
        assert rows == [rows[0]] + rows[1..];
      }
      if Satisfies(rows[0], conds) then
        HeadIdNotInTail(rows);
        ConsUniqueIf(rows[0], rest);
        [rows[0]] + rest
      else
        rest
  }

  /** WHERE keeps each matching row as often as the table holds it, and drops the others. */
  lemma {:induction false} WhereMultiset(rows: seq<Row>, conds: seq<Condition>)
    ensures forall x :: multiset(Where(rows, conds))[x] == if Satisfies(x, conds) then multiset(rows)[x] else 0
    decreases |rows|
  {
    if rows != [] {
      WhereMultiset(rows[1..], conds);
      assert rows == [rows[0]] + rows[1..];
      assert multiset(rows) == multiset{rows[0]} + multiset(rows[1..]);
    }
  }

  /** Tables holding the same rows select the same rows. */
  lemma WherePermutation(rows1: seq<Row>, rows2: seq<Row>, conds: seq<Condition>)
    requires multiset(rows1) == multiset(rows2)
    ensures multiset(Where(rows1, conds)) == multiset(Where(rows2, conds))
  {
    WhereMultiset(rows1, conds);
    WhereMultiset(rows2, conds);
    forall x ensures multiset(Where(rows1, conds))[x] == multiset(Where(rows2, conds))[x] {
    }
  }

  lemma HeadIdNotInTail(s: seq<Row>)
    requires s != []
    ensures UniqueIds(s) ==> s[0].messageId !in Ids(s[1..])
  {
    if UniqueIds(s) {
      forall j | 0 <= j < |s[1..]| ensures s[1..][j].messageId != s[0].messageId {
        assert s[1..][j] == s[j + 1];
      }
    }
  }

  lemma ConsUnique(x: Row, s: seq<Row>)
    requires UniqueIds(s) && x.messageId !in Ids(s)
    ensures UniqueIds([x] + s)
  {
    var t := [x] + s;
    forall i, j | 0 <= i < j < |t| ensures t[i].messageId != t[j].messageId {
      assert t[j] == s[j - 1];
      if i > 0 { assert t[i] == s[i - 1]; }
    }
  }

  // ---------------------------------------------------------------------------
  // ORDER BY ts ASC, message_id ASC

  predicate KeyLe(a: Row, b: Row) {
    LexLt(a.ts, b.ts) || (a.ts == b.ts && LexLe(a.messageId, b.messageId))
  }

  predicate SortedByKey(s: seq<Row>) {
    forall i, j :: 0 <= i < j < |s| ==> KeyLe(s[i], s[j])
  }

  lemma KeyLeTotal(a: Row, b: Row)
    ensures KeyLe(a, b) || KeyLe(b, a)
  {
    LexLeTotal(a.ts, b.ts);
    LexLeTotal(a.messageId, b.messageId);
  }

  lemma KeyLeReflexive(a: Row)
    ensures KeyLe(a, a)
  {
    LexLeReflexive(a.messageId);
  }

  lemma KeyLeTransitive(a: Row, b: Row, c: Row)
    requires KeyLe(a, b) && KeyLe(b, c)
    ensures KeyLe(a, c)
  {
    if a.ts == b.ts && b.ts == c.ts {
      LexLeTransitive(a.messageId, b.messageId, c.messageId);
    } else {
      LexLeReflexive(a.ts);
      LexLeReflexive(b.ts);
      assert LexLe(a.ts, b.ts) && LexLe(b.ts, c.ts);
      LexLeTransitive(a.ts, b.ts, c.ts);
      if a.ts == c.ts {
        LexLeAntisymmetric(a.ts, b.ts);
      }
    }
  }

  /** Two rows ordered both ways share their key `(ts, message_id)`. */
  lemma KeyLeAntisymmetric(a: Row, b: Row)
    requires KeyLe(a, b) && KeyLe(b, a)
    ensures a.ts == b.ts && a.messageId == b.messageId
  {
    if a.ts != b.ts {
      LexLeAntisymmetric(a.ts, b.ts);
    }
    LexLeAntisymmetric(a.messageId, b.messageId);
  }

  lemma SortedCons(h: Row, t: seq<Row>)
    requires SortedByKey(t)
    requires forall y :: y in t ==> KeyLe(h, y)
    ensures SortedByKey([h] + t)
  {
    var s := [h] + t;
    forall i, j | 0 <= i < j < |s| ensures KeyLe(s[i], s[j]) {
      assert s[j] == t[j - 1];
      if i > 0 { assert s[i] == t[i - 1]; }
    }
  }

  lemma InsertAtFront(x: Row, s: seq<Row>)
    requires SortedByKey(s) && s != [] && KeyLe(x, s[0])
    ensures SortedByKey([x] + s)
  {
    forall y | y in s ensures KeyLe(x, y) {
      if y != s[0] {
        KeyLeTransitive(x, s[0], y);
      }
    }
    SortedCons(x, s);
  }

  lemma InsertBehind(x: Row, s: seq<Row>, t: seq<Row>)
    requires SortedByKey(s) && s != [] && !KeyLe(x, s[0])
    requires SortedByKey(t) && multiset(t) == multiset(s[1..]) + multiset{x}
    ensures SortedByKey([s[0]] + t)
  {
    KeyLeTotal(x, s[0]);
    forall y | y in t ensures KeyLe(s[0], y) {
      assert y in multiset(t);
      if y != x {
        assert y in s[1..];
      }
    }
    SortedCons(s[0], t);
  }

  lemma SameElementsSameIds(a: seq<Row>, b: seq<Row>)
    requires multiset(a) == multiset(b)
    ensures Ids(a) == Ids(b)
  {
    forall x ensures x in a <==> x in b {
      assert x in a <==> x in multiset(a);
      assert x in b <==> x in multiset(b);
    }
  }

  lemma ConsUniqueIf(x: Row, s: seq<Row>)
    ensures UniqueIds(s) && x.messageId !in Ids(s) ==> UniqueIds([x] + s)
  {
    if UniqueIds(s) && x.messageId !in Ids(s) {
      ConsUnique(x, s);
    }
  }

  lemma InsertBehindUnique(x: Row, s: seq<Row>, t: seq<Row>)
    requires s != [] && !KeyLe(x, s[0])
    requires multiset(t) == multiset(s[1..]) + multiset{x}
    requires UniqueIds(s) && x.messageId !in Ids(s) && UniqueIds(t)
    ensures UniqueIds([s[0]] + t)
  {
    assert s == [s[0]] + s[1..];
    HeadIdNotInTail(s);
    SameElementsSameIds(t, s[1..] + [x]);
    assert Ids(s[1..] + [x]) == Ids(s[1..]) + {x.messageId};
    ConsUnique(s[0], t);
  }

  /** Places a row into an ordered sequence. */
  function InsertByKey(x: Row, s: seq<Row>): (r: seq<Row>)
    requires SortedByKey(s)
    ensures |r| == |s| + 1
    ensures multiset(r) == multiset(s) + multiset{x}
    ensures SortedByKey(r)
    ensures UniqueIds(s) && x.messageId !in Ids(s) ==> UniqueIds(r)
    decreases |s|
  {
    if s == [] then [x]
    else if KeyLe(x, s[0]) then
      InsertAtFront(x, s);
      ConsUniqueIf(x, s);
      [x] + s
    else
      var t := InsertByKey(x, s[1..]);
      InsertBehindKeeps(x, s, t);
      [s[0]] + t
  }

  /** Putting the head back in front of the tail with `x` inserted keeps every property of the insertion. */
  lemma InsertBehindKeeps(x: Row, s: seq<Row>, t: seq<Row>)
    requires SortedByKey(s) && s != [] && !KeyLe(x, s[0])
    requires |t| == |s[1..]| + 1
    requires SortedByKey(t) && multiset(t) == multiset(s[1..]) + multiset{x}
    requires UniqueIds(s[1..]) && x.messageId !in Ids(s[1..]) ==> UniqueIds(t)
    ensures |[s[0]] + t| == |s| + 1
    ensures multiset([s[0]] + t) == multiset(s) + multiset{x}
    ensures SortedByKey([s[0]] + t)
    ensures UniqueIds(s) && x.messageId !in Ids(s) ==> UniqueIds([s[0]] + t)
  {
    assert s == [s[0]] + s[1..];
    InsertBehind(x, s, t);
    if UniqueIds(s) && x.messageId !in Ids(s) {
      assert Ids(s) == Ids(s[1..]) + {s[0].messageId};
      InsertBehindUnique(x, s, t);
    }
  }

  /** `ORDER BY ts ASC, message_id ASC`: the same rows, in key order. */
  function SortByKey(s: seq<Row>): (r: seq<Row>)
    ensures |r| == |s|
    ensures multiset(r) == multiset(s)
    ensures SortedByKey(r)
    ensures UniqueIds(s) ==> UniqueIds(r)
    decreases |s|
  {
    if s == [] then []
    else
      assert s == [s[0]] + s[1..];
      var t := SortByKey(s[1..]);
      HeadIdNotInTail(s);
      SameElementsSameIds(t, s[1..]);
      InsertByKey(s[0], t)
  }

  /** Two sorted orderings of the same rows start with the same row. */
  lemma SortedHeadsAgree(a: seq<Row>, b: seq<Row>)
    requires a != [] && b != []
    requires SortedByKey(a) && SortedByKey(b)
    requires multiset(a) == multiset(b)
    requires UniqueIds(a)
    ensures a[0] == b[0]
  {
    assert a[0] in multiset(b);
    var k :| 0 <= k < |b| && b[k] == a[0];
    assert b[0] in multiset(a);
    var m :| 0 <= m < |a| && a[m] == b[0];
    KeyLeReflexive(a[0]);
    KeyLeReflexive(b[0]);
    assert KeyLe(a[0], b[0]);
    assert KeyLe(b[0], a[0]);
    KeyLeAntisymmetric(a[0], b[0]);
    assert m == 0;
  }

  lemma TailsSameElements(a: seq<Row>, b: seq<Row>)
    requires a != [] && b != [] && a[0] == b[0]
    requires multiset(a) == multiset(b)
    ensures multiset(a[1..]) == multiset(b[1..])
  {
    assert a == [a[0]] + a[1..] && b == [b[0]] + b[1..];
    assert multiset(a) == multiset{a[0]} + multiset(a[1..]);
    assert multiset(b) == multiset{b[0]} + multiset(b[1..]);
    forall z ensures multiset(a[1..])[z] == multiset(b[1..])[z] {
      assert multiset(a[1..])[z] == multiset(a)[z] - (if z == a[0] then 1 else 0);
      assert multiset(b[1..])[z] == multiset(b)[z] - (if z == b[0] then 1 else 0);
    }
  }

  /**
   * With unique `message_id`s the order `(ts, message_id)` is total: only one
   * ordering of a given set of rows is sorted, whatever order they came in.
   */
  lemma {:induction false} SortedPermutationUnique(a: seq<Row>, b: seq<Row>)
    requires SortedByKey(a) && SortedByKey(b)
    requires multiset(a) == multiset(b)
    requires UniqueIds(a)
    ensures a == b
    decreases |a|
  {
    assert |a| == |multiset(a)| == |multiset(b)| == |b|;
    if a != [] {
      SortedHeadsAgree(a, b);
      TailsSameElements(a, b);
      SortedPermutationUnique(a[1..], b[1..]);
      assert a == [a[0]] + a[1..] && b == [b[0]] + b[1..];
    }
  }

  // ---------------------------------------------------------------------------
  // LIMIT ? OFFSET ?

  /** `LIMIT limit OFFSET offset`: skip `offset` items, then keep at most `limit`. */
  function Page<T>(s: seq<T>, limit: nat, offset: nat): (p: seq<T>)
    ensures |p| == Min(limit, Max(0, |s| - offset))
    ensures forall i :: 0 <= i < |p| ==> offset + i < |s| && p[i] == s[offset + i]
  {
    if offset >= |s| then [] else s[offset..Min(|s|, offset + limit)]
  }

  // ---------------------------------------------------------------------------
  // Result items

  /** The JSON value of a nullable column. */
  function TextValue(t: Option<string>): JsonValue {
    if t.Some? then JString(t.value) else JNull
  }

  /** One returned item: the row under the keys "from" and "to", without `created_at`. */
  function ItemOf(r: Row): (item: JsonObject)
    ensures item.Keys == {"message_id", "from", "to", "ts", "text"}
    ensures "created_at" !in item && "from_msisdn" !in item && "to_msisdn" !in item
  {
    map[
      "message_id" := JString(r.messageId),
      "from" := JString(r.fromMsisdn),
      "to" := JString(r.toMsisdn),
      "ts" := JString(r.ts),
      "text" := TextValue(r.text)]
  }

  function Items(rows: seq<Row>): (items: seq<JsonObject>)
    ensures |items| == |rows|
    ensures forall i :: 0 <= i < |rows| ==> items[i] == ItemOf(rows[i])
  {
    seq(|rows|, i requires 0 <= i < |rows| => ItemOf(rows[i]))
  }

  /**
   * A returned item uses the webhook's own field names, so it is a payload
   * that the validator accepts and turns back into the stored message.
   */
  lemma ItemRoundTrip(r: Row)
    requires WellFormed(MessageOf(r))
    ensures Parse(ItemOf(r)) == Ok(MessageOf(r))
  {
    var item := ItemOf(r);
    assert item["message_id"] == JString(r.messageId);
    assert item["from"] == JString(r.fromMsisdn);
    assert item["to"] == JString(r.toMsisdn);
    assert item["ts"] == JString(r.ts);
    assert item["text"] == TextValue(r.text);
  }

  // ---------------------------------------------------------------------------
  // fetch_messages

  /** All rows matching the filter, in `(ts, message_id)` order. */
  function Ordered(rows: seq<Row>, f: Filter): seq<Row> {
    SortByKey(Where(rows, Conditions(f)))
  }

  /** `fetch_messages(limit, offset, from_msisdn, since, q)`: the page of items and the total. */
  function FetchMessages(rows: seq<Row>, limit: nat, offset: nat, f: Filter): (r: (seq<JsonObject>, nat))
    ensures r.0 == Items(Page(Ordered(rows, f), limit, offset))
    ensures |r.0| == Min(limit, Max(0, r.1 - offset))
  {
    var matching := Where(rows, Conditions(f));
    (Items(Page(SortByKey(matching), limit, offset)), |matching|)
  }

  lemma {:induction false} DistinctCount(s: seq<Row>)
    requires UniqueIds(s)
    ensures |set r | r in s| == |s|
    decreases |s|
  {
    if s != [] {
      DistinctCount(s[1..]);
      assert (set r | r in s) == (set r | r in s[1..]) + {s[0]} by {
        assert s == [s[0]] + s[1..];
      }
      HeadIdNotInTail(s);
    }
  }

  lemma {:induction false} UniqueOccursOnce(s: seq<Row>, x: Row)
    requires UniqueIds(s) && x in s
    ensures multiset(s)[x] == 1
    decreases |s|
  {
    assert s == [s[0]] + s[1..];
    assert multiset(s) == multiset{s[0]} + multiset(s[1..]);
    if x == s[0] {
      HeadIdNotInTail(s);
      assert x !in multiset(s[1..]);
    } else {
      UniqueOccursOnce(s[1..], x);
    }
  }

  /** A slice of a sequence is in the same order and has unique ids if the sequence has. */
  lemma SliceKeeps(o: seq<Row>, lo: nat, hi: nat)
    requires lo <= hi <= |o|
    ensures SortedByKey(o) ==> SortedByKey(o[lo..hi])
    ensures UniqueIds(o) ==> UniqueIds(o[lo..hi])
  {
    var p := o[lo..hi];
    assert forall i :: 0 <= i < |p| ==> p[i] == o[lo + i];
  }

  /**
   * What `fetch_messages` returns, for a table whose `message_id`s are unique:
   * `total` counts the matching rows whatever `limit` and `offset` are; the
   * page holds only matching rows, each at most once, in ascending
   * `(ts, message_id)` order, and is the slice `[offset, offset + limit)`.
   */
  lemma FetchSpec(rows: seq<Row>, limit: nat, offset: nat, f: Filter)
    requires UniqueIds(rows)
    ensures FetchMessages(rows, limit, offset, f).1 == |set r | r in rows && Selected(f, r)|
    ensures var page := Page(Ordered(rows, f), limit, offset);
      && FetchMessages(rows, limit, offset, f).0 == Items(page)
      && |page| == Min(limit, Max(0, FetchMessages(rows, limit, offset, f).1 - offset))
      && (forall r :: r in page ==> r in rows && Selected(f, r))
      && SortedByKey(page)
      && UniqueIds(page)
  {
    var o := Ordered(rows, f);
    MatchingCount(rows, f);
    OrderedSelected(rows, f);
    PageKeeps(o, limit, offset);
  }

  /** The number of matching rows is the number of distinct rows meeting the filters. */
  lemma MatchingCount(rows: seq<Row>, f: Filter)
    requires UniqueIds(rows)
    ensures |Where(rows, Conditions(f))| == |set r | r in rows && Selected(f, r)|
  {
    var w := Where(rows, Conditions(f));
    DistinctCount(w);
    assert (set r | r in w) == (set r | r in rows && Selected(f, r)) by {
      forall r ensures r in w <==> r in rows && Selected(f, r) {
        ConditionsMeaning(f, r);
      }
    }
  }

  /** The ordered result holds exactly the rows meeting the filters. */
  lemma OrderedSelected(rows: seq<Row>, f: Filter)
    ensures forall r :: r in Ordered(rows, f) <==> r in rows && Selected(f, r)
  {
    var w := Where(rows, Conditions(f));
    var o := Ordered(rows, f);
    forall r ensures r in o <==> r in rows && Selected(f, r) {
      assert r in o <==> r in multiset(o);
      assert r in w <==> r in multiset(w);
      ConditionsMeaning(f, r);
    }
  }

  /** A page of an ordered sequence with unique ids is ordered, has unique ids and is drawn from it. */
  lemma PageKeeps(o: seq<Row>, limit: nat, offset: nat)
    ensures forall r :: r in Page(o, limit, offset) ==> r in o
    ensures SortedByKey(o) ==> SortedByKey(Page(o, limit, offset))
    ensures UniqueIds(o) ==> UniqueIds(Page(o, limit, offset))
  {
    if offset < |o| {
      SliceKeeps(o, offset, Min(|o|, offset + limit));
    }
  }

  /** The rows' arrival order does not matter: the same set of rows gives the same answer. */
  lemma FetchIgnoresInsertionOrder(rows1: seq<Row>, rows2: seq<Row>, limit: nat, offset: nat, f: Filter)
    requires UniqueIds(rows1)
    requires multiset(rows1) == multiset(rows2)
    ensures FetchMessages(rows1, limit, offset, f) == FetchMessages(rows2, limit, offset, f)
  {
    var c := Conditions(f);
    var w1, w2 := Where(rows1, c), Where(rows2, c);
    WherePermutation(rows1, rows2, c);
    assert |w1| == |multiset(w1)| == |multiset(w2)| == |w2|;
    SortedPermutationUnique(SortByKey(w1), SortByKey(w2));
  }

  // ---------------------------------------------------------------------------
  // Paging through the whole result

  /**
   * The pages a client collects by asking for `pageAt(offset)`,
   * `pageAt(offset + limit)`, ... for as long as the offset is below `total`.
   */
  function PagesFrom<T>(pageAt: nat -> seq<T>, total: nat, limit: nat, offset: nat): seq<T>
    requires limit >= 1
    decreases total - offset
  {
    if offset >= total then [] else pageAt(offset) + PagesFrom(pageAt, total, limit, offset + limit)
  }

  /** Collecting the LIMIT/OFFSET pages of a sequence gives back the sequence from `offset` on. */
  lemma {:induction false} PagesFromSlices<T>(pageAt: nat -> seq<T>, s: seq<T>, limit: nat, offset: nat)
    requires limit >= 1
    requires forall off: nat :: off < |s| ==> pageAt(off) == Page(s, limit, off)
    ensures offset >= |s| ==> PagesFrom(pageAt, |s|, limit, offset) == []
    ensures offset < |s| ==> PagesFrom(pageAt, |s|, limit, offset) == s[offset..]
    decreases |s| - offset
  {
    if offset < |s| {
      PagesFromSlices(pageAt, s, limit, offset + limit);
      var k := Min(|s|, offset + limit);
      assert pageAt(offset) == s[offset..k];
      if offset + limit >= |s| {
        assert s[offset..k] == s[offset..];
      } else {
        assert s[offset..k] + s[k..] == s[offset..];
      }
    }
  }

  /** Renaming the columns commutes with LIMIT/OFFSET. */
  lemma ItemsPage(o: seq<Row>, limit: nat, offset: nat)
    ensures Items(Page(o, limit, offset)) == Page(Items(o), limit, offset)
  {
    var l, r := Items(Page(o, limit, offset)), Page(Items(o), limit, offset);
    assert |l| == |r|;
    forall i | 0 <= i < |l| ensures l[i] == r[i] {
      assert l[i] == ItemOf(Page(o, limit, offset)[i]) == ItemOf(o[offset + i]);
    }
  }

  /**
   * What a client collects by calling `fetch_messages` with the offsets
   * `offset`, `offset + limit`, `offset + 2 * limit`, ... while the offset is
   * below the reported total, over an unchanged table.
   */
  function FetchPagesFrom(rows: seq<Row>, limit: nat, offset: nat, f: Filter): seq<JsonObject>
    requires limit >= 1
  {
    var total := FetchMessages(rows, limit, offset, f).1;
    PagesFrom((off: nat) => FetchMessages(rows, limit, off, f).0, total, limit, offset)
  }

  /**
   * Stepping `offset` by `limit` from 0 returns every matching row exactly
   * once, in `(ts, message_id)` order.
   */
  lemma PagingCoversAll(rows: seq<Row>, limit: nat, f: Filter)
    requires UniqueIds(rows) && limit >= 1
    ensures FetchPagesFrom(rows, limit, 0, f) == Items(Ordered(rows, f))
    ensures forall r :: multiset(Ordered(rows, f))[r] == if r in rows && Selected(f, r) then 1 else 0
  {
    var o := Ordered(rows, f);
    var items := Items(o);
    var pageAt := (off: nat) => FetchMessages(rows, limit, off, f).0;
    forall off: nat | off < |items| ensures pageAt(off) == Page(items, limit, off) {
      ItemsPage(o, limit, off);
    }
    assert FetchMessages(rows, limit, 0, f).1 == |items|;
    PagesFromSlices(pageAt, items, limit, 0);
    assert items[0..] == items;
    var c := Conditions(f);
    WhereMultiset(rows, c);
    forall r ensures multiset(o)[r] == if r in rows && Selected(f, r) then 1 else 0 {
      ConditionsMeaning(f, r);
      if r in rows {
        UniqueOccursOnce(rows, r);
      } else {
        assert r !in multiset(rows);
      }
    }
  }
}
