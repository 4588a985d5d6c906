/** getEntitys: the store's scan ordered by updated_at descending, then
    offset and limit. Rows with equal updated_at come in an order the store
    chooses, so the scan is defined by a choice the model does not fix. */
module Listing {
  import opened Entities

  /** Each record is at least as recent as every record after it. */
  ghost predicate NewestFirst(s: seq<Entity>) {
    forall i, j :: 0 <= i <= j < |s| ==> s[j].updatedAt <= s[i].updatedAt
  }

  function Min(a: nat, b: nat): nat { if a <= b then a else b }

  /** Places `x` into a newest-first sequence. */
  function Insert(x: Entity, s: seq<Entity>): (r: seq<Entity>)
    requires NewestFirst(s)
    ensures |r| == |s| + 1
    ensures NewestFirst(r)
    ensures forall e :: e in r <==> e == x || e in s
    ensures multiset(r) == multiset(s) + multiset{x}
  {
    if s == [] || s[0].updatedAt <= x.updatedAt then
      [x] + s
    else
      var tail := Insert(x, s[1..]);
      assert s == [s[0]] + s[1..];
      assert forall e :: e in tail ==> e.updatedAt <= s[0].updatedAt;
      [s[0]] + tail
  }

  /** `ORDER BY updated_at DESC` over the whole table: every stored record,
      newest first, and under consistent keys each record exactly once. */
  ghost function Scan(m: Store): (s: seq<Entity>)
    ensures |s| == |m|
    ensures NewestFirst(s)
    ensures forall e :: e in s <==> e in m.Values
    ensures Consistent(m) ==> forall k :: k in m ==> multiset(s)[m[k]] == 1
    decreases |m|
  {
    if m == map[] then
      []
    else
      var k :| k in m;
      var rest := m - {k};
      RemoveOne(m, k);
      var tail := Scan(rest);
      var s := Insert(m[k], tail);
      OnceEach(m, k, tail, s);
      s
  }

  /** Taking one key out of a table takes out one entry and, when its record
      is stored only there, exactly that record. */
  lemma RemoveOne(m: Store, k: Id)
    requires k in m
    ensures |m - {k}| == |m| - 1
    ensures forall e :: e in m.Values <==> e == m[k] || e in (m - {k}).Values
  {
    var rest := m - {k};
    assert rest.Keys == m.Keys - {k};
    forall e | e in m.Values ensures e == m[k] || e in rest.Values {
      var j :| j in m && m[j] == e;
      if j != k { assert rest[j] == e; }
    }
  }

  /** The step of Scan that keeps every record of a consistent table once. */
  lemma OnceEach(m: Store, k: Id, tail: seq<Entity>, s: seq<Entity>)
    requires k in m
    requires forall e :: e in tail <==> e in (m - {k}).Values
    requires Consistent(m - {k}) ==> forall j :: j in m - {k} ==> multiset(tail)[(m - {k})[j]] == 1
    requires multiset(s) == multiset(tail) + multiset{m[k]}
    ensures Consistent(m) ==> forall j :: j in m ==> multiset(s)[m[j]] == 1
  {
    if !Consistent(m) { return; }
    var rest := m - {k};
    assert Consistent(rest);
    assert m[k] !in tail;
    forall j | j in m ensures multiset(s)[m[j]] == 1 {
      if j != k { assert m[j] == rest[j] && m[j] != m[k]; }
    }
  }

  /** `OFFSET offset LIMIT limit` over a scan. */
  function Page(s: seq<Entity>, offset: nat, limit: nat): (p: seq<Entity>)
    ensures |p| <= limit
    ensures |p| == if offset < |s| then Min(limit, |s| - offset) else 0
    ensures forall i :: 0 <= i < |p| ==> p[i] == s[offset + i]
  {
    if offset >= |s| then [] else s[offset .. offset + Min(limit, |s| - offset)]
  }

  /** getEntitys: at most `limit` stored records, newest first, after the
      first `offset` of the scan; the empty sequence when nothing is left. */
  ghost function List(m: Store, offset: nat, limit: nat): (page: seq<Entity>)
    ensures |page| <= limit
    ensures offset < |m| ==> |page| == Min(limit, |m| - offset)
    ensures offset < |m| ==> page == Scan(m)[offset .. offset + Min(limit, |m| - offset)]
    ensures offset >= |m| ==> page == []
    ensures NewestFirst(page)
    ensures forall e :: e in page ==> e in m.Values
  {
    var s := Scan(m);
    var page := Page(s, offset, limit);
    var hi := if offset < |s| then offset + Min(limit, |s| - offset) else offset;
    SliceOfScan(m, s, page, offset, hi);
    page
  }

  /** A stretch of the scan is newest first and holds only stored records. */
  lemma SliceOfScan(m: Store, s: seq<Entity>, page: seq<Entity>, lo: nat, hi: nat)
    requires NewestFirst(s) && forall e :: e in s ==> e in m.Values
    requires lo <= hi && (lo < |s| ==> hi <= |s|)
    requires |page| == (if lo < |s| then hi - lo else 0)
    requires forall i :: 0 <= i < |page| ==> page[i] == s[lo + i]
    ensures lo < |s| ==> page == s[lo .. hi]
    ensures NewestFirst(page)
    ensures forall e :: e in page ==> e in m.Values
  {
  }

  /** The first page holds the newest records: no record left off it is more
      recent than any record on it. */
  lemma FirstPageIsNewest(m: Store, limit: nat)
    ensures forall e, x :: e in List(m, 0, limit) && x in m.Values && x !in List(m, 0, limit) ==>
              x.updatedAt <= e.updatedAt
  {
  }

  /** Paging forward never goes back in time: every record of the page that
      follows a page is no more recent than any record on it. */
  lemma NextPageIsOlder(m: Store, offset: nat, limit: nat, nextLimit: nat)
    ensures forall e, x :: e in List(m, offset, limit) && x in List(m, offset + limit, nextLimit) ==>
              x.updatedAt <= e.updatedAt
  {
  }

  /** Listing two records from three with distinct updated_at, from offset
      0, gives exactly the two most recently updated, newest first. */
  lemma TwoMostRecentOfThree(a: Entity, b: Entity, c: Entity)
    requires a.id != b.id && b.id != c.id && a.id != c.id
    requires a.title != "" && b.title != "" && c.title != ""
    requires a.updatedAt > b.updatedAt > c.updatedAt
    ensures List(map[a.id := a, b.id := b, c.id := c], 0, 2) == [a, b]
  {
    var m := map[a.id := a, b.id := b, c.id := c];
    ThreeRows(a, b, c);
    var s := Scan(m);
    assert multiset(s)[m[a.id]] == 1 && multiset(s)[m[b.id]] == 1;
    LatestFirst(s, a, b, c);
  }

  /** The table holding three records under their distinct ids. */
  lemma ThreeRows(a: Entity, b: Entity, c: Entity)
    requires a.id != b.id && b.id != c.id && a.id != c.id
    requires a.title != "" && b.title != "" && c.title != ""
    ensures var m := map[a.id := a, b.id := b, c.id := c];
            && Consistent(m) && |m| == 3 && m.Values == {a, b, c}
            && m[a.id] == a && m[b.id] == b
  {
    var m := map[a.id := a, b.id := b, c.id := c];
    assert m.Keys == {a.id, b.id, c.id};
    forall e | e in m.Values ensures e == a || e == b || e == c {
      var j :| j in m && m[j] == e;
    }
    assert a == m[a.id] && b == m[b.id] && c == m[c.id];
  }

  /** A newest-first sequence holding each of three records exactly once,
      and nothing else, lists them in order of their updated_at. */
  lemma LatestFirst(s: seq<Entity>, a: Entity, b: Entity, c: Entity)
    requires |s| == 3 && NewestFirst(s)
    requires forall e :: e in s <==> e == a || e == b || e == c
    requires multiset(s)[a] == 1 && multiset(s)[b] == 1
    requires a.updatedAt > b.updatedAt > c.updatedAt
    ensures s[..2] == [a, b]
  {
    assert s == [s[0], s[1], s[2]];
    assert s[0] == a by {
      assert a in s && s[0] in s;
      var i :| 0 <= i < 3 && s[i] == a;
      assert a.updatedAt <= s[0].updatedAt;
    }
    assert s[1] == b by {
      assert b in s && s[1] in s;
      var i :| 0 <= i < 3 && s[i] == b;
      assert i != 0;
      assert b.updatedAt <= s[1].updatedAt;
    }
  }
}
