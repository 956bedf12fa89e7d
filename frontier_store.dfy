/**
 * `FrontierStore`: the queue of URLs still to be crawled. The `frontier_queue` table is
 * modelled as an in-memory sequence of rows in insertion order, together with the next
 * `AUTOINCREMENT` id and a logical clock standing for `datetime('now')`.
 */
module FrontierStore {
  import opened Wrappers
  import opened UrlNormalizer

  /** A row of `frontier_queue`. */
  datatype Entry = Entry(id: nat, url: string, addedAt: nat, claimedAt: Option<nat>)

  /** `FrontierStore.FrontierUrl`: what a claim hands back. */
  datatype FrontierUrl = FrontierUrl(id: nat, url: string)

  /** The rows in insertion order and the id the next inserted row receives. */
  datatype Table = Table(entries: seq<Entry>, nextId: nat)

  /** What `getNextUrl` returns, and the table after it. */
  datatype Claim = Claim(next: Option<FrontierUrl>, table: Table)

  predicate HasUrl(entries: seq<Entry>, url: string) {
    exists i :: 0 <= i < |entries| && entries[i].url == url
  }

  predicate IsClaimed(e: Entry) {
    e.claimedAt.Some?
  }

  /** An earlier row: smaller id, another url (`UNIQUE`), added no later. */
  predicate Before(a: Entry, b: Entry) {
    a.id < b.id && a.url != b.url && a.addedAt <= b.addedAt
  }

  predicate Ordered(entries: seq<Entry>) {
    forall i, j :: 0 <= i < j < |entries| ==> Before(entries[i], entries[j])
  }

  /** A row's timestamps and id: an id already issued, and no time in the future or before the insertion. */
  predicate Stamped(e: Entry, nextId: nat, clock: nat) {
    && 0 < e.id < nextId
    && e.addedAt <= clock
    && (e.claimedAt.Some? ==> e.addedAt <= e.claimedAt.value <= clock)
  }

  predicate AllStamped(entries: seq<Entry>, nextId: nat, clock: nat) {
    forall i :: 0 <= i < |entries| ==> Stamped(entries[i], nextId, clock)
  }

  /** A url that is its own normal form. */
  predicate IsNormal(url: string) {
    Normalize(Some(url)) == Some(url)
  }

  predicate AllNormal(entries: seq<Entry>) {
    forall i :: 0 <= i < |entries| ==> IsNormal(entries[i].url)
  }

  predicate Invariant(t: Table, clock: nat) {
    && 1 <= t.nextId
    && Ordered(t.entries)
    && AllStamped(t.entries, t.nextId, clock)
    && AllNormal(t.entries)
  }

  // ---------------------------------------------------------------------------------
  // The table operations as functions of the table

  /**
   * `addUrl`: `INSERT OR IGNORE` of the normalized url. A `null` url violates `NOT NULL`
   * and a present one violates `UNIQUE`; either way nothing is inserted. The model also
   * leaves the id counter alone then, a choice: the table makes no promise about it.
   */
  function Insert(t: Table, url: Option<string>, now: nat): Table {
    match Normalize(url)
    case None => t
    case Some(n) => InsertRow(t, n, now)
  }

  /** `INSERT OR IGNORE` of a url that is not `null`. */
  function InsertRow(t: Table, n: string, now: nat): Table {
    if HasUrl(t.entries, n) then t
    else Table(t.entries + [Entry(t.nextId, n, now, None)], t.nextId + 1)
  }

  /** `addUrls`: the rows of the batch inserted one after the other, in list order. */
  function InsertAll(t: Table, urls: seq<Option<string>>, now: nat): Table
    decreases |urls|
  {
    if urls == [] then t else InsertAll(Insert(t, urls[0], now), urls[1..], now)
  }

  /**
   * The row of `SELECT id ... WHERE claimed_at IS NULL ORDER BY added_at ASC LIMIT 1`.
   * Rows added in the same second tie; the first of them in table order is taken.
   */
  function OldestUnclaimed(entries: seq<Entry>): (r: Option<nat>)
    ensures r.Some? ==> r.value < |entries| && !IsClaimed(entries[r.value])
    ensures r.Some? ==> forall j :: 0 <= j < |entries| && !IsClaimed(entries[j]) ==>
                          entries[r.value].addedAt <= entries[j].addedAt
    ensures r.Some? ==> forall j :: 0 <= j < r.value && !IsClaimed(entries[j]) ==>
                          entries[r.value].addedAt < entries[j].addedAt
    ensures r.None? <==> forall j :: 0 <= j < |entries| ==> IsClaimed(entries[j])
  {
    if entries == [] then None
    else
      var rest := OldestUnclaimed(entries[1..]);
      if IsClaimed(entries[0]) then
        match rest
        case None => None
        case Some(k) => Some(k + 1)
      else
        match rest
        case None => Some(0)
        case Some(k) => if entries[k + 1].addedAt < entries[0].addedAt then Some(k + 1) else Some(0)
  }

  /** `getNextUrl`: sets `claimed_at` of the oldest unclaimed row and returns its id and url. */
  function Next(t: Table, now: nat): Claim {
    match OldestUnclaimed(t.entries)
    case None => Claim(None, t)
    case Some(k) =>
      var e := t.entries[k];
      Claim(Some(FrontierUrl(e.id, e.url)), Table(t.entries[k := e.(claimedAt := Some(now))], t.nextId))
  }

  /** `SELECT COUNT(*) ... WHERE claimed_at IS NOT NULL`. */
  function CountClaimed(entries: seq<Entry>): nat {
    if entries == [] then 0 else (if IsClaimed(entries[0]) then 1 else 0) + CountClaimed(entries[1..])
  }

  /** `removeUrl`: `DELETE ... WHERE id = ?`, keeping the other rows in order. */
  function Remove(entries: seq<Entry>, id: int): (r: seq<Entry>)
    ensures |r| <= |entries|
    ensures forall e :: e in r <==> e in entries && e.id != id
  {
    if entries == [] then []
    else (if entries[0].id == id then [] else [entries[0]]) + Remove(entries[1..], id)
  }

  // ---------------------------------------------------------------------------------
  // Properties of the operations

  /** The invariant holds for the empty table. */
  lemma EmptyInvariant(clock: nat)
    ensures Invariant(Table([], 1), clock)
  {
  }

  /** The invariant survives the clock moving forward. */
  lemma InvariantLater(t: Table, clock: nat, later: nat)
    requires Invariant(t, clock) && clock <= later
    ensures Invariant(t, later)
  {
    forall i | 0 <= i < |t.entries| ensures Stamped(t.entries[i], t.nextId, later) {
      assert Stamped(t.entries[i], t.nextId, clock);
    }
  }

  /** Every row of `s` comes after `e`. */
  predicate AllAfter(e: Entry, s: seq<Entry>) {
    forall j :: 0 <= j < |s| ==> Before(e, s[j])
  }

  /** A table is ordered exactly when its first row precedes the others and the others are ordered. */
  lemma OrderedCons(e: Entry, s: seq<Entry>)
    ensures Ordered([e] + s) <==> AllAfter(e, s) && Ordered(s)
  {
    var es := [e] + s;
    if AllAfter(e, s) && Ordered(s) {
      forall i, j | 0 <= i < j < |es| ensures Before(es[i], es[j]) {
        assert es[j] == s[j - 1];
        if i == 0 {
          assert es[0] == e;
        } else {
          assert es[i] == s[i - 1];
        }
      }
    }
    if Ordered(es) {
      forall i, j | 0 <= i < j < |s| ensures Before(s[i], s[j]) {
        assert s[i] == es[i + 1] && s[j] == es[j + 1];
      }
      forall j | 0 <= j < |s| ensures Before(e, s[j]) {
        assert es[0] == e && s[j] == es[j + 1];
        assert Before(es[0], es[j + 1]);
      }
    }
  }

  lemma OrderedSplit(entries: seq<Entry>)
    requires entries != []
    ensures Ordered(entries) <==> AllAfter(entries[0], entries[1..]) && Ordered(entries[1..])
  {
    assert [entries[0]] + entries[1..] == entries;
    OrderedCons(entries[0], entries[1..]);
  }

  /** A row that comes after all rows of an ordered table can be appended to it. */
  lemma AppendOrdered(entries: seq<Entry>, e: Entry)
    requires Ordered(entries)
    requires forall i :: 0 <= i < |entries| ==> Before(entries[i], e)
    ensures Ordered(entries + [e])
  {
    var es := entries + [e];
    forall i, j | 0 <= i < j < |es| ensures Before(es[i], es[j]) {
      assert es[i] == entries[i];
      if j < |entries| {
        assert es[j] == entries[j];
      }
    }
  }

  /** In an ordered table no url is stored twice. */
  lemma OrderedUnique(entries: seq<Entry>, n: string)
    requires Ordered(entries)
    ensures forall i, j ::
              (0 <= i < |entries| && 0 <= j < |entries| && entries[i].url == n && entries[j].url == n) ==> i == j
  {
  }

  /** `INSERT OR IGNORE` of a url in normal form keeps the invariant. */
  lemma InsertRowPreservesInvariant(t: Table, n: string, now: nat)
    requires Invariant(t, now) && IsNormal(n)
    ensures Invariant(InsertRow(t, n, now), now)
  {
    if !HasUrl(t.entries, n) {
      var e := Entry(t.nextId, n, now, None);
      forall i | 0 <= i < |t.entries| ensures Before(t.entries[i], e) {
        assert Stamped(t.entries[i], t.nextId, now);
      }
      AppendOrdered(t.entries, e);
      var es := t.entries + [e];
      forall i | 0 <= i < |es| ensures Stamped(es[i], t.nextId + 1, now) && IsNormal(es[i].url) {
        if i < |t.entries| {
          assert es[i] == t.entries[i];
          assert Stamped(t.entries[i], t.nextId, now);
        }
      }
    }
  }

  lemma InsertPreservesInvariant(t: Table, url: Option<string>, now: nat)
    requires Invariant(t, now)
    ensures Invariant(Insert(t, url, now), now)
  {
    if url.Some? {
      NormalizeIdempotent(url);
      InsertRowPreservesInvariant(t, Normalize(url).value, now);
    }
  }

  /** A `null` url inserts nothing. */
  lemma InsertNull(t: Table, now: nat)
    ensures Insert(t, None, now) == t
  {
  }

  /** `INSERT OR IGNORE` keeps every row and leaves the url stored. */
  lemma InsertRowStores(t: Table, n: string, now: nat)
    ensures t.entries <= InsertRow(t, n, now).entries
    ensures HasUrl(InsertRow(t, n, now).entries, n)
  {
    if !HasUrl(t.entries, n) {
      assert InsertRow(t, n, now).entries[|t.entries|].url == n;
    }
  }

  /** A url stored in a table is stored in every extension of it. */
  lemma HasUrlPrefix(a: seq<Entry>, b: seq<Entry>, n: string)
    requires a <= b && HasUrl(a, n)
    ensures HasUrl(b, n)
  {
    var k :| 0 <= k < |a| && a[k].url == n;
    assert b[k] == a[k];
  }

  /**
   * Inserting keeps every existing row as it was. Afterwards the normalized url is stored in
   * exactly one row; if that row is new it is the last one, unclaimed, added now, with the id
   * `nextId`, which exceeds every id issued, and `nextId` moves past it.
   */
  lemma InsertStoresNormalized(t: Table, url: Option<string>, now: nat)
    requires Invariant(t, now) && url.Some?
    ensures var r := Insert(t, url, now); var n := Normalize(url).value;
            && t.entries <= r.entries
            && HasUrl(r.entries, n)
            && (forall i, j ::
                  (0 <= i < |r.entries| && 0 <= j < |r.entries| && r.entries[i].url == n && r.entries[j].url == n)
                  ==> i == j)
            && (|r.entries| == |t.entries| || (
                  && |r.entries| == |t.entries| + 1
                  && !HasUrl(t.entries, n)
                  && r.entries[|t.entries|] == Entry(t.nextId, n, now, None)
                  && (forall i :: 0 <= i < |t.entries| ==> t.entries[i].id < t.nextId)
                  && r.nextId == t.nextId + 1))
            && (|r.entries| == |t.entries| ==> r == t)
  {
    var n := Normalize(url).value;
    NormalizeIdempotent(url);
    InsertRowPreservesInvariant(t, n, now);
    var r := InsertRow(t, n, now);
    InsertRowStores(t, n, now);
    OrderedUnique(r.entries, n);
    forall i | 0 <= i < |t.entries| ensures t.entries[i].id < t.nextId {
      assert Stamped(t.entries[i], t.nextId, now);
    }
  }

  /** Adding a url whose normal form is already stored, for example the same url twice, changes nothing. */
  lemma InsertSameNormalForm(t: Table, a: Option<string>, b: Option<string>, now: nat, later: nat)
    requires Normalize(a) == Normalize(b)
    ensures Insert(Insert(t, a, now), b, later) == Insert(t, a, now)
  {
    if a.Some? {
      InsertRowStores(t, Normalize(a).value, now);
    }
  }

  /** Inserting never touches a claim: a row claimed before is claimed after. */
  lemma InsertKeepsClaims(t: Table, url: Option<string>, now: nat)
    ensures t.entries <= Insert(t, url, now).entries
  {
    if url.Some? {
      InsertRowStores(t, Normalize(url).value, now);
    }
  }

  /** An empty batch changes nothing. */
  lemma InsertAllEmpty(t: Table, now: nat)
    ensures InsertAll(t, [], now) == t
  {
  }

  /** A batch is its first part followed by its second part. */
  lemma {:induction false} InsertAllConcat(t: Table, a: seq<Option<string>>, b: seq<Option<string>>, now: nat)
    ensures InsertAll(t, a + b, now) == InsertAll(InsertAll(t, a, now), b, now)
    decreases |a|
  {
    if a == [] {
      assert a + b == b;
    } else {
      assert (a + b)[0] == a[0];
      assert (a + b)[1..] == a[1..] + b;
      InsertAllConcat(Insert(t, a[0], now), a[1..], b, now);
    }
  }

  lemma {:induction false} InsertAllPreservesInvariant(t: Table, urls: seq<Option<string>>, now: nat)
    requires Invariant(t, now)
    ensures Invariant(InsertAll(t, urls, now), now)
    decreases |urls|
  {
    if urls != [] {
      InsertPreservesInvariant(t, urls[0], now);
      InsertAllPreservesInvariant(Insert(t, urls[0], now), urls[1..], now);
    }
  }

  /** A batch keeps every row stored before it. */
  lemma {:induction false} InsertAllKeeps(t: Table, urls: seq<Option<string>>, now: nat)
    ensures t.entries <= InsertAll(t, urls, now).entries
    decreases |urls|
  {
    if urls != [] {
      InsertKeepsClaims(t, urls[0], now);
      InsertAllKeeps(Insert(t, urls[0], now), urls[1..], now);
    }
  }

  /** A batch is the urls before position `i`, then the url at `i`, then the rest. */
  lemma InsertAllSplitAt(t: Table, urls: seq<Option<string>>, i: nat, now: nat)
    requires i < |urls|
    ensures InsertAll(t, urls, now) ==
            InsertAll(Insert(InsertAll(t, urls[..i], now), urls[i], now), urls[i + 1..], now)
  {
    assert urls == urls[..i] + urls[i..];
    InsertAllConcat(t, urls[..i], urls[i..], now);
    assert urls[i..][0] == urls[i] && urls[i..][1..] == urls[i + 1..];
  }

  /** After a batch the url at position `i` is stored in its normal form. */
  lemma InsertAllStoresOne(t: Table, urls: seq<Option<string>>, i: nat, now: nat)
    requires i < |urls| && urls[i].Some?
    ensures HasUrl(InsertAll(t, urls, now).entries, Normalize(urls[i]).value)
  {
    var n := Normalize(urls[i]).value;
    var t1 := Insert(InsertAll(t, urls[..i], now), urls[i], now);
    InsertAllSplitAt(t, urls, i, now);
    InsertRowStores(InsertAll(t, urls[..i], now), n, now);
    InsertAllKeeps(t1, urls[i + 1..], now);
    HasUrlPrefix(t1.entries, InsertAll(t1, urls[i + 1..], now).entries, n);
  }

  /** After a batch every row stored before is still there, and every url of the batch is stored in its normal form. */
  lemma InsertAllStoresEach(t: Table, urls: seq<Option<string>>, now: nat)
    ensures t.entries <= InsertAll(t, urls, now).entries
    ensures forall i :: 0 <= i < |urls| && urls[i].Some? ==>
              HasUrl(InsertAll(t, urls, now).entries, Normalize(urls[i]).value)
  {
    InsertAllKeeps(t, urls, now);
    forall i | 0 <= i < |urls| && urls[i].Some?
      ensures HasUrl(InsertAll(t, urls, now).entries, Normalize(urls[i]).value)
    {
      InsertAllStoresOne(t, urls, i, now);
    }
  }

  /** Under the invariant the oldest unclaimed row is simply the first unclaimed row. */
  lemma OldestIsFirstUnclaimed(t: Table, clock: nat)
    requires Invariant(t, clock)
    ensures var r := OldestUnclaimed(t.entries);
            r.Some? ==> forall j :: 0 <= j < r.value ==> IsClaimed(t.entries[j])
  {
    var r := OldestUnclaimed(t.entries);
    if r.Some? {
      forall j | 0 <= j < r.value ensures IsClaimed(t.entries[j]) {
        assert Before(t.entries[j], t.entries[r.value]);
      }
    }
  }

  /** A claim comes back empty exactly when every row is claimed, and then nothing changes. */
  lemma NextNoneIff(t: Table, now: nat)
    ensures Next(t, now).next.None? <==> forall j :: 0 <= j < |t.entries| ==> IsClaimed(t.entries[j])
    ensures Next(t, now).next.None? ==> Next(t, now).table == t
  {
  }

  /**
   * A successful claim returns the id and url of an unclaimed row with the smallest
   * `added_at`, marks that row claimed now, and leaves every other row and the id counter alone.
   */
  lemma NextClaimsOldest(t: Table, now: nat)
    requires Next(t, now).next.Some?
    ensures var c := Next(t, now);
            exists k :: 0 <= k < |t.entries| && !IsClaimed(t.entries[k])
              && c.next.value == FrontierUrl(t.entries[k].id, t.entries[k].url)
              && (forall j :: 0 <= j < |t.entries| && !IsClaimed(t.entries[j]) ==>
                    t.entries[k].addedAt <= t.entries[j].addedAt)
              && |c.table.entries| == |t.entries|
              && c.table.entries[k] == t.entries[k].(claimedAt := Some(now))
              && (forall j :: 0 <= j < |t.entries| && j != k ==> c.table.entries[j] == t.entries[j])
              && c.table.nextId == t.nextId
  {
    var k := OldestUnclaimed(t.entries).value;
    assert !IsClaimed(t.entries[k]);
  }

  /** Claiming row `k` at time `now` keeps the invariant when `now` is the clock. */
  lemma ClaimPreservesInvariant(t: Table, k: nat, now: nat)
    requires Invariant(t, now) && k < |t.entries|
    ensures Invariant(Table(t.entries[k := t.entries[k].(claimedAt := Some(now))], t.nextId), now)
  {
    var es := t.entries[k := t.entries[k].(claimedAt := Some(now))];
    forall i, j | 0 <= i < j < |es| ensures Before(es[i], es[j]) {
      assert Before(t.entries[i], t.entries[j]);
    }
    forall i | 0 <= i < |es| ensures Stamped(es[i], t.nextId, now) && IsNormal(es[i].url) {
      assert Stamped(t.entries[i], t.nextId, now);
    }
  }

  lemma NextPreservesInvariant(t: Table, now: nat)
    requires Invariant(t, now)
    ensures Invariant(Next(t, now).table, now)
  {
    var k := OldestUnclaimed(t.entries);
    if k.Some? {
      ClaimPreservesInvariant(t, k.value, now);
    }
  }

  /** A row that is already claimed is never handed out. */
  lemma ClaimedNeverReturned(t: Table, clock: nat, now: nat, i: nat)
    requires Invariant(t, clock) && i < |t.entries| && IsClaimed(t.entries[i])
    ensures Next(t, now).next.None? || Next(t, now).next.value.id != t.entries[i].id
  {
    match OldestUnclaimed(t.entries)
    case None =>
    case Some(k) =>
      if k < i {
        assert Before(t.entries[k], t.entries[i]);
      } else if i < k {
        assert Before(t.entries[i], t.entries[k]);
      }
  }

  /** Two claims in a row never return the same row. */
  lemma NextTwiceDistinct(t: Table, now: nat, later: nat)
    requires Invariant(t, now) && now <= later
    ensures var c1 := Next(t, now); var c2 := Next(c1.table, later);
            c1.next.Some? && c2.next.Some? ==> c1.next.value.id != c2.next.value.id
  {
    var c1 := Next(t, now);
    if c1.next.Some? {
      var k := OldestUnclaimed(t.entries).value;
      NextPreservesInvariant(t, now);
      assert IsClaimed(c1.table.entries[k]);
      ClaimedNeverReturned(c1.table, now, later, k);
    }
  }

  /** Counting claimed rows finds some exactly when some row is claimed. */
  lemma {:induction false} CountClaimedPositive(entries: seq<Entry>)
    ensures CountClaimed(entries) > 0 <==> exists i :: 0 <= i < |entries| && IsClaimed(entries[i])
  {
    if entries != [] {
      CountClaimedPositive(entries[1..]);
      if exists i :: 0 <= i < |entries[1..]| && IsClaimed(entries[1..][i]) {
        var i :| 0 <= i < |entries[1..]| && IsClaimed(entries[1..][i]);
        assert IsClaimed(entries[i + 1]);
      }
      if exists i :: 0 <= i < |entries| && IsClaimed(entries[i]) {
        var i :| 0 <= i < |entries| && IsClaimed(entries[i]);
        if i > 0 {
          assert IsClaimed(entries[1..][i - 1]);
        }
      }
    }
  }

  /** Removing an id that no row has changes nothing. */
  lemma {:induction false} RemoveUnknown(entries: seq<Entry>, id: int)
    requires forall i :: 0 <= i < |entries| ==> entries[i].id != id
    ensures Remove(entries, id) == entries
  {
    if entries != [] {
      RemoveUnknown(entries[1..], id);
      assert [entries[0]] + entries[1..] == entries;
    }
  }

  /** Removing an id that one row has shortens the table by exactly that row. */
  lemma {:induction false} RemoveKnown(entries: seq<Entry>, k: nat)
    requires Ordered(entries) && k < |entries|
    ensures Remove(entries, entries[k].id) == entries[..k] + entries[k + 1..]
  {
    var id := entries[k].id;
    OrderedSplit(entries);
    if k == 0 {
      forall i | 0 <= i < |entries[1..]| ensures entries[1..][i].id != id {
        assert Before(entries[0], entries[1..][i]);
      }
      RemoveUnknown(entries[1..], id);
    } else {
      assert Before(entries[0], entries[1..][k - 1]);
      RemoveKnown(entries[1..], k - 1);
      SpliceCons(entries, k);
    }
  }

  lemma SpliceCons(entries: seq<Entry>, k: nat)
    requires 0 < k < |entries|
    ensures [entries[0]] + (entries[1..][..k - 1] + entries[1..][k..]) == entries[..k] + entries[k + 1..]
  {
    assert entries[1..][..k - 1] == entries[1..k];
    assert entries[1..][k..] == entries[k + 1..];
    assert [entries[0]] + entries[1..k] == entries[..k];
  }

  /** Removing rows keeps every remaining row after anything all rows came after. */
  lemma RemoveKeepsAfter(e: Entry, entries: seq<Entry>, id: int)
    requires AllAfter(e, entries)
    ensures AllAfter(e, Remove(entries, id))
  {
    var r := Remove(entries, id);
    forall j | 0 <= j < |r| ensures Before(e, r[j]) {
      assert r[j] in entries;
    }
  }

  lemma {:induction false} RemovePreservesOrder(entries: seq<Entry>, id: int)
    requires Ordered(entries)
    ensures Ordered(Remove(entries, id))
  {
    if entries != [] {
      OrderedSplit(entries);
      RemovePreservesOrder(entries[1..], id);
      if entries[0].id != id {
        RemoveKeepsAfter(entries[0], entries[1..], id);
        OrderedCons(entries[0], Remove(entries[1..], id));
      }
    }
  }

  lemma RemovePreservesInvariant(t: Table, id: int, clock: nat)
    requires Invariant(t, clock)
    ensures Invariant(Table(Remove(t.entries, id), t.nextId), clock)
  {
    RemovePreservesOrder(t.entries, id);
    var r := Remove(t.entries, id);
    forall i | 0 <= i < |r| ensures Stamped(r[i], t.nextId, clock) && IsNormal(r[i].url) {
      assert r[i] in t.entries;
    }
  }

  // ---------------------------------------------------------------------------------
  // The store

  /** The `frontier_queue` table of one database, with the database's clock. */
  class Frontier {
    var entries: seq<Entry>
    var nextId: nat
    var clock: nat

    function State(): Table
      reads this
    {
      Table(entries, nextId)
    }

    predicate Valid()
      reads this
    {
      Invariant(State(), clock)
    }

    /** `createTable` on an empty database. */
    constructor ()
      ensures Valid()
      ensures entries == [] && nextId == 1 && clock == 0
    {
      entries := [];
      nextId := 1;
      clock := 0;
    }

    /** Time passes. */
    method Tick()
      requires Valid()
      modifies this
      ensures Valid()
      ensures entries == old(entries) && nextId == old(nextId) && clock == old(clock) + 1
    {
      clock := clock + 1;
      InvariantLater(State(), clock - 1, clock);
    }

    /** `FrontierStore.addUrl`. */
    method AddUrl(url: Option<string>)
      requires Valid()
      modifies this
      ensures Valid()
      ensures State() == Insert(old(State()), url, clock) && clock == old(clock)
    {
      var normalized := Normalize(url);
      if normalized.Some? {
        NormalizeIdempotent(url);
        InsertOrIgnore(normalized.value);
      }
    }

    /** The `INSERT OR IGNORE` statement with a url that is not `null`. */
    method InsertOrIgnore(n: string)
      requires Valid() && IsNormal(n)
      modifies this
      ensures Valid()
      ensures State() == InsertRow(old(State()), n, clock) && clock == old(clock)
    {
      ghost var before := State();
      InsertRowPreservesInvariant(before, n, clock);
      if !HasUrl(entries, n) {
        entries := entries + [Entry(nextId, n, clock, None)];
        nextId := nextId + 1;
      }
      assert State() == InsertRow(before, n, clock);
    }

    /** `FrontierStore.addUrls`: a `null` or empty list does nothing. */
    method AddUrls(urls: Option<seq<Option<string>>>)
      requires Valid()
      modifies this
      ensures Valid()
      ensures urls.None? ==> State() == old(State())
      ensures urls.Some? ==> State() == InsertAll(old(State()), urls.value, clock)
      ensures clock == old(clock)
    {
      if urls.None? || urls.value == [] {
        return;
      }
      var list := urls.value;
      var i := 0;
      while i < |list|
        invariant 0 <= i <= |list|
        invariant Valid() && clock == old(clock)
        invariant InsertAll(State(), list[i..], clock) == InsertAll(old(State()), list, clock)
      {
        assert list[i..][0] == list[i] && list[i..][1..] == list[i + 1..];
        AddUrl(list[i]);
        i := i + 1;
      }
    }

    /** `FrontierStore.getNextUrl`: the claim, done atomically. */
    method GetNextUrl() returns (r: Option<FrontierUrl>)
      requires Valid()
      modifies this
      ensures Valid()
      ensures Claim(r, State()) == Next(old(State()), clock) && clock == old(clock)
    {
      NextPreservesInvariant(State(), clock);
      var k := OldestUnclaimed(entries);
      if k.None? {
        return None;
      }
      var e := entries[k.value];
      entries := entries[k.value := e.(claimedAt := Some(clock))];
      r := Some(FrontierUrl(e.id, e.url));
    }

    /** `FrontierStore.hasClaimedUrls`. */
    method HasClaimedUrls() returns (b: bool)
      ensures b <==> exists i :: 0 <= i < |entries| && IsClaimed(entries[i])
    {
      var count := CountClaimed(entries);
      CountClaimedPositive(entries);
      b := count > 0;
    }

    /** `FrontierStore.removeUrl`. */
    method RemoveUrl(id: int)
      requires Valid()
      modifies this
      ensures Valid()
      ensures entries == Remove(old(entries), id) && nextId == old(nextId) && clock == old(clock)
    {
      RemovePreservesInvariant(State(), id, clock);
      entries := Remove(entries, id);
    }
  }
}
