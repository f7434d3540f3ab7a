/** The version catalog of src/db.rs: the `mods` table, the insert-if-absent
    that registers a version, the distinct-id listing, and the three
    resolution queries that select one id's rows greatest version first and
    keep the ones a requirement matches. */
module Db {
  import opened Prelude
  import opened SemVer
  import opened Sorting
  import opened Streams

  /** A published mod as the API returns it. */
  datatype Mod = Mod(id: string, version: Version)

  /** A row of the `mods` table. SQLite integers are signed 64-bit. */
  datatype DbMod = DbMod(id: string, major: i64, minor: i64, patch: i64)

  /** The rows of the `mods` table, as a set. This assumes the table has a
      unique constraint over all four columns, so that `INSERT OR IGNORE`
      skips exactly an identical row; the schema is not part of this model. */
  type Catalog = set<DbMod>

  /** `From<DbMod> for Mod`: each column is read back `as u64`, and the
      version has no pre-release or build data. */
  function FromDbMod(m: DbMod): (r: Mod)
    ensures r.id == m.id && IsPlain(r.version)
    ensures m.major >= 0 && m.minor >= 0 && m.patch >= 0 ==> Core(r.version) == Triple(m.major, m.minor, m.patch)
  {
    CastsInverse(0, m.major);
    CastsInverse(0, m.minor);
    CastsInverse(0, m.patch);
    Mod(m.id, Plain(I64AsU64(m.major), I64AsU64(m.minor), I64AsU64(m.patch)))
  }

  /** The row `insert` writes for `id` at `v`: each component cast `as i64`.
      Pre-release and build data are not stored, and reading the row back
      gives the plain version. */
  function RowOf(id: string, v: Version): (row: DbMod)
    ensures row.id == id
    ensures FromDbMod(row) == Mod(id, Plain(v.major, v.minor, v.patch))
    ensures (v.major < I64_LIMIT && v.minor < I64_LIMIT && v.patch < I64_LIMIT)
              ==> (row.major >= 0 && row.minor >= 0 && row.patch >= 0)
  {
    CastsInverse(v.major, 0);
    CastsInverse(v.minor, 0);
    CastsInverse(v.patch, 0);
    DbMod(id, U64AsI64(v.major), U64AsI64(v.minor), U64AsI64(v.patch))
  }

  /** Reading a row and writing it again gives the same row: no stored
      information is lost by the two casts. */
  lemma RowRoundTrip(m: DbMod)
    ensures RowOf(FromDbMod(m).id, FromDbMod(m).version) == m
  {
    CastsInverse(0, m.major);
    CastsInverse(0, m.minor);
    CastsInverse(0, m.patch);
  }

  /** Two versions are stored as the same row exactly when they have the
      same numeric core. */
  lemma RowOfInjective(id1: string, v1: Version, id2: string, v2: Version)
    ensures RowOf(id1, v1) == RowOf(id2, v2) <==> id1 == id2 && Core(v1) == Core(v2)
  {
    if RowOf(id1, v1) == RowOf(id2, v2) {
      assert FromDbMod(RowOf(id1, v1)) == FromDbMod(RowOf(id2, v2));
    }
  }

  /** The version a row holds, as an unsigned triple. */
  function VersionKey(m: DbMod): Triple {
    Core(FromDbMod(m).version)
  }

  /** `md` is one of the versions the catalog returns: a plain version whose
      row is present. */
  predicate Recorded(cat: Catalog, md: Mod) {
    IsPlain(md.version) && RowOf(md.id, md.version) in cat
  }

  // ---------------------------------------------------------------------
  // insert

  datatype Inserted = Inserted(cat: Catalog, added: bool)

  /** `Mod::insert`: `INSERT OR IGNORE` of the version's row. The answer is
      whether a row was added; afterwards the row is present either way. */
  function Insert(cat: Catalog, id: string, v: Version): (r: Inserted)
    ensures r.added <==> RowOf(id, v) !in cat
    ensures Recorded(r.cat, FromDbMod(RowOf(id, v)))
    ensures r.cat == cat + {RowOf(id, v)}
  {
    RowRoundTrip(RowOf(id, v));
    var row := RowOf(id, v);
    if row in cat then Inserted(cat, false) else Inserted(cat + {row}, true)
  }

  /** Inserting a version that is already recorded, or one that differs from
      it only in pre-release or build data, adds nothing and answers false. */
  lemma InsertDuplicateIgnored(cat: Catalog, id: string, v: Version, w: Version)
    requires Core(v) == Core(w)
    ensures var first := Insert(cat, id, v);
            Insert(first.cat, id, w) == Inserted(first.cat, false)
  {
    RowOfInjective(id, v, id, w);
  }

  /** One insert attempt. */
  datatype Call = Call(id: string, version: Version)

  /** The catalog after a batch of insert attempts, and their answers. */
  datatype Batch = Batch(cat: Catalog, answers: seq<bool>)

  /** Insert attempts applied one after another, each an atomic step; the
      answers in order. */
  function InsertAll(cat: Catalog, calls: seq<Call>): (r: Batch)
    ensures |r.answers| == |calls|
    ensures cat <= r.cat
    decreases |calls|
  {
    if calls == [] then Batch(cat, [])
    else
      var first := Insert(cat, calls[0].id, calls[0].version);
      var rest := InsertAll(first.cat, calls[1..]);
      Batch(rest.cat, [first.added] + rest.answers)
  }

  /** How many attempts on `row` answered true. */
  function Wins(calls: seq<Call>, answers: seq<bool>, row: DbMod): nat
    requires |answers| == |calls|
  {
    if calls == [] then 0
    else
      (if answers[0] && RowOf(calls[0].id, calls[0].version) == row then 1 else 0)
      + Wins(calls[1..], answers[1..], row)
  }

  predicate Requested(calls: seq<Call>, row: DbMod) {
    exists i | 0 <= i < |calls| :: RowOf(calls[i].id, calls[i].version) == row
  }

  /** However many attempts target the same row, exactly one answers true
      when the row was absent and some attempt targets it; none otherwise. */
  lemma {:induction false} InsertWinsOnce(cat: Catalog, calls: seq<Call>, row: DbMod)
    ensures Wins(calls, InsertAll(cat, calls).answers, row)
            == if row !in cat && Requested(calls, row) then 1 else 0
    decreases |calls|
  {
    if calls != [] {
      var c := calls[0];
      var first := Insert(cat, c.id, c.version);
      var r := InsertAll(cat, calls);
      InsertWinsOnce(first.cat, calls[1..], row);
      assert r.answers[1..] == InsertAll(first.cat, calls[1..]).answers;
      assert Requested(calls, row) <==> RowOf(c.id, c.version) == row || Requested(calls[1..], row) by {
        if Requested(calls, row) {
          var i :| 0 <= i < |calls| && RowOf(calls[i].id, calls[i].version) == row;
          if i > 0 {
            assert calls[1..][i - 1] == calls[i];
          }
        }
        if Requested(calls[1..], row) {
          var i :| 0 <= i < |calls[1..]| && RowOf(calls[1..][i].id, calls[1..][i].version) == row;
          assert calls[i + 1] == calls[1..][i];
        }
      }
    }
  }

  // ---------------------------------------------------------------------
  // list

  /** The ids that have at least one row. */
  function Ids(cat: Catalog): set<string> {
    set m | m in cat :: m.id
  }

  /** `Mod::list`: `SELECT DISTINCT id`, collected. Without a failure, every
      id with a row exactly once, in no promised order; a failing fetch
      fails the whole listing. */
  method List(cat: Catalog, fault: Option<nat>) returns (r: Result<seq<string>, DbError>)
    ensures fault.Some? ==> r == Err(DbError)
    ensures fault.None? ==> r.Ok?
    ensures r.Ok? ==> forall id :: id in r.value <==> id in Ids(cat)
    ensures r.Ok? ==> forall i, j | 0 <= i < j < |r.value| :: r.value[i] != r.value[j]
  {
    var ids := [];
    var rest := cat;
    ghost var seen: set<DbMod> := {};
    while rest != {}
      invariant rest + seen == cat && rest !! seen
      invariant forall id :: id in ids <==> id in Ids(seen)
      invariant forall i, j | 0 <= i < j < |ids| :: ids[i] != ids[j]
      decreases rest
    {
      var m :| m in rest;
      if m.id !in ids {
        ids := ids + [m.id];
      }
      rest := rest - {m};
      seen := seen + {m};
    }
    var delivered := if fault.Some? && fault.value < |ids| then ids[..fault.value] else ids;
    CollectYields(ids);
    CollectFailing(delivered);
    assert fault.Some? ==> Fetch(ids, fault) == Yields(delivered) + [Fail];
    r := TryCollect(Fetch(ids, fault));
  }

  // ---------------------------------------------------------------------
  // resolve_one, resolve_all, resolve_n

  /** Rows whose versions strictly decrease. */
  predicate DescRows(rows: seq<DbMod>) {
    forall i, j | 0 <= i < j < |rows| :: Lt(VersionKey(rows[j]), VersionKey(rows[i]))
  }

  /** Mods whose versions strictly decrease. */
  predicate Descending(ms: seq<Mod>) {
    forall i, j | 0 <= i < j < |ms| :: Lt(Core(ms[j].version), Core(ms[i].version))
  }

  /** The versions recorded for `id`. */
  function Versions(cat: Catalog, id: string): (vs: set<Triple>)
    ensures forall m | m in cat && m.id == id :: VersionKey(m) in vs
    ensures forall t | t in vs :: InU64(t) && exists m | m in cat && m.id == id :: VersionKey(m) == t
  {
    set m | m in cat && m.id == id :: VersionKey(m)
  }

  /** The row holding version `t` of `id`. */
  function ToRow(id: string, t: Triple): (m: DbMod)
    requires InU64(t)
    ensures m.id == id && VersionKey(m) == t
  {
    RowOf(id, Plain(t.major, t.minor, t.patch))
  }

  lemma ToRowOfKey(m: DbMod)
    ensures ToRow(m.id, VersionKey(m)) == m
  {
    RowRoundTrip(m);
  }

  lemma RowsSound(cat: Catalog, id: string, ts: seq<Triple>, rows: seq<DbMod>)
    requires StrictlyDesc(ts)
    requires forall t :: t in ts <==> t in Versions(cat, id)
    requires |rows| == |ts|
    requires forall i | 0 <= i < |ts| :: InU64(ts[i]) && rows[i] == ToRow(id, ts[i])
    ensures forall m :: m in rows <==> m in cat && m.id == id
    ensures DescRows(rows)
  {
    forall m
      ensures m in rows <==> m in cat && m.id == id
    {
      if m in rows {
        var i :| 0 <= i < |rows| && rows[i] == m;
        assert ts[i] in Versions(cat, id);
        var m' :| m' in cat && m'.id == id && VersionKey(m') == ts[i];
        ToRowOfKey(m');
      }
      if m in cat && m.id == id {
        assert VersionKey(m) in ts;
        var i :| 0 <= i < |ts| && ts[i] == VersionKey(m);
        ToRowOfKey(m);
        assert rows[i] == m;
      }
    }
  }

  /** The rows `SELECT * FROM mods WHERE id = ? ORDER BY major DESC, minor
      DESC, patch DESC` returns, ordered by the unsigned versions (see
      AsWrittenRows for the signed order the table actually applies). */
  function Rows(cat: Catalog, id: string): (rows: seq<DbMod>)
    ensures forall m :: m in rows <==> m in cat && m.id == id
    ensures DescRows(rows)
  {
    var ts := SortDesc(Versions(cat, id));
    var rows := seq(|ts|, i requires 0 <= i < |ts| => ToRow(id, ts[i]));
    RowsSound(cat, id, ts, rows);
    rows
  }

  /** `tfm_fn`: convert the row, keep it when the requirement matches. */
  function TfmFn(m: DbMod, req: Req): (r: Option<Mod>)
    ensures r.Some? <==> req(FromDbMod(m).version)
    ensures r.Some? ==> r.value == FromDbMod(m)
  {
    var md := FromDbMod(m);
    if req(md.version) then Some(md) else None
  }

  /** The mods the rows hold. */
  function ModsOf(rows: seq<DbMod>): set<Mod> {
    set m | m in rows :: FromDbMod(m)
  }

  /** The mods `tfm_fn` keeps from a sequence of rows, in row order. */
  function FilterMods(rows: seq<DbMod>, req: Req): (ms: seq<Mod>)
    ensures |ms| <= |rows|
  {
    if rows == [] then []
    else
      var rest := FilterMods(rows[1..], req);
      match TfmFn(rows[0], req)
      case Some(md) => [md] + rest
      case None => rest
  }

  /** Filtering keeps exactly the converted rows the requirement matches. */
  lemma {:induction false} FilterModsMembers(rows: seq<DbMod>, req: Req)
    ensures forall md | md in FilterMods(rows, req) :: md in ModsOf(rows) && req(md.version)
    ensures forall m | m in rows && req(FromDbMod(m).version) :: FromDbMod(m) in FilterMods(rows, req)
    decreases |rows|
  {
    if rows != [] {
      FilterModsMembers(rows[1..], req);
      assert ModsOf(rows[1..]) <= ModsOf(rows);
      assert forall m | m in rows :: m == rows[0] || m in rows[1..];
    }
  }

  lemma {:induction false} FilterModsAppend(a: seq<DbMod>, b: seq<DbMod>, req: Req)
    ensures FilterMods(a + b, req) == FilterMods(a, req) + FilterMods(b, req)
    decreases |a|
  {
    if a != [] {
      assert (a + b)[0] == a[0];
      assert (a + b)[1..] == a[1..] + b;
      FilterModsAppend(a[1..], b, req);
    } else {
      assert a + b == b;
    }
  }

  lemma FilterModsPrefix(rows: seq<DbMod>, d: seq<DbMod>, req: Req)
    requires d <= rows
    ensures FilterMods(d, req) <= FilterMods(rows, req)
  {
    assert rows == d + rows[|d|..];
    FilterModsAppend(d, rows[|d|..], req);
  }

  /** Filtering keeps strict descent. */
  lemma {:induction false} FilterModsDescending(rows: seq<DbMod>, req: Req)
    requires DescRows(rows)
    ensures Descending(FilterMods(rows, req))
    decreases |rows|
  {
    if rows != [] {
      var rest := FilterMods(rows[1..], req);
      FilterModsDescending(rows[1..], req);
      if TfmFn(rows[0], req).Some? {
        FilterModsMembers(rows[1..], req);
        var ms := FilterMods(rows, req);
        assert ms == [FromDbMod(rows[0])] + rest;
        forall k | 0 <= k < |rest|
          ensures Lt(Core(rest[k].version), Core(ms[0].version))
        {
          assert rest[k] in rest;
          var m :| m in rows[1..] && rest[k] == FromDbMod(m);
          var i :| 0 <= i < |rows[1..]| && rows[1..][i] == m;
          assert rows[1..][i] == rows[i + 1];
        }
      }
    }
  }

  /** The reference description of a resolution result: exactly the recorded
      versions of `id` that satisfy `req`, greatest first. */
  ghost predicate IsMatchList(cat: Catalog, id: string, req: Req, ms: seq<Mod>) {
    && Descending(ms)
    && (forall k | 0 <= k < |ms| :: ms[k].id == id && Recorded(cat, ms[k]) && req(ms[k].version))
    && (forall md: Mod | md.id == id && Recorded(cat, md) && req(md.version) :: md in ms)
  }

  /** All matches of `req` among `id`'s rows, greatest first: the one list
      meeting the reference description. */
  function Matches(cat: Catalog, id: string, req: Req): (ms: seq<Mod>)
    ensures IsMatchList(cat, id, req, ms)
  {
    FilteredRowsMatch(cat, id, req);
    FilterMods(Rows(cat, id), req)
  }

  lemma FilteredRowsMatch(cat: Catalog, id: string, req: Req)
    ensures IsMatchList(cat, id, req, FilterMods(Rows(cat, id), req))
  {
    var rows := Rows(cat, id);
    var ms := FilterMods(rows, req);
    FilterModsDescending(rows, req);
    FilterModsMembers(rows, req);
    forall k | 0 <= k < |ms|
      ensures ms[k].id == id && Recorded(cat, ms[k]) && req(ms[k].version)
    {
      assert ms[k] in ms;
      var m :| m in rows && ms[k] == FromDbMod(m);
      RowRoundTrip(m);
    }
    forall md: Mod | md.id == id && Recorded(cat, md) && req(md.version)
      ensures md in ms
    {
      var row := RowOf(id, md.version);
      assert row in rows;
      assert FromDbMod(row) == md;
    }
  }

  /** Any list meeting the reference description is what the catalog
      resolves to. */
  lemma MatchesCharacterized(cat: Catalog, id: string, req: Req, ms: seq<Mod>)
    requires IsMatchList(cat, id, req, ms)
    ensures Matches(cat, id, req) == ms
  {
    MatchListUnique(cat, id, req, Matches(cat, id, req), ms);
  }

  /** A match list is determined by the catalog, id and requirement. */
  lemma {:induction false} MatchListUnique(cat: Catalog, id: string, req: Req, a: seq<Mod>, b: seq<Mod>)
    requires IsMatchList(cat, id, req, a) && IsMatchList(cat, id, req, b)
    ensures a == b
  {
    assert forall x :: x in a <==> x in b;
    DescendingUnique(a, b);
  }

  /** A member of a descending list that is greater than every other member
      is its head. */
  lemma DescendingHead(ms: seq<Mod>, md: Mod)
    requires Descending(ms) && md in ms
    requires forall x | x in ms :: x == md || Lt(Core(x.version), Core(md.version))
    ensures ms[0] == md
  {
    var i :| 0 <= i < |ms| && ms[i] == md;
    assert ms[0] in ms;
  }

  lemma {:induction false} DescendingUnique(a: seq<Mod>, b: seq<Mod>)
    requires Descending(a) && Descending(b)
    requires forall x :: x in a <==> x in b
    ensures a == b
    decreases |a|
  {
    assert a != [] ==> a[0] in b;
    assert b != [] ==> b[0] in a;
    if a != [] {
      assert a[0] == b[0];
      forall x
        ensures x in a[1..] <==> x in b[1..]
      {
        if x in a[1..] {
          var i :| 1 <= i < |a| && a[i] == x;
          assert Lt(Core(x.version), Core(a[0].version));
          assert x in b && x != b[0];
        }
        if x in b[1..] {
          var i :| 1 <= i < |b| && b[i] == x;
          assert Lt(Core(x.version), Core(b[0].version));
          assert x in a && x != a[0];
        }
      }
      DescendingUnique(a[1..], b[1..]);
      assert a == [a[0]] + a[1..];
      assert b == [b[0]] + b[1..];
    }
  }

  /** `try_filter_map(tfm_fn)`: failures pass through, rows are filtered. */
  function TryFilterMap(s: seq<Item<DbMod>>, req: Req): (r: seq<Item<Mod>>)
    ensures |r| <= |s|
  {
    if s == [] then []
    else
      match s[0]
      case Fail => [Fail] + TryFilterMap(s[1..], req)
      case Yield(m) =>
        match TfmFn(m, req)
        case Some(md) => [Yield(md)] + TryFilterMap(s[1..], req)
        case None => TryFilterMap(s[1..], req)
  }

  lemma {:induction false} TryFilterMapYields(rows: seq<DbMod>, req: Req)
    ensures TryFilterMap(Yields(rows), req) == Yields(FilterMods(rows, req))
    decreases |rows|
  {
    if rows != [] {
      assert Yields(rows)[1..] == Yields(rows[1..]);
      TryFilterMapYields(rows[1..], req);
    }
  }

  lemma {:induction false} TryFilterMapFailing(rows: seq<DbMod>, req: Req)
    ensures TryFilterMap(Yields(rows) + [Fail], req) == Yields(FilterMods(rows, req)) + [Fail]
    decreases |rows|
  {
    if rows == [] {
      assert Yields(rows) + [Fail] == [Fail];
    } else {
      assert (Yields(rows) + [Fail])[1..] == Yields(rows[1..]) + [Fail];
      TryFilterMapFailing(rows[1..], req);
    }
  }

  /** The rows the stream delivers before a fault. */
  function Delivered(rows: seq<DbMod>, fault: Option<nat>): (d: seq<DbMod>)
    ensures d <= rows
  {
    match fault
    case None => rows
    case Some(k) => rows[..if k <= |rows| then k else |rows|]
  }

  /** The matches delivered before a fault: a prefix of all matches, and all
      of them when there is no fault. */
  function DeliveredMatches(cat: Catalog, id: string, req: Req, fault: Option<nat>): (p: seq<Mod>)
    ensures p <= Matches(cat, id, req)
    ensures fault.None? ==> p == Matches(cat, id, req)
  {
    var rows := Rows(cat, id);
    FilterModsPrefix(rows, Delivered(rows, fault), req);
    FilterMods(Delivered(rows, fault), req)
  }

  /** The stream the three queries share: the id's rows, greatest first,
      through `tfm_fn`, possibly cut short by a database failure. */
  function MatchStream(cat: Catalog, id: string, req: Req, fault: Option<nat>): (s: seq<Item<Mod>>)
    ensures var p := DeliveredMatches(cat, id, req, fault);
            s == if fault.None? then Yields(p) else Yields(p) + [Fail]
  {
    var rows := Rows(cat, id);
    TryFilterMapYields(rows, req);
    TryFilterMapFailing(Delivered(rows, fault), req);
    TryFilterMap(Fetch(rows, fault), req)
  }

  /** Taking `n` from the delivered prefix `p` of `all`: the first `n` of
      `all` when they were delivered, the failure otherwise. */
  lemma TakeDelivered<T>(p: seq<T>, all: seq<T>, failing: bool, n: nat)
    requires p <= all
    requires !failing ==> p == all
    ensures var s := if failing then Yields(p) + [Fail] else Yields(p);
            TryCollect(Take(s, n))
              == if n <= |p| then Ok(all[..n])
                 else if failing then Err(DbError)
                 else Ok(all)
  {
    TakeCollect(p, failing, n);
    if n <= |p| {
      assert p[..n] == all[..n];
    }
  }

  /** `Mod::resolve_one`: the greatest match, none when the id is unknown or
      nothing matches. A failure only shows when no match was delivered
      before it. */
  function ResolveOne(cat: Catalog, id: string, req: Req, fault: Option<nat>): (r: Result<Option<Mod>, DbError>)
    ensures var all := Matches(cat, id, req);
            var p := DeliveredMatches(cat, id, req, fault);
            r == if p != [] then Ok(Some(all[0]))
                 else if fault.Some? then Err(DbError)
                 else Ok(None)
  {
    var p := DeliveredMatches(cat, id, req, fault);
    assert p != [] ==> p[0] == Matches(cat, id, req)[0];
    NextAfterYields(p, fault.Some?);
    Transpose(Next(MatchStream(cat, id, req, fault)))
  }

  /** `Mod::resolve_all`: exactly the recorded versions that match, greatest
      first, or the failure. */
  function ResolveAll(cat: Catalog, id: string, req: Req, fault: Option<nat>): (r: Result<seq<Mod>, DbError>)
    ensures fault.None? ==> r == Ok(Matches(cat, id, req))
    ensures fault.Some? ==> r == Err(DbError)
  {
    var p := DeliveredMatches(cat, id, req, fault);
    CollectYields(p);
    CollectFailing(p);
    TryCollect(MatchStream(cat, id, req, fault))
  }

  /** `Mod::resolve_n`: the first min(n, all) matches, so n = 0 gives
      nothing; a failure shows only when fewer than n matches came before
      it. */
  function ResolveN(cat: Catalog, id: string, req: Req, fault: Option<nat>, n: u64): (r: Result<seq<Mod>, DbError>)
    ensures var all := Matches(cat, id, req);
            fault.None? ==> r == Ok(all[..if n <= |all| then n else |all|])
    ensures var all := Matches(cat, id, req);
            var p := DeliveredMatches(cat, id, req, fault);
            fault.Some? ==> r == if n <= |p| then Ok(all[..n]) else Err(DbError)
    ensures n == 0 ==> r == Ok([])
  {
    var all := Matches(cat, id, req);
    TakeDelivered(DeliveredMatches(cat, id, req, fault), all, fault.Some?, n);
    assert all[..|all|] == all;
    TryCollect(Take(MatchStream(cat, id, req, fault), n))
  }

  /** Without a failure, `resolve_one` is none exactly when no recorded
      version of the id matches. */
  lemma ResolveOneNone(cat: Catalog, id: string, req: Req)
    ensures ResolveOne(cat, id, req, None) == Ok(None) <==>
              forall md: Mod :: md.id == id && Recorded(cat, md) ==> !req(md.version)
  {
    var all := Matches(cat, id, req);
    if ResolveOne(cat, id, req, None) != Ok(None) {
      assert all != [];
      assert all[0].id == id && Recorded(cat, all[0]) && req(all[0].version);
    }
  }

  /** Without a failure, `resolve_one` answers a recorded matching version
      that is greater than every other recorded matching version. */
  lemma ResolveOneGreatest(cat: Catalog, id: string, req: Req, md: Mod)
    requires md.id == id && Recorded(cat, md) && req(md.version)
    requires forall x: Mod | x.id == id && Recorded(cat, x) && req(x.version) ::
               x == md || Lt(Core(x.version), Core(md.version))
    ensures ResolveOne(cat, id, req, None) == Ok(Some(md))
  {
    var all := Matches(cat, id, req);
    DescendingHead(all, md);
  }

  // ---------------------------------------------------------------------
  // the ordering the table actually applies

  /** A row's columns as stored, signed. */
  function SignedKey(m: DbMod): Triple {
    Triple(m.major, m.minor, m.patch)
  }

  predicate InI64(t: Triple) {
    -I64_LIMIT <= t.major < I64_LIMIT && -I64_LIMIT <= t.minor < I64_LIMIT && -I64_LIMIT <= t.patch < I64_LIMIT
  }

  function StoredTriples(cat: Catalog, id: string): (ts: set<Triple>)
    ensures forall m | m in cat && m.id == id :: SignedKey(m) in ts
    ensures forall t | t in ts :: InI64(t) && exists m | m in cat && m.id == id :: SignedKey(m) == t
  {
    set m | m in cat && m.id == id :: SignedKey(m)
  }

  /** As written: `ORDER BY major DESC, minor DESC, patch DESC` compares the
      signed columns, so a component of 2^63 or more, stored negative, sorts
      below every smaller one. */
  function AsWrittenRows(cat: Catalog, id: string): (rows: seq<DbMod>)
    ensures forall m :: m in rows <==> m in cat && m.id == id
    ensures forall i, j | 0 <= i < j < |rows| :: Lt(SignedKey(rows[j]), SignedKey(rows[i]))
  {
    var ts := SortDesc(StoredTriples(cat, id));
    var rows := seq(|ts|, i requires 0 <= i < |ts| => DbMod(id, ts[i].major, ts[i].minor, ts[i].patch));
    AsWrittenRowsSound(cat, id, ts, rows);
    rows
  }

  lemma AsWrittenRowsSound(cat: Catalog, id: string, ts: seq<Triple>, rows: seq<DbMod>)
    requires forall t :: t in ts <==> t in StoredTriples(cat, id)
    requires |rows| == |ts|
    requires forall i | 0 <= i < |ts| :: rows[i].id == id && SignedKey(rows[i]) == ts[i]
    ensures forall m :: m in rows <==> m in cat && m.id == id
  {
    forall m
      ensures m in rows <==> m in cat && m.id == id
    {
      if m in rows {
        var i :| 0 <= i < |rows| && rows[i] == m;
        assert ts[i] in StoredTriples(cat, id);
        var m' :| m' in cat && m'.id == id && SignedKey(m') == ts[i];
        assert m' == m;
      }
      if m in cat && m.id == id {
        assert SignedKey(m) in ts;
        var i :| 0 <= i < |ts| && ts[i] == SignedKey(m);
        assert rows[i] == m;
      }
    }
  }

  /** The catalog holds no negative column: true of every catalog built from
      versions whose components are below 2^63. */
  predicate NonNegative(cat: Catalog) {
    forall m | m in cat :: m.major >= 0 && m.minor >= 0 && m.patch >= 0
  }

  lemma InsertKeepsNonNegative(cat: Catalog, id: string, v: Version)
    requires NonNegative(cat)
    requires v.major < I64_LIMIT && v.minor < I64_LIMIT && v.patch < I64_LIMIT
    ensures NonNegative(Insert(cat, id, v).cat)
  {
  }

  /** With no negative column, a row's signed triple is its version. */
  lemma StoredAreVersions(cat: Catalog, id: string)
    requires NonNegative(cat)
    ensures StoredTriples(cat, id) == Versions(cat, id)
  {
    var s := StoredTriples(cat, id);
    var u := Versions(cat, id);
    forall t
      ensures t in s <==> t in u
    {
      if t in s {
        var m :| m in cat && m.id == id && SignedKey(m) == t;
        assert VersionKey(m) == t;
      }
      if t in u {
        var m :| m in cat && m.id == id && VersionKey(m) == t;
        assert SignedKey(m) == t;
      }
    }
  }

  /** In a catalog with no negative column, the row of a recorded version
      holds that version's components as they are. */
  lemma RowAtVersion(cat: Catalog, id: string, t: Triple)
    requires NonNegative(cat)
    requires t in Versions(cat, id)
    ensures ToRow(id, t) == DbMod(id, t.major, t.minor, t.patch)
  {
    var m :| m in cat && m.id == id && VersionKey(m) == t;
    ToRowOfKey(m);
  }

  /** Below 2^63 the signed order is the version order, so the table's rows
      are the rows this model resolves over. */
  lemma AsWrittenAgreesWhenNonNegative(cat: Catalog, id: string)
    requires NonNegative(cat)
    ensures AsWrittenRows(cat, id) == Rows(cat, id)
  {
    StoredAreVersions(cat, id);
    var u := Versions(cat, id);
    var a := AsWrittenRows(cat, id);
    var b := Rows(cat, id);
    var ts := SortDesc(u);
    assert |a| == |ts| == |b|;
    forall i | 0 <= i < |a|
      ensures a[i] == b[i]
    {
      assert a[i] == DbMod(id, ts[i].major, ts[i].minor, ts[i].patch);
      assert b[i] == ToRow(id, ts[i]);
      RowAtVersion(cat, id, ts[i]);
    }
  }

  /** The catalog of the example below: 2^63.0.0 and then 1.0.0 inserted
      for id "a". */
  function MisorderCatalog(): Catalog {
    Insert(Insert({}, "a", Plain(I64_LIMIT, 0, 0)).cat, "a", Plain(1, 0, 0)).cat
  }

  lemma MisorderCatalogRows()
    ensures MisorderCatalog() == {DbMod("a", -I64_LIMIT, 0, 0), DbMod("a", 1, 0, 0)}
  {
  }

  /** Inserting 2^63.0.0 and then 1.0.0 for one id: the table's signed order
      puts 1.0.0 first, so `resolve_one` would answer 1.0.0 for any
      requirement both meet, although 2^63.0.0 is greater. */
  lemma AsWrittenMisorders()
    ensures var rows := AsWrittenRows(MisorderCatalog(), "a");
            && |rows| == 2
            && FromDbMod(rows[0]).version == Plain(1, 0, 0)
            && FromDbMod(rows[1]).version == Plain(I64_LIMIT, 0, 0)
            && Lt(Core(FromDbMod(rows[0]).version), Core(FromDbMod(rows[1]).version))
  {
    var cat := MisorderCatalog();
    MisorderCatalogRows();
    var tb := Triple(-I64_LIMIT, 0, 0);
    var ts := Triple(1, 0, 0);
    assert StoredTriples(cat, "a") == {ts, tb} by {
      assert SignedKey(DbMod("a", -I64_LIMIT, 0, 0)) == tb;
      assert SignedKey(DbMod("a", 1, 0, 0)) == ts;
    }
    SortDescPair(ts, tb);
  }

  /** `Mod::resolve_one` as written: the same pipeline over the rows in the
      table's own signed order. */
  function AsWrittenResolveOne(cat: Catalog, id: string, req: Req, fault: Option<nat>): (r: Result<Option<Mod>, DbError>)
    ensures var ms := FilterMods(AsWrittenRows(cat, id), req);
            fault.None? ==> r == if ms == [] then Ok(None) else Ok(Some(ms[0]))
  {
    TryFilterMapYields(AsWrittenRows(cat, id), req);
    Transpose(Next(TryFilterMap(Fetch(AsWrittenRows(cat, id), fault), req)))
  }

  /** On that catalog, `resolve_one` as written answers 1.0.0 for every
      requirement 1.0.0 meets, even when 2^63.0.0 meets it too. */
  lemma AsWrittenResolveOneMisorders(req: Req)
    requires req(Plain(1, 0, 0))
    ensures AsWrittenResolveOne(MisorderCatalog(), "a", req, None) == Ok(Some(Mod("a", Plain(1, 0, 0))))
  {
    var rows := AsWrittenRows(MisorderCatalog(), "a");
    AsWrittenMisorders();
    assert rows[0] in rows;
    assert TfmFn(rows[0], req).Some?;
    assert FilterMods(rows, req)[0] == FromDbMod(rows[0]);
  }

  /** The versions recorded for "a" in that catalog: 2^63.0.0 and 1.0.0. */
  lemma MisorderRecorded()
    ensures Recorded(MisorderCatalog(), Mod("a", Plain(I64_LIMIT, 0, 0)))
    ensures forall md: Mod | md.id == "a" && Recorded(MisorderCatalog(), md) ::
              md.version == Plain(I64_LIMIT, 0, 0) || md.version == Plain(1, 0, 0)
  {
    MisorderCatalogRows();
    var big := Plain(I64_LIMIT, 0, 0);
    var small := Plain(1, 0, 0);
    assert RowOf("a", big) == DbMod("a", -I64_LIMIT, 0, 0);
    assert RowOf("a", small) == DbMod("a", 1, 0, 0);
    forall md: Mod | md.id == "a" && Recorded(MisorderCatalog(), md)
      ensures md.version == big || md.version == small
    {
      RowOfInjective("a", md.version, "a", small);
      RowOfInjective("a", md.version, "a", big);
    }
  }

  /** The corrected order on the same catalog: `resolve_one` answers
      2^63.0.0, the greatest recorded version, for every requirement it
      meets. */
  lemma CorrectedOrderOnMisorderCatalog(req: Req)
    requires req(Plain(I64_LIMIT, 0, 0))
    ensures ResolveOne(MisorderCatalog(), "a", req, None) == Ok(Some(Mod("a", Plain(I64_LIMIT, 0, 0))))
  {
    MisorderRecorded();
    ResolveOneGreatest(MisorderCatalog(), "a", req, Mod("a", Plain(I64_LIMIT, 0, 0)));
  }
}
