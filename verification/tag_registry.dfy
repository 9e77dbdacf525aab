/**
 * The tag registry: the `tag` table (one row per tag name and tenant, with a
 * usage counter) and the `entity_tag` join table, and the two transactions
 * that the tagged behaviour runs on them, `addTags` and `removeTags`. Each SQL
 * statement is modelled by its effect on the in-memory tables.
 */
module TagRegistry {
  import opened Wrappers

  type TagId = int
  type TenantId = int
  type UserId = int

  /** A row of the `tag` table (its id is the key it is stored under). */
  datatype Tag = Tag(
    name: string,
    alias: string,
    frequency: int,
    tenant: TenantId,
    createdBy: Option<UserId>,
    createdAt: int,
    updatedBy: Option<UserId>,
    updatedAt: int)

  /** A row of the `entity_tag` table. */
  datatype EntityTag = EntityTag(entityId: int, entityName: string, tagId: TagId)

  /** The record that owns the tags: its primary key and its entity name. */
  datatype Entity = Entity(id: int, name: string)

  /**
   * Both tables, plus the auto-increment counter of `tag`: the id the next
   * inserted tag receives. Ids are never reused.
   */
  datatype Database = Database(tags: map<TagId, Tag>, links: seq<EntityTag>, nextId: TagId)

  predicate IdsBelowCounter(d: Database) {
    0 < d.nextId && forall k :: k in d.tags ==> 0 < k < d.nextId
  }

  type Db = d: Database | IdsBelowCounter(d) witness Database(map[], [], 1)

  /**
   * What the request supplies: the current tenant, the acting user (none
   * for a guest), the clock, and the slug function for aliases.
   */
  datatype Context = Context(tenant: TenantId, user: Option<UserId>, now: int, slug: string -> string)

  /** The tables after a transaction, and the owner's tag attribute (None is null). */
  datatype Outcome = Outcome(db: Db, attr: Option<string>)

  predicate Named(t: Tag, name: string, tenant: TenantId) {
    t.name == name && t.tenant == tenant
  }

  /** The lowest id in `[i, hi)` of a tag with this name in this tenant. */
  function FindFrom(tags: map<TagId, Tag>, name: string, tenant: TenantId, i: int, hi: int): (r: Option<TagId>)
    ensures r.Some? ==> i <= r.value < hi && r.value in tags && Named(tags[r.value], name, tenant)
    ensures r.Some? ==> forall k :: i <= k < r.value && k in tags ==> !Named(tags[k], name, tenant)
    ensures r.None? ==> forall k :: i <= k < hi && k in tags ==> !Named(tags[k], name, tenant)
    decreases hi - i
  {
    if i >= hi then None
    else if i in tags && Named(tags[i], name, tenant) then Some(i)
    else FindFrom(tags, name, tenant, i + 1, hi)
  }

  /**
   * `SELECT id FROM tag WHERE name = :name AND tenant_id = :tenantId`, first
   * row: the lowest id of a tag with that name in that tenant, if any.
   */
  function Lookup(db: Db, name: string, tenant: TenantId): (r: Option<TagId>)
    ensures r.Some? ==> r.value in db.tags && Named(db.tags[r.value], name, tenant)
    ensures r.Some? ==> forall k :: k in db.tags && Named(db.tags[k], name, tenant) ==> r.value <= k
    ensures r.None? <==> forall k :: k in db.tags ==> !Named(db.tags[k], name, tenant)
  {
    FindFrom(db.tags, name, tenant, 1, db.nextId)
  }

  /** The row `addTags` inserts for a name it did not find. */
  function NewTag(ctx: Context, name: string): (t: Tag)
    ensures Named(t, name, ctx.tenant) && t.frequency == 1
    ensures t.alias == ctx.slug(name)
    ensures t.createdBy == t.updatedBy == ctx.user && t.createdAt == t.updatedAt == ctx.now
  {
    Tag(name, ctx.slug(name), 1, ctx.tenant, ctx.user, ctx.now, ctx.user, ctx.now)
  }

  /**
   * `INSERT INTO tag`: the row gets the counter's id, which `getLastInsertID`
   * reports; that id is fresh, and no other row changes.
   */
  function Insert(db: Db, t: Tag): Db {
    Database(db.tags[db.nextId := t], db.links, db.nextId + 1)
  }

  lemma InsertAddsOneRow(db: Db, t: Tag)
    ensures db.nextId !in db.tags
    ensures Insert(db, t).tags.Keys == db.tags.Keys + {db.nextId} && Insert(db, t).tags[db.nextId] == t
    ensures forall k :: k in db.tags ==> Insert(db, t).tags[k] == db.tags[k]
    ensures Insert(db, t).links == db.links && Insert(db, t).nextId > db.nextId
  {
  }

  /** `UPDATE tag SET frequency = frequency + delta WHERE id IN (ids)`. */
  function AdjustFrequency(tags: map<TagId, Tag>, ids: set<TagId>, delta: int): (r: map<TagId, Tag>)
    ensures r.Keys == tags.Keys
    ensures forall k :: k in r ==> r[k].(frequency := tags[k].frequency) == tags[k]
    ensures forall k :: k in r ==> r[k].frequency == tags[k].frequency + (if k in ids then delta else 0)
  {
    map k | k in tags :: if k in ids then tags[k].(frequency := tags[k].frequency + delta) else tags[k]
  }

  lemma LookupAfterInsert(db: Db, t: Tag, name: string, tenant: TenantId)
    ensures Lookup(Insert(db, t), name, tenant) ==
              if Lookup(db, name, tenant).Some? then Lookup(db, name, tenant)
              else if Named(t, name, tenant) then Some(db.nextId)
              else None
  {
    var db1 := Insert(db, t);
    var before := Lookup(db, name, tenant);
    var after := Lookup(db1, name, tenant);
    if before.Some? {
      assert db1.tags[before.value] == db.tags[before.value];
      assert after.Some? && after.value <= before.value;
      assert after.value in db.tags;
    } else if Named(t, name, tenant) {
      assert db1.tags[db.nextId] == t;
    } else {
      assert forall k :: k in db1.tags ==> k == db.nextId || k in db.tags;
    }
  }

  /** Changing counters does not change which tag a name resolves to. */
  lemma LookupIgnoresFrequency(d1: Db, d2: Db, name: string, tenant: TenantId)
    requires d1.tags.Keys == d2.tags.Keys
    requires forall k :: k in d1.tags ==> d1.tags[k].name == d2.tags[k].name && d1.tags[k].tenant == d2.tags[k].tenant
    ensures Lookup(d1, name, tenant) == Lookup(d2, name, tenant)
  {
    var r1 := Lookup(d1, name, tenant);
    var r2 := Lookup(d2, name, tenant);
    if r1.Some? {
      assert Named(d2.tags[r1.value], name, tenant);
      assert r2.Some? && r2.value <= r1.value;
      assert Named(d1.tags[r2.value], name, tenant);
    } else if r2.Some? {
      assert Named(d1.tags[r2.value], name, tenant);
    }
  }

  /** What the loop of `addTags` has done: the tables, the ids to bump, the rows to insert. */
  datatype Pending = Pending(db: Db, bumps: seq<TagId>, rows: seq<EntityTag>)

  /**
   * The loop of `addTags`, one name at a time and in order: a name found in
   * the tenant queues its id for the counter update and a join row; a name
   * not found is inserted at once (so a later occurrence of the same name
   * finds it) and queues a join row for the new id.
   */
  function AddEach(db: Db, ctx: Context, e: Entity, names: seq<string>): (p: Pending)
    ensures p.db.links == db.links
    ensures db.nextId <= p.db.nextId
    ensures forall k :: k in db.tags ==> k in p.db.tags && p.db.tags[k] == db.tags[k]
    ensures |p.rows| == |names|
    decreases |names|
  {
    if |names| == 0 then Pending(db, [], [])
    else
      match Lookup(db, names[0], ctx.tenant)
      case Some(id) =>
        var p := AddEach(db, ctx, e, names[1..]);
        Pending(p.db, [id] + p.bumps, [EntityTag(e.id, e.name, id)] + p.rows)
      case None =>
        var p := AddEach(Insert(db, NewTag(ctx, names[0])), ctx, e, names[1..]);
        Pending(p.db, p.bumps, [EntityTag(e.id, e.name, db.nextId)] + p.rows)
  }

  /** Some name of `names` resolves to `k` in `db`. */
  ghost predicate ResolvedBy(db: Db, names: seq<string>, tenant: TenantId, k: TagId) {
    exists i :: 0 <= i < |names| && Lookup(db, names[i], tenant) == Some(k)
  }

  /** `k` is a tag the loop created, for a name of `names` that did not resolve before. */
  ghost predicate CreatedFor(db: Db, db': Db, ctx: Context, names: seq<string>, k: TagId)
    requires k in db'.tags
  {
    var n := db'.tags[k].name;
    && k !in db.tags
    && n in names
    && Lookup(db, n, ctx.tenant).None?
    && Lookup(db', n, ctx.tenant) == Some(k)
    && db'.tags[k] == NewTag(ctx, n)
  }

  /** Names that resolved in `db` still resolve to the same tag in `db'`. */
  ghost predicate KeepsResolved(db: Db, db': Db, tenant: TenantId) {
    forall n :: Lookup(db, n, tenant).Some? ==> Lookup(db', n, tenant) == Lookup(db, n, tenant)
  }

  ghost predicate ResolvesAll(db: Db, names: seq<string>, tenant: TenantId) {
    forall i :: 0 <= i < |names| ==> Lookup(db, names[i], tenant).Some?
  }

  /** The i-th row links the entity to the tag the i-th name resolves to in `db`. */
  ghost predicate RowsResolve(rows: seq<EntityTag>, db: Db, e: Entity, names: seq<string>, tenant: TenantId) {
    && |rows| == |names|
    && ResolvesAll(db, names, tenant)
    && forall i :: 0 <= i < |names| ==> rows[i] == EntityTag(e.id, e.name, Lookup(db, names[i], tenant).value)
  }

  ghost predicate AllCreatedFor(db: Db, db': Db, ctx: Context, names: seq<string>) {
    forall k :: k in db'.tags && k !in db.tags ==> CreatedFor(db, db', ctx, names, k)
  }

  /**
   * The ids queued for the counter update are the pre-existing tags some
   * name resolved to, plus the new tags whose name occurs more than once.
   */
  ghost predicate BumpsExact(db: Db, p: Pending, ctx: Context, names: seq<string>) {
    forall k :: k in p.bumps <==>
      || (k in db.tags && ResolvedBy(db, names, ctx.tenant, k))
      || (k in p.db.tags && k !in db.tags && multiset(names)[p.db.tags[k].name] >= 2)
  }

  /**
   * What the loop of `addTags` achieves: names that resolved before still
   * resolve to the same tag; every processed name resolves afterwards and
   * its queued row links the entity to that tag; every new tag was created
   * for a name that did not resolve before; and the queued counter updates
   * are exactly `BumpsExact`.
   */
  ghost predicate AddEachCorrect(db: Db, ctx: Context, e: Entity, names: seq<string>) {
    var p := AddEach(db, ctx, e, names);
    && KeepsResolved(db, p.db, ctx.tenant)
    && RowsResolve(p.rows, p.db, e, names, ctx.tenant)
    && AllCreatedFor(db, p.db, ctx, names)
    && BumpsExact(db, p, ctx, names)
  }

  lemma FoundRows(db: Db, ctx: Context, e: Entity, names: seq<string>, id: TagId, q: Pending, p: Pending)
    requires |names| > 0 && Lookup(db, names[0], ctx.tenant) == Some(id)
    requires p.db == q.db && p.rows == [EntityTag(e.id, e.name, id)] + q.rows
    requires KeepsResolved(db, q.db, ctx.tenant)
    requires RowsResolve(q.rows, q.db, e, names[1..], ctx.tenant)
    ensures RowsResolve(p.rows, p.db, e, names, ctx.tenant)
  {
    assert Lookup(q.db, names[0], ctx.tenant) == Some(id);
    forall i | 0 < i < |names|
      ensures names[i] == names[1..][i - 1] && p.rows[i] == q.rows[i - 1]
    {
    }
  }

  lemma FoundCreated(db: Db, ctx: Context, names: seq<string>, q: Pending)
    requires |names| > 0
    requires AllCreatedFor(db, q.db, ctx, names[1..])
    ensures AllCreatedFor(db, q.db, ctx, names)
  {
    forall k | k in q.db.tags && k !in db.tags
      ensures CreatedFor(db, q.db, ctx, names, k)
    {
      assert q.db.tags[k].name in names[1..];
    }
  }

  lemma FoundBumps(db: Db, ctx: Context, names: seq<string>, id: TagId, q: Pending, p: Pending)
    requires |names| > 0 && Lookup(db, names[0], ctx.tenant) == Some(id)
    requires p.db == q.db && p.bumps == [id] + q.bumps
    requires AllCreatedFor(db, q.db, ctx, names[1..])
    requires BumpsExact(db, q, ctx, names[1..])
    ensures BumpsExact(db, p, ctx, names)
  {
    var n0 := names[0];
    var rest := names[1..];
    assert names == [n0] + rest;
    forall k | k in q.db.tags && k !in db.tags
      ensures multiset(names)[q.db.tags[k].name] == multiset(rest)[q.db.tags[k].name]
    {
      assert q.db.tags[k].name != n0;
    }
    forall k | k in db.tags
      ensures ResolvedBy(db, names, ctx.tenant, k) <==> k == id || ResolvedBy(db, rest, ctx.tenant, k)
    {
      if ResolvedBy(db, names, ctx.tenant, k) && k != id {
        var i :| 0 <= i < |names| && Lookup(db, names[i], ctx.tenant) == Some(k);
        assert Lookup(db, rest[i - 1], ctx.tenant) == Some(k);
      }
      if ResolvedBy(db, rest, ctx.tenant, k) {
        var j :| 0 <= j < |rest| && Lookup(db, rest[j], ctx.tenant) == Some(k);
        assert Lookup(db, names[j + 1], ctx.tenant) == Some(k);
      }
      if k == id {
        assert Lookup(db, names[0], ctx.tenant) == Some(k);
      }
    }
  }

  lemma AddEachFoundStep(db: Db, ctx: Context, e: Entity, names: seq<string>)
    requires |names| > 0 && Lookup(db, names[0], ctx.tenant).Some?
    requires AddEachCorrect(db, ctx, e, names[1..])
    ensures AddEachCorrect(db, ctx, e, names)
  {
    var id := Lookup(db, names[0], ctx.tenant).value;
    var p := AddEach(db, ctx, e, names);
    var q := AddEach(db, ctx, e, names[1..]);
    assert p == Pending(q.db, [id] + q.bumps, [EntityTag(e.id, e.name, id)] + q.rows);
    FoundRows(db, ctx, e, names, id, q, p);
    FoundCreated(db, ctx, names, q);
    FoundBumps(db, ctx, names, id, q, p);
  }

  /** How names resolve right after the loop inserts a tag for `n0`. */
  lemma ResolveAfterCreate(db: Db, ctx: Context, n0: string)
    requires Lookup(db, n0, ctx.tenant).None?
    ensures forall n :: Lookup(Insert(db, NewTag(ctx, n0)), n, ctx.tenant) ==
              if Lookup(db, n, ctx.tenant).Some? then Lookup(db, n, ctx.tenant)
              else if n == n0 then Some(db.nextId) else None
  {
    forall n
      ensures Lookup(Insert(db, NewTag(ctx, n0)), n, ctx.tenant) ==
                if Lookup(db, n, ctx.tenant).Some? then Lookup(db, n, ctx.tenant)
                else if n == n0 then Some(db.nextId) else None
    {
      LookupAfterInsert(db, NewTag(ctx, n0), n, ctx.tenant);
    }
  }

  lemma CreatedKeeps(db: Db, ctx: Context, names: seq<string>, q: Pending)
    requires |names| > 0 && Lookup(db, names[0], ctx.tenant).None?
    requires KeepsResolved(Insert(db, NewTag(ctx, names[0])), q.db, ctx.tenant)
    ensures KeepsResolved(db, q.db, ctx.tenant)
    ensures Lookup(q.db, names[0], ctx.tenant) == Some(db.nextId)
  {
    ResolveAfterCreate(db, ctx, names[0]);
  }

  lemma CreatedRows(db: Db, ctx: Context, e: Entity, names: seq<string>, q: Pending, p: Pending)
    requires |names| > 0 && Lookup(q.db, names[0], ctx.tenant) == Some(db.nextId)
    requires p.db == q.db && p.rows == [EntityTag(e.id, e.name, db.nextId)] + q.rows
    requires RowsResolve(q.rows, q.db, e, names[1..], ctx.tenant)
    ensures RowsResolve(p.rows, p.db, e, names, ctx.tenant)
  {
    forall i | 0 < i < |names|
      ensures names[i] == names[1..][i - 1] && p.rows[i] == q.rows[i - 1]
    {
    }
  }

  lemma CreatedCreated(db: Db, ctx: Context, names: seq<string>, q: Pending)
    requires |names| > 0 && Lookup(db, names[0], ctx.tenant).None?
    requires db.nextId in q.db.tags && q.db.tags[db.nextId] == NewTag(ctx, names[0])
    requires Lookup(q.db, names[0], ctx.tenant) == Some(db.nextId)
    requires AllCreatedFor(Insert(db, NewTag(ctx, names[0])), q.db, ctx, names[1..])
    ensures AllCreatedFor(db, q.db, ctx, names)
  {
    var db1 := Insert(db, NewTag(ctx, names[0]));
    ResolveAfterCreate(db, ctx, names[0]);
    forall k | k in q.db.tags && k !in db.tags
      ensures CreatedFor(db, q.db, ctx, names, k)
    {
      if k != db.nextId {
        assert k !in db1.tags;
        assert q.db.tags[k].name in names[1..];
      }
    }
  }

  lemma CreatedBumps(db: Db, ctx: Context, names: seq<string>, q: Pending)
    requires |names| > 0 && Lookup(db, names[0], ctx.tenant).None?
    requires db.nextId in q.db.tags && q.db.tags[db.nextId] == NewTag(ctx, names[0])
    requires forall k :: k in db.tags ==> k in q.db.tags
    requires AllCreatedFor(Insert(db, NewTag(ctx, names[0])), q.db, ctx, names[1..])
    requires BumpsExact(Insert(db, NewTag(ctx, names[0])), q, ctx, names[1..])
    ensures BumpsExact(db, q, ctx, names)
  {
    var n0 := names[0];
    var rest := names[1..];
    var db1 := Insert(db, NewTag(ctx, n0));
    var id0 := db.nextId;
    assert names == [n0] + rest;
    ResolveAfterCreate(db, ctx, n0);
    forall k | k in q.db.tags && k !in db1.tags
      ensures multiset(names)[q.db.tags[k].name] == multiset(rest)[q.db.tags[k].name]
    {
      assert q.db.tags[k].name != n0;
    }
    forall k | k in db.tags
      ensures ResolvedBy(db, names, ctx.tenant, k) <==> ResolvedBy(db1, rest, ctx.tenant, k)
    {
      if ResolvedBy(db, names, ctx.tenant, k) {
        var i :| 0 <= i < |names| && Lookup(db, names[i], ctx.tenant) == Some(k);
        assert i != 0;
        assert Lookup(db1, rest[i - 1], ctx.tenant) == Some(k);
      }
      if ResolvedBy(db1, rest, ctx.tenant, k) {
        var j :| 0 <= j < |rest| && Lookup(db1, rest[j], ctx.tenant) == Some(k);
        assert Lookup(db, names[j + 1], ctx.tenant) == Some(k);
      }
    }
    assert ResolvedBy(db1, rest, ctx.tenant, id0) <==> n0 in rest by {
      if n0 in rest {
        var j :| 0 <= j < |rest| && rest[j] == n0;
        assert Lookup(db1, rest[j], ctx.tenant) == Some(id0);
      }
    }
  }

  lemma AddEachCreatedStep(db: Db, ctx: Context, e: Entity, names: seq<string>)
    requires |names| > 0 && Lookup(db, names[0], ctx.tenant).None?
    requires AddEachCorrect(Insert(db, NewTag(ctx, names[0])), ctx, e, names[1..])
    ensures AddEachCorrect(db, ctx, e, names)
  {
    var db1 := Insert(db, NewTag(ctx, names[0]));
    var p := AddEach(db, ctx, e, names);
    var q := AddEach(db1, ctx, e, names[1..]);
    assert p == Pending(q.db, q.bumps, [EntityTag(e.id, e.name, db.nextId)] + q.rows);
    assert db1.tags[db.nextId] == NewTag(ctx, names[0]);
    CreatedKeeps(db, ctx, names, q);
    CreatedRows(db, ctx, e, names, q, p);
    CreatedCreated(db, ctx, names, q);
    CreatedBumps(db, ctx, names, q);
  }

  lemma {:induction false} AddEachSpec(db: Db, ctx: Context, e: Entity, names: seq<string>)
    ensures AddEachCorrect(db, ctx, e, names)
    decreases |names|
  {
    if |names| > 0 {
      if Lookup(db, names[0], ctx.tenant).Some? {
        AddEachSpec(db, ctx, e, names[1..]);
        AddEachFoundStep(db, ctx, e, names);
      } else {
        AddEachSpec(Insert(db, NewTag(ctx, names[0])), ctx, e, names[1..]);
        AddEachCreatedStep(db, ctx, e, names);
      }
    }
  }

  /** Changing counters does not change which tag any name resolves to. */
  lemma ResolutionIgnoresFrequency(d1: Db, d2: Db)
    requires d1.tags.Keys == d2.tags.Keys
    requires forall k :: k in d1.tags ==> d1.tags[k].(frequency := d2.tags[k].frequency) == d2.tags[k]
    ensures forall n, t :: Lookup(d1, n, t) == Lookup(d2, n, t)
  {
    forall n, t
      ensures Lookup(d1, n, t) == Lookup(d2, n, t)
    {
      LookupIgnoresFrequency(d1, d2, n, t);
    }
  }

  /**
   * The statements after the loop of `addTags`: the counter update for the
   * queued ids (skipped when none were queued) and the batch insert of the
   * queued rows.
   */
  function CommitAdd(p: Pending): (r: Db)
    ensures r.links == p.db.links + p.rows && r.nextId == p.db.nextId
    ensures r.tags.Keys == p.db.tags.Keys
    ensures forall k :: k in r.tags ==>
              r.tags[k] == p.db.tags[k].(frequency := p.db.tags[k].frequency + (if k in p.bumps then 1 else 0))
  {
    var bumped := if |p.bumps| > 0 then AdjustFrequency(p.db.tags, set k | k in p.bumps, 1) else p.db.tags;
    Database(bumped, p.db.links + p.rows, p.db.nextId)
  }

  lemma CommitAddRows(db: Db, ctx: Context, e: Entity, names: seq<string>)
    ensures var r := CommitAdd(AddEach(db, ctx, e, names));
            && |r.links| == |db.links| + |names|
            && r.links[..|db.links|] == db.links
            && RowsResolve(r.links[|db.links|..], r, e, names, ctx.tenant)
  {
    var p := AddEach(db, ctx, e, names);
    var r := CommitAdd(p);
    AddEachSpec(db, ctx, e, names);
    ResolutionIgnoresFrequency(p.db, r);
    assert r.links[|db.links|..] == p.rows;
  }

  lemma CommitAddKeepsResolved(db: Db, ctx: Context, e: Entity, names: seq<string>)
    ensures KeepsResolved(db, CommitAdd(AddEach(db, ctx, e, names)), ctx.tenant)
  {
    var p := AddEach(db, ctx, e, names);
    AddEachSpec(db, ctx, e, names);
    ResolutionIgnoresFrequency(p.db, CommitAdd(p));
  }

  lemma CommitAddOldTags(db: Db, ctx: Context, e: Entity, names: seq<string>)
    ensures var r := CommitAdd(AddEach(db, ctx, e, names));
            forall k :: k in db.tags ==>
              && k in r.tags
              && r.tags[k] == if ResolvedBy(db, names, ctx.tenant, k)
                              then db.tags[k].(frequency := db.tags[k].frequency + 1)
                              else db.tags[k]
  {
    AddEachSpec(db, ctx, e, names);
  }

  lemma CommitAddNewTags(db: Db, ctx: Context, e: Entity, names: seq<string>)
    ensures var r := CommitAdd(AddEach(db, ctx, e, names));
            forall k :: k in r.tags && k !in db.tags ==>
              var n := r.tags[k].name;
              && n in names
              && Lookup(db, n, ctx.tenant).None?
              && Lookup(r, n, ctx.tenant) == Some(k)
              && r.tags[k] == NewTag(ctx, n).(frequency := if multiset(names)[n] >= 2 then 2 else 1)
  {
    var p := AddEach(db, ctx, e, names);
    var r := CommitAdd(p);
    AddEachSpec(db, ctx, e, names);
    ResolutionIgnoresFrequency(p.db, r);
    forall k | k in r.tags && k !in db.tags
      ensures CreatedFor(db, p.db, ctx, names, k)
    {
    }
  }

  /**
   * `addTags`: one transaction around the loop. On success the queued rows
   * are appended to `entity_tag` and every queued id has its counter raised
   * by one, once however often it was queued, since the update selects rows
   * with `IN (...)`. On failure both tables are as before and the owner's tag
   * attribute is set to null.
   */
  function AddTags(db: Db, ctx: Context, e: Entity, names: seq<string>, fail: bool, attr: Option<string>): (r: Outcome)
    ensures fail ==> r == Outcome(db, None)
    ensures !fail ==> r.attr == attr
    ensures !fail ==> |r.db.links| == |db.links| + |names| && r.db.links[..|db.links|] == db.links
    ensures !fail ==> RowsResolve(r.db.links[|db.links|..], r.db, e, names, ctx.tenant)
    ensures !fail ==> KeepsResolved(db, r.db, ctx.tenant)
    ensures !fail ==> forall k :: k in db.tags ==>
              && k in r.db.tags
              && r.db.tags[k] == if ResolvedBy(db, names, ctx.tenant, k)
                                 then db.tags[k].(frequency := db.tags[k].frequency + 1)
                                 else db.tags[k]
    ensures !fail ==> forall k :: k in r.db.tags && k !in db.tags ==>
              var n := r.db.tags[k].name;
              && n in names
              && Lookup(db, n, ctx.tenant).None?
              && Lookup(r.db, n, ctx.tenant) == Some(k)
              && r.db.tags[k] == NewTag(ctx, n).(frequency := if multiset(names)[n] >= 2 then 2 else 1)
  {
    if fail then Outcome(db, None)
    else
      CommitAddRows(db, ctx, e, names);
      CommitAddKeepsResolved(db, ctx, e, names);
      CommitAddOldTags(db, ctx, e, names);
      CommitAddNewTags(db, ctx, e, names);
      Outcome(CommitAdd(AddEach(db, ctx, e, names)), attr)
  }

  /** A tag `removeTags` selects: one of the given names, in the given tenant. */
  predicate Selected(t: Tag, names: seq<string>, tenant: TenantId) {
    t.name in names && t.tenant == tenant
  }

  /** `SELECT id FROM tag WHERE name IN (names) AND tenant_id = :tenant`. */
  function SelectIds(db: Db, names: seq<string>, tenant: TenantId): (ids: set<TagId>)
    ensures forall k :: k in ids <==> k in db.tags && Selected(db.tags[k], names, tenant)
  {
    set k | k in db.tags && Selected(db.tags[k], names, tenant)
  }

  predicate Owns(e: Entity, row: EntityTag) {
    row.entityId == e.id && row.entityName == e.name
  }

  /** The rows a `DELETE FROM entity_tag WHERE doomed` leaves, in their order. */
  function KeepRows(links: seq<EntityTag>, doomed: EntityTag -> bool): (r: seq<EntityTag>)
    ensures forall row :: row in r <==> row in links && !doomed(row)
    ensures forall row :: multiset(r)[row] == if doomed(row) then 0 else multiset(links)[row]
  {
    if |links| == 0 then []
    else
      assert links == [links[0]] + links[1..];
      (if doomed(links[0]) then [] else [links[0]]) + KeepRows(links[1..], doomed)
  }

  /** The rows of every entity other than `e`, in their order. */
  function RowsOfOthers(e: Entity, links: seq<EntityTag>): (r: seq<EntityTag>)
    ensures forall row :: row in r <==> row in links && !Owns(e, row)
  {
    if |links| == 0 then []
    else (if Owns(e, links[0]) then [] else [links[0]]) + RowsOfOthers(e, links[1..])
  }

  /** A delete confined to `e`'s rows leaves the other entities' rows exactly as they were. */
  lemma {:induction false} DeleteOwnRowsKeepsOthers(e: Entity, links: seq<EntityTag>, doomed: EntityTag -> bool)
    requires forall row :: doomed(row) ==> Owns(e, row)
    ensures RowsOfOthers(e, KeepRows(links, doomed)) == RowsOfOthers(e, links)
    decreases |links|
  {
    if |links| > 0 {
      DeleteOwnRowsKeepsOthers(e, links[1..], doomed);
      var rest := KeepRows(links[1..], doomed);
      if doomed(links[0]) {
        assert KeepRows(links, doomed) == rest;
      } else {
        assert KeepRows(links, doomed) == [links[0]] + rest;
        assert ([links[0]] + rest)[1..] == rest;
      }
    }
  }

  /** The `entity_tag` rows `removeTags` deletes: `e`'s rows, restricted to `ids` unless it is empty. */
  function Doomed(e: Entity, ids: set<TagId>): (doomed: EntityTag -> bool)
    ensures forall row :: doomed(row) ==> Owns(e, row)
    ensures forall row :: Owns(e, row) && row.tagId in ids ==> doomed(row)
    ensures ids == {} ==> forall row :: Owns(e, row) ==> doomed(row)
    ensures ids != {} ==> forall row :: doomed(row) ==> row.tagId in ids
  {
    row => Owns(e, row) && (ids == {} || row.tagId in ids)
  }

  /**
   * The statements inside the transaction of `removeTags`: select the ids,
   * lower their counters (skipped when none were selected), delete the tags
   * whose counter is at most zero, delete the entity's join rows.
   */
  function CommitRemove(db: Db, tenant: TenantId, e: Entity, names: seq<string>): (r: Db)
    ensures r.nextId == db.nextId
    ensures forall k :: k in r.tags ==> k in db.tags && r.tags[k].frequency > 0
    ensures forall row :: row in r.links ==> row in db.links
  {
    var ids := SelectIds(db, names, tenant);
    var lowered := if ids != {} then AdjustFrequency(db.tags, ids, -1) else db.tags;
    var live := map k | k in lowered && lowered[k].frequency > 0 :: lowered[k];
    Database(live, KeepRows(db.links, Doomed(e, ids)), db.nextId)
  }

  lemma CommitRemoveTags(db: Db, tenant: TenantId, e: Entity, names: seq<string>)
    ensures var r := CommitRemove(db, tenant, e, names);
            && (forall k :: k in r.tags ==> r.tags[k].frequency > 0)
            && (forall k :: k in r.tags <==>
                  k in db.tags && db.tags[k].frequency - (if Selected(db.tags[k], names, tenant) then 1 else 0) > 0)
            && (forall k :: k in r.tags ==>
                  r.tags[k] == db.tags[k].(frequency := db.tags[k].frequency - (if Selected(db.tags[k], names, tenant) then 1 else 0)))
  {
  }

  lemma CommitRemoveLinks(db: Db, tenant: TenantId, e: Entity, names: seq<string>)
    ensures var r := CommitRemove(db, tenant, e, names);
            && RowsOfOthers(e, r.links) == RowsOfOthers(e, db.links)
            && (forall row :: row in r.links <==>
                  && row in db.links
                  && !(Owns(e, row) && ((forall k :: k in db.tags ==> !Selected(db.tags[k], names, tenant))
                                        || (row.tagId in db.tags && Selected(db.tags[row.tagId], names, tenant)))))
            && (forall row :: multiset(r.links)[row] ==
                  (if Owns(e, row) && ((forall k :: k in db.tags ==> !Selected(db.tags[k], names, tenant))
                                       || (row.tagId in db.tags && Selected(db.tags[row.tagId], names, tenant)))
                   then 0 else multiset(db.links)[row]))
  {
    var ids := SelectIds(db, names, tenant);
    DeleteOwnRowsKeepsOthers(e, db.links, Doomed(e, ids));
    if exists k :: k in db.tags && Selected(db.tags[k], names, tenant) {
      var k :| k in db.tags && Selected(db.tags[k], names, tenant);
      assert k in ids;
    } else {
      assert ids == {};
    }
  }

  /**
   * `removeTags`: nothing at all for an empty list; otherwise one
   * transaction that lowers the counter of every selected tag by one, deletes
   * every tag whose counter is at most zero (in any tenant), and deletes the
   * entity's join rows for the selected tags, or all of the entity's join
   * rows when no tag was selected. On failure both tables are as before; the
   * owner's attribute is never touched.
   */
  function RemoveTags(db: Db, tenant: TenantId, e: Entity, names: seq<string>, fail: bool, attr: Option<string>): (r: Outcome)
    ensures r.attr == attr
    ensures |names| == 0 || fail ==> r.db == db
    ensures |names| > 0 && !fail ==> r.db.nextId == db.nextId
    ensures |names| > 0 && !fail ==> forall k :: k in r.db.tags ==> r.db.tags[k].frequency > 0
    ensures |names| > 0 && !fail ==> forall k :: k in r.db.tags <==>
              k in db.tags && db.tags[k].frequency - (if Selected(db.tags[k], names, tenant) then 1 else 0) > 0
    ensures |names| > 0 && !fail ==> forall k :: k in r.db.tags ==>
              r.db.tags[k] == db.tags[k].(frequency := db.tags[k].frequency - (if Selected(db.tags[k], names, tenant) then 1 else 0))
    ensures |names| > 0 && !fail ==> RowsOfOthers(e, r.db.links) == RowsOfOthers(e, db.links)
    ensures |names| > 0 && !fail ==> forall row :: row in r.db.links <==>
              && row in db.links
              && !(Owns(e, row) && ((forall k :: k in db.tags ==> !Selected(db.tags[k], names, tenant))
                                    || (row.tagId in db.tags && Selected(db.tags[row.tagId], names, tenant))))
    ensures |names| > 0 && !fail ==>
              forall row :: multiset(r.db.links)[row] ==
                (if Owns(e, row) && ((forall k :: k in db.tags ==> !Selected(db.tags[k], names, tenant))
                                     || (row.tagId in db.tags && Selected(db.tags[row.tagId], names, tenant)))
                 then 0 else multiset(db.links)[row])
  {
    if |names| == 0 || fail then Outcome(db, attr)
    else
      CommitRemoveTags(db, tenant, e, names);
      CommitRemoveLinks(db, tenant, e, names);
      Outcome(CommitRemove(db, tenant, e, names), attr)
  }

  /** At most one tag per name and tenant. */
  ghost predicate UniqueNames(db: Db) {
    forall k1, k2 :: k1 in db.tags && k2 in db.tags && Named(db.tags[k2], db.tags[k1].name, db.tags[k1].tenant) ==> k1 == k2
  }

  /**
   * A single request never creates a second tag for a name in a tenant:
   * `addTags` inserts only names that did not resolve, and a name inserted
   * earlier in the loop resolves later in the same loop.
   */
  lemma AddTagsKeepsNamesUnique(db: Db, ctx: Context, e: Entity, names: seq<string>, fail: bool, attr: Option<string>)
    requires UniqueNames(db)
    ensures UniqueNames(AddTags(db, ctx, e, names, fail, attr).db)
  {
    var r := AddTags(db, ctx, e, names, fail, attr).db;
    if !fail {
      forall k1, k2 | k1 in r.tags && k2 in r.tags && Named(r.tags[k2], r.tags[k1].name, r.tags[k1].tenant)
        ensures k1 == k2
      {
        var n := r.tags[k1].name;
        if k1 !in db.tags {
          assert Lookup(r, n, ctx.tenant) == Some(k1);
          if k2 !in db.tags {
            assert Lookup(r, r.tags[k2].name, ctx.tenant) == Some(k2);
          }
        } else if k2 !in db.tags {
          var n2 := r.tags[k2].name;
          assert Lookup(db, n2, ctx.tenant).None?;
          assert Named(db.tags[k1], n2, ctx.tenant);
        }
      }
    }
  }

  lemma RemoveTagsKeepsNamesUnique(db: Db, tenant: TenantId, e: Entity, names: seq<string>, fail: bool, attr: Option<string>)
    requires UniqueNames(db)
    ensures UniqueNames(RemoveTags(db, tenant, e, names, fail, attr).db)
  {
  }

  /** Every counter is at least one: the state `removeTags`'s cleanup leaves behind. */
  predicate Positive(db: Db) {
    forall k :: k in db.tags ==> db.tags[k].frequency > 0
  }

  /** `addTags` only raises counters and starts new ones at one or two. */
  lemma AddTagsKeepsPositive(db: Db, ctx: Context, e: Entity, names: seq<string>, fail: bool, attr: Option<string>)
    requires Positive(db)
    ensures Positive(AddTags(db, ctx, e, names, fail, attr).db)
  {
    var r := AddTags(db, ctx, e, names, fail, attr).db;
    if !fail {
      forall k | k in r.tags
        ensures r.tags[k].frequency > 0
      {
        if k !in db.tags {
          var n := r.tags[k].name;
          assert r.tags[k] == NewTag(ctx, n).(frequency := if multiset(names)[n] >= 2 then 2 else 1);
        }
      }
    }
  }

  /** `removeTags` leaves every counter at least one, whether it commits or not. */
  lemma RemoveTagsKeepsPositive(db: Db, tenant: TenantId, e: Entity, names: seq<string>, fail: bool, attr: Option<string>)
    requires Positive(db)
    ensures Positive(RemoveTags(db, tenant, e, names, fail, attr).db)
  {
  }

  /**
   * A name `removeTags` was not asked to remove keeps resolving: its tag is
   * not selected, so its counter is not decremented and the cleanup spares it.
   */
  lemma RemoveTagsKeepsOtherNames(db: Db, tenant: TenantId, e: Entity, names: seq<string>, fail: bool,
                                  attr: Option<string>, n: string)
    requires Positive(db)
    requires n !in names
    ensures Lookup(db, n, tenant).Some? ==> Lookup(RemoveTags(db, tenant, e, names, fail, attr).db, n, tenant).Some?
  {
    var r := RemoveTags(db, tenant, e, names, fail, attr).db;
    if Lookup(db, n, tenant).Some? && |names| > 0 && !fail {
      var k := Lookup(db, n, tenant).value;
      assert !Selected(db.tags[k], names, tenant);
      assert k in r.tags && Named(r.tags[k], n, tenant);
    }
  }

  /**
   * Adding one name the tenant has no tag for inserts exactly one tag, with
   * counter one, under the next id, and exactly one join row for it.
   */
  lemma AddOneNewName(db: Db, ctx: Context, e: Entity, n: string, attr: Option<string>)
    requires Lookup(db, n, ctx.tenant).None?
    ensures var r := AddTags(db, ctx, e, [n], false, attr).db;
            && r.tags == db.tags[db.nextId := NewTag(ctx, n)]
            && r.links == db.links + [EntityTag(e.id, e.name, db.nextId)]
            && r.nextId == db.nextId + 1
  {
    var d := Insert(db, NewTag(ctx, n));
    assert [n][1..] == [];
    assert AddEach(db, ctx, e, [n]) == Pending(d, [], [EntityTag(e.id, e.name, db.nextId)]);
  }

  /**
   * A name the tenant has no tag for, given twice: the first occurrence
   * inserts the tag with counter one, the second finds it and queues it for
   * the bulk update, so the tag ends with counter two and two join rows.
   */
  lemma RepeatedNewNameCountsTwice(db: Db, ctx: Context, e: Entity, n: string, attr: Option<string>)
    requires Lookup(db, n, ctx.tenant).None?
    ensures var r := AddTags(db, ctx, e, [n, n], false, attr).db;
            && r.tags == db.tags[db.nextId := NewTag(ctx, n).(frequency := 2)]
            && r.links == db.links + [EntityTag(e.id, e.name, db.nextId), EntityTag(e.id, e.name, db.nextId)]
            && r.nextId == db.nextId + 1
  {
    var t := NewTag(ctx, n);
    var d := Insert(db, t);
    var row := EntityTag(e.id, e.name, db.nextId);
    LookupAfterInsert(db, t, n, ctx.tenant);
    assert [n, n][1..] == [n] && [n][1..] == [];
    assert AddEach(d, ctx, e, [n]) == Pending(d, [db.nextId], [row]);
    assert AddEach(db, ctx, e, [n, n]) == Pending(d, [db.nextId], [row, row]);
    assert (set k | k in [db.nextId]) == {db.nextId};
    var r := CommitAdd(Pending(d, [db.nextId], [row, row]));
    assert r.tags == db.tags[db.nextId := t.(frequency := 2)];
  }

  /**
   * A name that already has a tag and is given twice links the entity to
   * that tag twice but raises its counter only once: the `IN (...)` list
   * of the bulk update matches each id once.
   */
  lemma RepeatedKnownNameBumpsOnce(db: Db, ctx: Context, e: Entity, n: string, attr: Option<string>)
    requires Lookup(db, n, ctx.tenant).Some?
    ensures var k := Lookup(db, n, ctx.tenant).value;
            var r := AddTags(db, ctx, e, [n, n], false, attr).db;
            && r.tags[k].frequency == db.tags[k].frequency + 1
            && r.links == db.links + [EntityTag(e.id, e.name, k), EntityTag(e.id, e.name, k)]
  {
    var k := Lookup(db, n, ctx.tenant).value;
    var r := AddTags(db, ctx, e, [n, n], false, attr).db;
    assert ResolvedBy(db, [n, n], ctx.tenant, k) by {
      assert [n, n][0] == n;
    }
    RowsOfRepeatedName(db, r, e, n, ctx.tenant, k);
  }

  /** The two rows appended for a name given twice both link its tag. */
  lemma RowsOfRepeatedName(db: Db, r: Db, e: Entity, n: string, tenant: TenantId, k: TagId)
    requires |r.links| == |db.links| + 2 && r.links[..|db.links|] == db.links
    requires RowsResolve(r.links[|db.links|..], r, e, [n, n], tenant)
    requires Lookup(r, n, tenant) == Some(k)
    ensures r.links == db.links + [EntityTag(e.id, e.name, k), EntityTag(e.id, e.name, k)]
  {
    var rows := r.links[|db.links|..];
    assert [n, n][0] == n && [n, n][1] == n;
    assert rows == [EntityTag(e.id, e.name, k), EntityTag(e.id, e.name, k)];
    assert r.links == r.links[..|db.links|] + rows;
  }

  /**
   * When none of the names has a tag in the tenant, `removeTags` drops the
   * tag condition from its delete and unlinks the entity from every tag,
   * including tags it still carries.
   */
  lemma RemoveUnknownNamesUnlinksEverything(db: Db, tenant: TenantId, e: Entity, names: seq<string>, attr: Option<string>)
    requires |names| > 0
    requires forall k :: k in db.tags ==> !Selected(db.tags[k], names, tenant)
    ensures var r := RemoveTags(db, tenant, e, names, false, attr).db;
            && (forall k :: k in r.tags ==> k in db.tags && r.tags[k] == db.tags[k])
            && forall row :: row in r.links <==> row in db.links && !Owns(e, row)
  {
    var r := RemoveTags(db, tenant, e, names, false, attr).db;
    forall k | k in r.tags
      ensures k in db.tags && r.tags[k] == db.tags[k]
    {
      assert !Selected(db.tags[k], names, tenant);
    }
  }

  /**
   * The cleanup `DELETE ... WHERE frequency <= 0` has no tenant condition:
   * a spent tag of any tenant disappears, even when no name matched.
   */
  lemma CleanupIgnoresTenant(db: Db, tenant: TenantId, e: Entity, names: seq<string>, attr: Option<string>, k: TagId)
    requires |names| > 0
    requires k in db.tags && db.tags[k].tenant != tenant && db.tags[k].frequency <= 0
    ensures k !in RemoveTags(db, tenant, e, names, false, attr).db.tags
  {
    assert !Selected(db.tags[k], names, tenant);
  }

  /**
   * `removeTags` never creates a tag, never raises a counter and never adds
   * a join row; when it commits, no row of the entity is left that links it
   * to a selected tag.
   */
  lemma RemoveTagsOnlyShrinks(db: Db, tenant: TenantId, e: Entity, names: seq<string>, fail: bool, attr: Option<string>)
    ensures var r := RemoveTags(db, tenant, e, names, fail, attr).db;
            && (forall k :: k in r.tags ==> k in db.tags && r.tags[k].frequency <= db.tags[k].frequency)
            && (forall row :: row in r.links ==> row in db.links)
    ensures var r := RemoveTags(db, tenant, e, names, fail, attr).db;
            !fail ==> forall row :: row in r.links && Owns(e, row) ==>
              !(row.tagId in db.tags && Selected(db.tags[row.tagId], names, tenant))
  {
    if |names| == 0 {
      forall row | row in db.links && Owns(e, row) && row.tagId in db.tags
        ensures !Selected(db.tags[row.tagId], names, tenant)
      {
      }
    }
  }

  /**
   * Every id the `addTags` lookup resolves one of the names to is among the
   * ids the `removeTags` query selects for those names.
   */
  lemma ResolvedIdsAreSelected(db: Db, names: seq<string>, tenant: TenantId, n: string)
    requires n in names && Lookup(db, n, tenant).Some?
    ensures Lookup(db, n, tenant).value in SelectIds(db, names, tenant)
  {
  }

  /**
   * With at most one tag per name and tenant the two queries agree: every id
   * the `removeTags` query selects is the one the lookup resolves some name to.
   */
  lemma SelectedIdsAreResolved(db: Db, names: seq<string>, tenant: TenantId, k: TagId)
    requires UniqueNames(db)
    requires k in SelectIds(db, names, tenant)
    ensures exists n :: n in names && Lookup(db, n, tenant) == Some(k)
  {
    var n := db.tags[k].name;
    assert Named(db.tags[k], n, tenant);
    var k' := Lookup(db, n, tenant).value;
    assert Named(db.tags[k'], db.tags[k].name, db.tags[k].tenant);
    assert n in names && Lookup(db, n, tenant) == Some(k);
  }
}
