/**
 * The tagged behaviour itself: `updateFrequency` parses the old and the new
 * tag string, adds the names only the new one has and removes the names only
 * the old one has; the lifecycle hooks decide which pair of strings it gets.
 */
module TaggedBehavior {
  import opened Wrappers
  import opened TagStrings
  import opened TagRegistry

  /** A tag attribute or snapshot as text: PHP trims `null` to `''`. */
  function Text(s: Option<string>): string {
    s.GetOr("")
  }

  /** `trim(null)` is the empty string, so a null tag attribute names no tags. */
  lemma NullNamesNothing(s: Option<string>)
    ensures ParseTags(Text(s)) == if s.Some? then ParseTags(s.value) else []
  {
    ParseTagsEmptyIffBlank("");
  }

  /** The names to add and the names to remove. */
  datatype Changes = Changes(added: seq<string>, removed: seq<string>)

  /**
   * The first half of `updateFrequency`: the names of the new string missing
   * from the old one, and the names of the old string missing from the new
   * one, each in its string's order with repetitions kept.
   */
  function TagChanges(oldTags: Option<string>, newTags: Option<string>): (c: Changes)
    ensures forall x :: x in c.added <==> x in ParseTags(Text(newTags)) && x !in ParseTags(Text(oldTags))
    ensures forall x :: x in c.removed <==> x in ParseTags(Text(oldTags)) && x !in ParseTags(Text(newTags))
    ensures forall x :: !(x in c.added && x in c.removed)
    ensures forall x :: x in c.added ==> multiset(c.added)[x] == multiset(ParseTags(Text(newTags)))[x]
    ensures forall x :: x in c.removed ==> multiset(c.removed)[x] == multiset(ParseTags(Text(oldTags)))[x]
    ensures forall x :: x in c.added ==> WellFormed(x)
    ensures forall x :: x in c.removed ==> WellFormed(x)
  {
    var oldNames := ParseTags(Text(oldTags));
    var newNames := ParseTags(Text(newTags));
    DifferenceCounts(newNames, oldNames);
    DifferenceCounts(oldNames, newNames);
    Changes(Difference(newNames, oldNames), Difference(oldNames, newNames))
  }

  /**
   * `updateFrequency`: `addTags` with the added names, then `removeTags`
   * with the removed names, each in its own transaction; `addFails` and
   * `removeFails` say which of the two transactions fails. `attr` is the
   * owner's tag attribute, which a failed `addTags` sets to null.
   */
  function UpdateFrequency(db: Db, ctx: Context, e: Entity, oldTags: Option<string>, newTags: Option<string>,
                           addFails: bool, removeFails: bool, attr: Option<string>): (r: Outcome)
    ensures r.attr == if addFails then None else attr
    ensures addFails && removeFails ==> r.db == db
  {
    var c := TagChanges(oldTags, newTags);
    var added := AddTags(db, ctx, e, c.added, addFails, attr);
    RemoveTags(added.db, ctx.tenant, e, c.removed, removeFails, added.attr)
  }

  /**
   * `afterSave` (after insert and after update): the snapshot taken when the
   * record was loaded against the attribute's current value.
   */
  function AfterSave(db: Db, ctx: Context, e: Entity, snapshot: Option<string>,
                     addFails: bool, removeFails: bool, attr: Option<string>): (r: Outcome)
    ensures r.attr == if addFails then None else attr
    ensures addFails && removeFails ==> r.db == db
  {
    UpdateFrequency(db, ctx, e, snapshot, attr, addFails, removeFails, attr)
  }

  /** `afterDelete`: the snapshot against the empty string. */
  function AfterDelete(db: Db, ctx: Context, e: Entity, snapshot: Option<string>,
                       addFails: bool, removeFails: bool, attr: Option<string>): (r: Outcome)
    ensures r.attr == if addFails then None else attr
    ensures addFails && removeFails ==> r.db == db
  {
    UpdateFrequency(db, ctx, e, snapshot, Some(""), addFails, removeFails, attr)
  }

  /**
   * On delete nothing is added and every name of the snapshot is removed,
   * in order and with repetitions.
   */
  lemma DeleteRemovesEverySnapshotName(snapshot: Option<string>)
    ensures TagChanges(snapshot, Some("")) == Changes([], ParseTags(Text(snapshot)))
  {
    ParseTagsEmptyIffBlank("");
    DifferenceOfNothing(ParseTags(Text(snapshot)));
  }

  /** `addTags` with no names changes no table (its transaction may still fail). */
  lemma AddNothingChangesNothing(db: Db, ctx: Context, e: Entity, fail: bool, attr: Option<string>)
    ensures AddTags(db, ctx, e, [], fail, attr).db == db
  {
    if !fail {
      assert db.links + [] == db.links;
    }
  }

  /** On delete only `removeTags` can change a table: it gets every name of the snapshot. */
  lemma AfterDeleteIsRemoval(db: Db, ctx: Context, e: Entity, snapshot: Option<string>,
                             addFails: bool, removeFails: bool, attr: Option<string>)
    ensures AfterDelete(db, ctx, e, snapshot, addFails, removeFails, attr)
         == RemoveTags(db, ctx.tenant, e, ParseTags(Text(snapshot)), removeFails, if addFails then None else attr)
  {
    DeleteRemovesEverySnapshotName(snapshot);
    AddNothingChangesNothing(db, ctx, e, addFails, attr);
  }

  /**
   * Deleting a record never creates a tag, never raises a counter and never
   * adds a join row; when the removal commits, no row of the record is left
   * that links it to a tag of the tenant named in the snapshot.
   */
  lemma AfterDeleteOnlyShrinks(db: Db, ctx: Context, e: Entity, snapshot: Option<string>,
                               addFails: bool, removeFails: bool, attr: Option<string>)
    ensures var r := AfterDelete(db, ctx, e, snapshot, addFails, removeFails, attr);
            && (forall k :: k in r.db.tags ==> k in db.tags && r.db.tags[k].frequency <= db.tags[k].frequency)
            && (forall row :: row in r.db.links ==> row in db.links)
            && r.attr == (if addFails then None else attr)
    ensures var r := AfterDelete(db, ctx, e, snapshot, addFails, removeFails, attr);
            !removeFails ==> forall row :: row in r.db.links && Owns(e, row) ==>
              !(row.tagId in db.tags && Selected(db.tags[row.tagId], ParseTags(Text(snapshot)), ctx.tenant))
  {
    AfterDeleteIsRemoval(db, ctx, e, snapshot, addFails, removeFails, attr);
    RemoveTagsOnlyShrinks(db, ctx.tenant, e, ParseTags(Text(snapshot)), removeFails, if addFails then None else attr);
  }

  /**
   * When no counter was at or below zero and `addTags` commits, every name
   * the save added resolves to a tag afterwards, whatever `removeTags` does:
   * the names removed are different ones, and the added tags' counters are
   * at least one.
   */
  lemma AfterSaveResolvesAddedNames(db: Db, ctx: Context, e: Entity, snapshot: Option<string>,
                                    removeFails: bool, attr: Option<string>)
    requires Positive(db)
    ensures var r := AfterSave(db, ctx, e, snapshot, false, removeFails, attr);
            forall n :: n in TagChanges(snapshot, attr).added ==> Lookup(r.db, n, ctx.tenant).Some?
  {
    var c := TagChanges(snapshot, attr);
    var mid := AddTags(db, ctx, e, c.added, false, attr);
    AddTagsKeepsPositive(db, ctx, e, c.added, false, attr);
    assert ResolvesAll(mid.db, c.added, ctx.tenant);
    forall n | n in c.added
      ensures Lookup(RemoveTags(mid.db, ctx.tenant, e, c.removed, removeFails, mid.attr).db, n, ctx.tenant).Some?
    {
      var i :| 0 <= i < |c.added| && c.added[i] == n;
      RemoveTagsKeepsOtherNames(mid.db, ctx.tenant, e, c.removed, removeFails, mid.attr, n);
    }
    assert AfterSave(db, ctx, e, snapshot, false, removeFails, attr)
        == RemoveTags(mid.db, ctx.tenant, e, c.removed, removeFails, mid.attr);
  }

  /** A save or a delete leaves every counter at least one if it found them so. */
  lemma UpdateFrequencyKeepsPositive(db: Db, ctx: Context, e: Entity, oldTags: Option<string>, newTags: Option<string>,
                                     addFails: bool, removeFails: bool, attr: Option<string>)
    requires Positive(db)
    ensures Positive(UpdateFrequency(db, ctx, e, oldTags, newTags, addFails, removeFails, attr).db)
  {
    var c := TagChanges(oldTags, newTags);
    var added := AddTags(db, ctx, e, c.added, addFails, attr);
    AddTagsKeepsPositive(db, ctx, e, c.added, addFails, attr);
    RemoveTagsKeepsPositive(added.db, ctx.tenant, e, c.removed, removeFails, added.attr);
  }

  /**
   * When the old and the new string name the same tags, in whatever order,
   * spacing or repetition, the update touches no table.
   */
  lemma SameNamesChangeNothing(db: Db, ctx: Context, e: Entity, oldTags: Option<string>, newTags: Option<string>,
                               addFails: bool, removeFails: bool, attr: Option<string>)
    requires forall x :: x in ParseTags(Text(oldTags)) <==> x in ParseTags(Text(newTags))
    ensures UpdateFrequency(db, ctx, e, oldTags, newTags, addFails, removeFails, attr).db == db
  {
    DifferenceOfCovered(ParseTags(Text(newTags)), ParseTags(Text(oldTags)));
    DifferenceOfCovered(ParseTags(Text(oldTags)), ParseTags(Text(newTags)));
    AddNothingChangesNothing(db, ctx, e, addFails, attr);
  }

  /** Two well-formed names joined by the separator parse back to the pair. */
  lemma ParsePair(x: string, y: string)
    requires WellFormed(x) && WellFormed(y)
    ensures ParseTags(x + ", " + y) == [x, y]
  {
    ParseFormatRoundTrip([x, y]);
    assert [x, y][1..] == [y];
  }

  /** A single well-formed name parses to itself. */
  lemma ParseOne(x: string)
    requires WellFormed(x)
    ensures ParseTags(x) == [x]
  {
    ParseFormatRoundTrip([x]);
  }

  /**
   * A save that replaces a name without a tag in the tenant by another name,
   * with both transactions committing: the new name gets its tag and its
   * counter, but the delete of `removeTags` finds no id to restrict itself
   * to and so also deletes the row `addTags` has just inserted. The record
   * is left with no join row at all.
   */
  lemma ReplacingUnknownNameUnlinksRecord(db: Db, ctx: Context, e: Entity, a: string, b: string)
    requires WellFormed(a) && WellFormed(b) && a != b
    requires Positive(db) && Lookup(db, a, ctx.tenant).None?
    ensures var r := AfterSave(db, ctx, e, Some(a), false, false, Some(b)).db;
            && Lookup(r, b, ctx.tenant).Some?
            && forall row :: row in r.links <==> row in db.links && !Owns(e, row)
  {
    ReplaceOneName(a, b);
    AfterSaveResolvesAddedNames(db, ctx, e, Some(a), false, Some(b));
    var mid := AddTags(db, ctx, e, [b], false, Some(b));
    AddOtherNameKeepsUnknown(db, ctx, e, a, b);
    RemoveUnknownNamesUnlinksEverything(mid.db, ctx.tenant, e, [a], mid.attr);
    assert AfterSave(db, ctx, e, Some(a), false, false, Some(b))
        == RemoveTags(mid.db, ctx.tenant, e, [a], false, mid.attr);
  }

  /** Replacing one well-formed name by another adds the new one and removes the old one. */
  lemma ReplaceOneName(a: string, b: string)
    requires WellFormed(a) && WellFormed(b) && a != b
    ensures TagChanges(Some(a), Some(b)) == Changes([b], [a])
  {
    ParseOne(a);
    ParseOne(b);
    DifferenceOfOne(b, [a]);
    DifferenceOfOne(a, [b]);
  }

  /**
   * `addTags` with one other name creates no tag named `a` in the tenant,
   * and the rows it adds all belong to the record.
   */
  lemma AddOtherNameKeepsUnknown(db: Db, ctx: Context, e: Entity, a: string, b: string)
    requires a != b && Lookup(db, a, ctx.tenant).None?
    ensures var mid := AddTags(db, ctx, e, [b], false, Some(b)).db;
            && (forall k :: k in mid.tags ==> !Selected(mid.tags[k], [a], ctx.tenant))
            && (forall row :: row in db.links ==> row in mid.links)
            && forall row :: row in mid.links && row !in db.links ==> Owns(e, row)
  {
    var mid := AddTags(db, ctx, e, [b], false, Some(b)).db;
    forall k | k in mid.tags
      ensures !Selected(mid.tags[k], [a], ctx.tenant)
    {
      if k in db.tags {
        assert !Named(db.tags[k], a, ctx.tenant);
      }
    }
    assert mid.links == db.links + mid.links[|db.links|..];
    assert forall row :: row in mid.links[|db.links|..] ==> Owns(e, row);
  }

  lemma DifferenceOfOne(x: string, b: seq<string>)
    ensures Difference([x], b) == if x in b then [] else [x]
  {
    assert [x][1..] == [];
  }

  /** The difference of a two-element list, element by element. */
  lemma DifferenceOfPair(x: string, y: string, b: seq<string>)
    ensures Difference([x, y], b)
         == (if x in b then [] else [x]) + (if y in b then [] else [y])
  {
    assert [x, y] == [x] + [y];
    DifferenceOfConcat([x], [y], b);
    DifferenceOfOne(x, b);
    DifferenceOfOne(y, b);
  }

  /**
   * A record saved with "a, b" and updated to "b, c", for any three distinct
   * well-formed names: "c" is added, "a" is removed, "b" is left alone.
   */
  lemma UpdateScenario(a: string, b: string, c: string)
    requires WellFormed(a) && WellFormed(b) && WellFormed(c)
    requires a != b && b != c && a != c
    ensures TagChanges(Some(a + ", " + b), Some(b + ", " + c)) == Changes([c], [a])
  {
    ParsePair(a, b);
    ParsePair(b, c);
    DifferenceOfPair(b, c, [a, b]);
    DifferenceOfPair(a, b, [b, c]);
  }
}
