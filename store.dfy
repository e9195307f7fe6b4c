/** The database connection of cookbook_manager.py as an object whose three
    tables are updated in place. Every method is proved against the function of
    CookbookCatalog that gives its effect on the tables. */
module CookbookManager {
  import opened CookbookCatalog

  class Store {
    /** cookbooks, in insertion order, and its AUTOINCREMENT counter */
    var rows: seq<Row>
    var nextCookbookId: nat
    /** tags: name to id (name is UNIQUE), and its AUTOINCREMENT counter */
    var tagIds: map<string, nat>
    var nextTagId: nat
    /** cookbook_tags: a set, so a repeated pair is a no-op */
    var links: set<Link>

    function Snapshot(): Catalog
      reads this
    {
      Catalog(rows, nextCookbookId, tagIds, nextTagId, links)
    }

    predicate Valid()
      reads this
    {
      Consistent(Snapshot())
    }

    /** A new database with the three tables created and empty. */
    constructor ()
      ensures Valid() && Snapshot() == Empty
    {
      rows, nextCookbookId := [], 1;
      tagIds, nextTagId := map[], 1;
      links := {};
    }

    /** insert_cookbook: the validation chain, then one INSERT; the new id is
        returned. */
    method InsertCookbook(c: CookbookInput) returns (r: Result<nat, Rejection>)
      requires Valid()
      modifies this
      ensures Valid()
      ensures Snapshot() == Insert(old(Snapshot()), c).after
      ensures r == Insert(old(Snapshot()), c).result
    {
      var checked := Validate(c);
      if checked.Failure? {
        return Failure(checked.error);
      }
      r := Success(nextCookbookId);
      rows := rows + [Row(nextCookbookId, checked.value)];
      nextCookbookId := nextCookbookId + 1;
    }

    /** get_all_cookbooks: every row, in insertion order ([] when there is none). */
    method GetAllCookbooks() returns (books: seq<Row>)
      requires Valid()
      ensures books == rows
      ensures forall i, j :: 0 <= i < j < |books| ==> books[i].id < books[j].id
      ensures forall i :: 0 <= i < |books| ==> WellFormed(books[i].book)
    {
      if rows == [] {
        return [];
      }
      books := rows;
    }

    /** add_recipe_tags: for each name, INSERT OR IGNORE it into tags, look up
        its id, INSERT OR IGNORE the pair into cookbook_tags. */
    method AddRecipeTags(cookbookId: int, tags: seq<string>)
      requires Valid()
      modifies this
      ensures Valid()
      ensures Snapshot() == AddTags(old(Snapshot()), cookbookId, tags)
    {
      for i := 0 to |tags|
        invariant Snapshot() == AddTags(old(Snapshot()), cookbookId, tags[..i])
      {
        var tag := tags[i];
        if tag !in tagIds {
          tagIds := tagIds[tag := nextTagId];
          nextTagId := nextTagId + 1;
        }
        var tagId := tagIds[tag];
        links := links + {Link(cookbookId, tagId)};
        assert tags[..i + 1][..i] == tags[..i];
      }
      assert tags[..|tags|] == tags;
      AddTagsKeepsConsistent(old(Snapshot()), cookbookId, tags);
    }

    /** rotate_seasonal_collection: return early on an unknown season;
        otherwise clear every flag, set it on the cookbooks tagged with one of
        the season's names, and report the number of rows the second update
        matched. */
    method RotateSeasonalCollection(season: string) returns (affected: Option<nat>)
      requires Valid()
      modifies this
      ensures Valid()
      ensures Snapshot() == Rotate(old(Snapshot()), season).after
      ensures affected == Rotate(old(Snapshot()), season).result
    {
      var names := SeasonalTags(season);
      if names.None? {
        return None;
      }
      var db := Snapshot();
      rows := ClearWorthy(rows);
      affected := Some(CountTagged(rows, db, names.value));
      rows := MarkTagged(rows, db, names.value);
    }
  }

  /** main without the connection: insert the five samples, then list them. */
  method RunDemo() returns (listed: seq<Row>)
    ensures |listed| == |DemoCookbooks|
    ensures forall k :: 0 <= k < |listed| ==>
      listed[k].id == k + 1 && StoredAs(DemoCookbooks[k], listed[k].book)
  {
    var store := new Store();
    for i := 0 to |DemoCookbooks|
      invariant store.Valid()
      invariant store.Snapshot() == InsertAll(Empty, DemoCookbooks[..i])
    {
      var _ := store.InsertCookbook(DemoCookbooks[i]);
      assert DemoCookbooks[..i + 1][..i] == DemoCookbooks[..i];
    }
    assert DemoCookbooks[..|DemoCookbooks|] == DemoCookbooks;
    DemoRaisesAsWritten();
    InsertAllAppends(Empty, DemoCookbooks);
    listed := store.GetAllCookbooks();
    forall k | 0 <= k < |listed|
      ensures listed[k].id == k + 1 && StoredAs(DemoCookbooks[k], listed[k].book)
    {
      assert listed[k] == Row(1 + k, Validate(DemoCookbooks[k]).value);
    }
  }
}
