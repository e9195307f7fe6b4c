/** The catalog kept by cookbook_manager.py, as values: the three tables
    (cookbooks, tags and the cookbook_tags join table), the validation chain of
    insert_cookbook, the fixed season-to-tags table of rotate_seasonal_collection,
    and the effect of every operation as a function from one catalog to the next.
    The class in store.dfy performs the same operations in place and is proved
    against these functions. */
module CookbookCatalog {

  datatype Option<T> = None | Some(value: T)

  datatype Result<T, E> = Success(value: T) | Failure(error: E)

  /** A tuple field whose Python type insert_cookbook checks at run time. */
  datatype PyValue = PyInt(i: int) | PyBool(b: bool) | PyStr(s: string) | PyNone

  /** The six-field tuple handed to insert_cookbook. */
  datatype CookbookInput = CookbookInput(
    title: string,
    author: string,
    yearPublished: PyValue,
    aestheticRating: int,
    instagramWorthy: PyValue,
    coverColor: string)

  /** The six data columns of a row of the cookbooks table. */
  datatype Cookbook = Cookbook(
    title: string,
    author: string,
    yearPublished: int,
    aestheticRating: int,
    instagramWorthy: bool,
    coverColor: string)

  /** A row as SELECT * returns it: the AUTOINCREMENT id, then the data columns. */
  datatype Row = Row(id: nat, book: Cookbook)

  /** Why insert_cookbook refused a tuple, in the order it checks. */
  datatype Rejection = EmptyField | InvalidYear | InvalidRating | InvalidFlag

  function Rank(k: Rejection): nat
  {
    match k
    case EmptyField => 0
    case InvalidYear => 1
    case InvalidRating => 2
    case InvalidFlag => 3
  }

  /** isinstance(v, int): a Python bool is an int too. */
  predicate IsInt(v: PyValue)
  {
    v.PyInt? || v.PyBool?
  }

  /** The integer a value that passes IsInt stands for (True is 1). */
  function IntOf(v: PyValue): int
    requires IsInt(v)
  {
    if v.PyInt? then v.i else if v.b then 1 else 0
  }

  /** Whether c survives the check that reports k. */
  predicate Passes(c: CookbookInput, k: Rejection)
  {
    match k
    case EmptyField => c.title != [] && c.author != []
    case InvalidYear => IsInt(c.yearPublished) && IntOf(c.yearPublished) >= 0
    case InvalidRating => 1 <= c.aestheticRating <= 5
    case InvalidFlag => c.instagramWorthy.PyBool?
  }

  /** What every stored cookbook satisfies. */
  predicate WellFormed(b: Cookbook)
  {
    b.title != [] && b.author != [] && b.yearPublished >= 0 && 1 <= b.aestheticRating <= 5
  }

  /** b holds exactly the fields of the tuple c. */
  predicate StoredAs(c: CookbookInput, b: Cookbook)
  {
    && b.title == c.title
    && b.author == c.author
    && IsInt(c.yearPublished) && b.yearPublished == IntOf(c.yearPublished)
    && b.aestheticRating == c.aestheticRating
    && c.instagramWorthy.PyBool? && b.instagramWorthy == c.instagramWorthy.b
    && b.coverColor == c.coverColor
  }

  /** The validation chain of insert_cookbook: fail on the first check that does
      not hold, otherwise the row to insert. */
  function Validate(c: CookbookInput): (r: Result<Cookbook, Rejection>)
    ensures r.Failure? ==> !Passes(c, r.error)
    ensures r.Success? <==> forall k :: Passes(c, k)
    ensures r.Failure? ==> forall k :: Rank(k) < Rank(r.error) ==> Passes(c, k)
    ensures r.Success? ==> WellFormed(r.value) && StoredAs(c, r.value)
  {
    if c.title == [] || c.author == [] then Failure(EmptyField)
    else if !IsInt(c.yearPublished) || IntOf(c.yearPublished) < 0 then Failure(InvalidYear)
    else if !(1 <= c.aestheticRating <= 5) then Failure(InvalidRating)
    else if !c.instagramWorthy.PyBool? then Failure(InvalidFlag)
    else Success(Cookbook(c.title, c.author, IntOf(c.yearPublished), c.aestheticRating,
                          c.instagramWorthy.b, c.coverColor))
  }

  /** What running the chain as written does: the rating check reads a name
      that the unpacking never bound, so it raises before the insert. */
  datatype Checked = Accepted(book: Cookbook) | Rejected(reason: Rejection) | RaisesNameError

  function ValidateAsWritten(c: CookbookInput): (r: Checked)
    ensures !r.Accepted?
    ensures r.Rejected? <==> Validate(c).Failure? && Rank(Validate(c).error) < Rank(InvalidRating)
    ensures r.Rejected? ==> Validate(c) == Failure(r.reason)
    ensures r.RaisesNameError? <==> Passes(c, EmptyField) && Passes(c, InvalidYear)
  {
    if c.title == [] || c.author == [] then Rejected(EmptyField)
    else if !IsInt(c.yearPublished) || IntOf(c.yearPublished) < 0 then Rejected(InvalidYear)
    else RaisesNameError
  }

  /** An entry of the cookbook_tags table. Foreign keys are not enforced, so the
      cookbook id need not name a stored cookbook. */
  datatype Link = Link(cookbookId: int, tagId: nat)

  /** The whole database: the cookbooks table in insertion order with its
      AUTOINCREMENT counter, the tags table (name to id) with its counter, and
      the join table. */
  datatype Catalog = Catalog(
    rows: seq<Row>,
    nextCookbookId: nat,
    tagIds: map<string, nat>,
    nextTagId: nat,
    links: set<Link>)

  /** A freshly created database. */
  const Empty := Catalog([], 1, map[], 1, {})

  /** What the three tables keep true between operations: row ids are positive,
      below the counter and increasing in insertion order (counters start at 1); every row is well
      formed; tag ids are positive, below their counter and distinct; every
      link names an existing tag. */
  predicate Consistent(db: Catalog)
  {
    && db.nextCookbookId >= 1 && db.nextTagId >= 1
    && (forall i :: 0 <= i < |db.rows| ==> 1 <= db.rows[i].id < db.nextCookbookId)
    && (forall i :: 0 <= i < |db.rows| ==> WellFormed(db.rows[i].book))
    && (forall i, j :: 0 <= i < j < |db.rows| ==> db.rows[i].id < db.rows[j].id)
    && (forall n :: n in db.tagIds ==> 1 <= db.tagIds[n] < db.nextTagId)
    && (forall n, m :: n in db.tagIds && m in db.tagIds && n != m ==> db.tagIds[n] != db.tagIds[m])
    && (forall l :: l in db.links ==> l.tagId in db.tagIds.Values)
  }

  lemma EmptyConsistent()
    ensures Consistent(Empty)
  {
  }

  /** A catalog after an operation, with what the operation returned. */
  datatype Outcome<T> = Outcome(after: Catalog, result: T)

  /** insert_cookbook: validate, then append one row under the next id. */
  function Insert(db: Catalog, c: CookbookInput): (r: Outcome<Result<nat, Rejection>>)
    ensures r.result.Failure? <==> Validate(c).Failure?
    ensures r.result.Failure? ==> r.after == db && r.result.error == Validate(c).error
    ensures r.result.Success? ==>
      && r.after.rows == db.rows + [Row(r.result.value, Validate(c).value)]
      && r.after.tagIds == db.tagIds && r.after.nextTagId == db.nextTagId
      && r.after.links == db.links
    ensures Consistent(db) && r.result.Success? ==>
      forall i :: 0 <= i < |db.rows| ==> db.rows[i].id < r.result.value
    ensures Consistent(db) ==> Consistent(r.after)
  {
    match Validate(c)
    case Failure(e) => Outcome(db, Failure(e))
    case Success(book) =>
      var after := db.(rows := db.rows + [Row(db.nextCookbookId, book)],
                       nextCookbookId := db.nextCookbookId + 1);
      AppendKeepsConsistent(db, book);
      Outcome(after, Success(db.nextCookbookId))
  }

  lemma AppendKeepsConsistent(db: Catalog, book: Cookbook)
    requires WellFormed(book)
    ensures Consistent(db) ==>
      Consistent(db.(rows := db.rows + [Row(db.nextCookbookId, book)], nextCookbookId := db.nextCookbookId + 1))
  {
  }

  /** Several insert_cookbook calls in a row, as main makes them. */
  function InsertAll(db: Catalog, cs: seq<CookbookInput>): (r: Catalog)
    ensures |db.rows| <= |r.rows| <= |db.rows| + |cs|
    ensures r.rows[..|db.rows|] == db.rows
    decreases |cs|
  {
    if cs == [] then db else Insert(InsertAll(db, cs[..|cs| - 1]), cs[|cs| - 1]).after
  }

  /** Inserting tuples that all pass validation appends them in order, under
      consecutive ids, and keeps the rows already there. */
  lemma {:induction false} InsertAllAppends(db: Catalog, cs: seq<CookbookInput>)
    requires forall k :: 0 <= k < |cs| ==> Validate(cs[k]).Success?
    ensures |InsertAll(db, cs).rows| == |db.rows| + |cs|
    ensures InsertAll(db, cs).rows[..|db.rows|] == db.rows
    ensures forall k :: 0 <= k < |cs| ==>
      InsertAll(db, cs).rows[|db.rows| + k] == Row(db.nextCookbookId + k, Validate(cs[k]).value)
    ensures InsertAll(db, cs).nextCookbookId == db.nextCookbookId + |cs|
    ensures InsertAll(db, cs).tagIds == db.tagIds && InsertAll(db, cs).nextTagId == db.nextTagId
    ensures InsertAll(db, cs).links == db.links
  {
    if cs != [] {
      var init := cs[..|cs| - 1];
      InsertAllAppends(db, init);
      var mid := InsertAll(db, init);
      assert InsertAll(db, cs) == Insert(mid, cs[|cs| - 1]).after;
      forall k | 0 <= k < |cs|
        ensures InsertAll(db, cs).rows[|db.rows| + k] == Row(db.nextCookbookId + k, Validate(cs[k]).value)
      {
        if k < |init| {
          assert cs[k] == init[k];
        }
      }
    }
  }

  /** One pass of the loop body of add_recipe_tags: INSERT OR IGNORE the name
      into tags, read back its id, INSERT OR IGNORE the link. */
  function AddTag(db: Catalog, cookbookId: int, name: string): (r: Catalog)
    ensures r.tagIds.Keys == db.tagIds.Keys + {name}
    ensures forall n :: n in db.tagIds ==> r.tagIds[n] == db.tagIds[n]
    ensures r.links == db.links + {Link(cookbookId, r.tagIds[name])}
    ensures r.rows == db.rows && r.nextCookbookId == db.nextCookbookId
  {
    var tagged :=
      if name in db.tagIds then db
      else db.(tagIds := db.tagIds[name := db.nextTagId], nextTagId := db.nextTagId + 1);
    tagged.(links := tagged.links + {Link(cookbookId, tagged.tagIds[name])})
  }

  /** add_recipe_tags: the loop body applied to each name in turn. */
  function AddTags(db: Catalog, cookbookId: int, names: seq<string>): (r: Catalog)
    ensures r.tagIds.Keys == db.tagIds.Keys + (set n | n in names)
    ensures forall n :: n in db.tagIds ==> r.tagIds[n] == db.tagIds[n]
    ensures forall n :: n in names ==> Link(cookbookId, r.tagIds[n]) in r.links
    ensures db.links <= r.links
    ensures r.rows == db.rows && r.nextCookbookId == db.nextCookbookId
    decreases |names|
  {
    if names == [] then db
    else
      var init := names[..|names| - 1];
      var last := names[|names| - 1];
      assert forall n :: n in names ==> n in init || n == last;
      AddTag(AddTags(db, cookbookId, init), cookbookId, last)
  }

  /** add_recipe_tags adds no link other than those of the given cookbook to
      the given names. */
  lemma {:induction false} AddTagsOnlyLinksNames(db: Catalog, cookbookId: int, names: seq<string>)
    ensures forall l :: l in AddTags(db, cookbookId, names).links ==>
      l in db.links || exists n :: n in names && l == Link(cookbookId, AddTags(db, cookbookId, names).tagIds[n])
    decreases |names|
  {
    if names != [] {
      var init := names[..|names| - 1];
      var last := names[|names| - 1];
      var before := AddTags(db, cookbookId, init);
      var r := AddTags(db, cookbookId, names);
      assert r == AddTag(before, cookbookId, last);
      AddTagsOnlyLinksNames(db, cookbookId, init);
      forall l | l in r.links
        ensures l in db.links || exists n :: n in names && l == Link(cookbookId, r.tagIds[n])
      {
        if l in before.links && l !in db.links {
          var n :| n in init && l == Link(cookbookId, before.tagIds[n]);
          assert n in names && r.tagIds[n] == before.tagIds[n];
        } else if l !in before.links {
          assert l == Link(cookbookId, r.tagIds[last]);
        }
      }
    }
  }

  lemma AddTagKeepsConsistent(db: Catalog, cookbookId: int, name: string)
    requires Consistent(db)
    ensures Consistent(AddTag(db, cookbookId, name))
  {
  }

  /** add_recipe_tags keeps the tables consistent: in particular every tag name
      keeps a single, distinct id. */
  lemma {:induction false} AddTagsKeepsConsistent(db: Catalog, cookbookId: int, names: seq<string>)
    requires Consistent(db)
    ensures Consistent(AddTags(db, cookbookId, names))
    decreases |names|
  {
    if names != [] {
      var init := names[..|names| - 1];
      AddTagsKeepsConsistent(db, cookbookId, init);
      AddTagKeepsConsistent(AddTags(db, cookbookId, init), cookbookId, names[|names| - 1]);
    }
  }

  /** Once every name is a tag linked to the cookbook, add_recipe_tags with
      those names changes nothing. */
  lemma {:induction false} AddTagsNoChange(db: Catalog, cookbookId: int, names: seq<string>)
    requires forall n :: n in names ==> n in db.tagIds && Link(cookbookId, db.tagIds[n]) in db.links
    ensures AddTags(db, cookbookId, names) == db
    decreases |names|
  {
    if names != [] {
      var init := names[..|names| - 1];
      assert forall n :: n in init ==> n in names;
      AddTagsNoChange(db, cookbookId, init);
    }
  }

  /** add_recipe_tags is idempotent: a second call with the same arguments
      leaves the tables as the first call left them. */
  lemma AddTagsIdempotent(db: Catalog, cookbookId: int, names: seq<string>)
    ensures AddTags(AddTags(db, cookbookId, names), cookbookId, names) == AddTags(db, cookbookId, names)
  {
    AddTagsNoChange(AddTags(db, cookbookId, names), cookbookId, names);
  }

  /** The seasonal_tags dictionary of rotate_seasonal_collection. */
  const SeasonTable: map<string, seq<string>> := map[
    "Winter" := ["comfort food", "soups", "baking", "hearty"],
    "Spring" := ["fresh", "greens", "fermented", "light meals"],
    "Summer" := ["grilling", "salads", "cold drinks", "beach"],
    "Autumn" := ["pumpkin", "harvest", "spices", "warming foods"]]

  /** The tag names of a season, or None for a season the table does not know. */
  function SeasonalTags(season: string): (r: Option<seq<string>>)
    ensures r.Some? <==> season == "Winter" || season == "Spring" || season == "Summer" || season == "Autumn"
    ensures r.Some? ==> |r.value| == 4
  {
    if season in SeasonTable then Some(SeasonTable[season]) else None
  }

  /** The cookbook with this id is linked to a tag whose name is in names: the
      subquery of the second UPDATE (join of cookbook_tags with tags). */
  predicate Tagged(db: Catalog, id: int, names: seq<string>): (r: bool)
    ensures r <==> exists l :: l in db.links && l.cookbookId == id && NamedIn(db, l.tagId, names)
  {
    var r := exists n :: n in names && n in db.tagIds && Link(id, db.tagIds[n]) in db.links;
    assert r ==> exists l :: l in db.links && l.cookbookId == id && NamedIn(db, l.tagId, names) by {
      if r {
        var n :| n in names && n in db.tagIds && Link(id, db.tagIds[n]) in db.links;
        assert NamedIn(db, db.tagIds[n], names);
      }
    }
    r
  }

  /** Some row of the tags table with this id has a name in names: the join
      condition cookbook_tags.tag_id = tags.id with tags.name IN (...). */
  predicate NamedIn(db: Catalog, tagId: nat, names: seq<string>)
  {
    exists n :: n in names && n in db.tagIds && db.tagIds[n] == tagId
  }

  /** UPDATE cookbooks SET instagram_worthy = 0 */
  function ClearWorthy(rows: seq<Row>): (r: seq<Row>)
    ensures |r| == |rows|
    ensures forall i :: 0 <= i < |r| ==> !r[i].book.instagramWorthy
    ensures forall i :: 0 <= i < |r| ==>
      r[i].id == rows[i].id && r[i].book.(instagramWorthy := rows[i].book.instagramWorthy) == rows[i].book
  {
    seq(|rows|, i requires 0 <= i < |rows| => rows[i].(book := rows[i].book.(instagramWorthy := false)))
  }

  /** UPDATE cookbooks SET instagram_worthy = 1 WHERE id IN (the subquery) */
  function MarkTagged(rows: seq<Row>, db: Catalog, names: seq<string>): (r: seq<Row>)
    ensures |r| == |rows|
    ensures forall i :: 0 <= i < |r| ==>
      r[i].book.instagramWorthy == (Tagged(db, rows[i].id, names) || rows[i].book.instagramWorthy)
    ensures forall i :: 0 <= i < |r| ==>
      r[i].id == rows[i].id && r[i].book.(instagramWorthy := rows[i].book.instagramWorthy) == rows[i].book
  {
    seq(|rows|, i requires 0 <= i < |rows| =>
      if Tagged(db, rows[i].id, names) then rows[i].(book := rows[i].book.(instagramWorthy := true))
      else rows[i])
  }

  /** The number of rows the second UPDATE matches (cursor.rowcount). */
  function CountTagged(rows: seq<Row>, db: Catalog, names: seq<string>): (r: nat)
    ensures r <= |rows|
    ensures r == 0 <==> forall i :: 0 <= i < |rows| ==> !Tagged(db, rows[i].id, names)
  {
    if rows == [] then 0
    else (if Tagged(db, rows[0].id, names) then 1 else 0) + CountTagged(rows[1..], db, names)
  }

  /** The number of rows whose instagram_worthy flag is set. */
  function CountWorthy(rows: seq<Row>): nat
  {
    if rows == [] then 0
    else (if rows[0].book.instagramWorthy then 1 else 0) + CountWorthy(rows[1..])
  }

  /** Counting tagged rows before an update counts the flagged rows after it,
      when the update flags exactly the tagged rows. */
  lemma {:induction false} CountAgrees(after: seq<Row>, before: seq<Row>, db: Catalog, names: seq<string>)
    requires |after| == |before|
    requires forall i :: 0 <= i < |before| ==> after[i].book.instagramWorthy == Tagged(db, before[i].id, names)
    ensures CountWorthy(after) == CountTagged(before, db, names)
  {
    if before != [] {
      CountAgrees(after[1..], before[1..], db, names);
    }
  }

  /** rotate_seasonal_collection: an unknown season changes nothing; a known one
      clears every flag, then sets it on the cookbooks tagged with one of the
      season's names, and reports how many it set. */
  function Rotate(db: Catalog, season: string): (r: Outcome<Option<nat>>)
    ensures SeasonalTags(season).None? ==> r.after == db && r.result == None
    ensures SeasonalTags(season).Some? ==>
      && r.result.Some?
      && |r.after.rows| == |db.rows|
      && (forall i :: 0 <= i < |db.rows| ==>
            && r.after.rows[i].book.instagramWorthy == Tagged(db, db.rows[i].id, SeasonalTags(season).value)
            && r.after.rows[i] == db.rows[i].(book := db.rows[i].book.(instagramWorthy := r.after.rows[i].book.instagramWorthy)))
      && r.after.tagIds == db.tagIds && r.after.links == db.links
      && r.after.nextCookbookId == db.nextCookbookId && r.after.nextTagId == db.nextTagId
      && r.result.value == CountWorthy(r.after.rows)
    ensures Consistent(db) ==> Consistent(r.after)
  {
    match SeasonalTags(season)
    case None => Outcome(db, None)
    case Some(names) =>
      var cleared := ClearWorthy(db.rows);
      var marked := MarkTagged(cleared, db, names);
      CountAgrees(marked, cleared, db, names);
      Outcome(db.(rows := marked), Some(CountTagged(cleared, db, names)))
  }

  /** Rotating to the same season twice is the same as rotating once. */
  lemma RotateIdempotent(db: Catalog, season: string)
    ensures Rotate(Rotate(db, season).after, season) == Rotate(db, season)
  {
    var once := Rotate(db, season);
    if SeasonalTags(season).Some? {
      var names := SeasonalTags(season).value;
      var twice := Rotate(once.after, season);
      forall i | 0 <= i < |db.rows| ensures Tagged(once.after, db.rows[i].id, names) == Tagged(db, db.rows[i].id, names) {
      }
      assert twice.after.rows == once.after.rows;
      assert twice.after == once.after;
    }
  }

  /** The five sample tuples of main. */
  const DemoCookbooks: seq<CookbookInput> := [
    CookbookInput("Foraged & Found: A Guide to Pretending You Know About Mushrooms",
                  "Oak Wavelength", PyInt(2023), 5, PyBool(true), "Forest Green"),
    CookbookInput("Small Batch: 50 Recipes You will Never Actually Make",
                  "Sage Moonbeam", PyInt(2022), 4, PyBool(true), "Raw Linen"),
    CookbookInput("The Artistic Toast: Advanced Avocado Techniques",
                  "River Wildflower", PyInt(2023), 5, PyBool(true), "Recycled Brown"),
    CookbookInput("Fermented Everything",
                  "Jim Kombucha", PyInt(2021), 3, PyBool(true), "Denim"),
    CookbookInput("The Deconstructed Sandwich: Making Simple Things Complicated",
                  "Juniper Vinegar-Smith", PyInt(2023), 5, PyBool(true), "Beige")]

  /** As written, main's very first insert raises instead of storing the
      sample, although the intended chain accepts it. */
  lemma DemoRaisesAsWritten()
    ensures forall k :: 0 <= k < |DemoCookbooks| ==>
      Validate(DemoCookbooks[k]).Success? && ValidateAsWritten(DemoCookbooks[k]).RaisesNameError?
  {
  }

  /** The tag names of the Winter example. */
  const WinterExampleTags: seq<string> := ["comfort food", "soups"]

  /** Two samples stored, then the first tagged "comfort food" and "soups":
      the two names get ids 1 and 2 and exactly the two links exist. */
  lemma TagTwoNames(stored: Catalog)
    requires stored == InsertAll(Empty, DemoCookbooks[..2])
    ensures |stored.rows| == 2 && stored.rows[0].id == 1 && stored.rows[1].id == 2
    ensures stored.rows[0].book.instagramWorthy && stored.rows[1].book.instagramWorthy
    ensures AddTags(stored, 1, WinterExampleTags).tagIds == map["comfort food" := 1, "soups" := 2]
    ensures AddTags(stored, 1, WinterExampleTags).links == {Link(1, 1), Link(1, 2)}
  {
    DemoRaisesAsWritten();
    InsertAllAppends(Empty, DemoCookbooks[..2]);
    TagFreshTables(stored);
  }

  /** Tagging cookbook 1 with "comfort food" and "soups" on empty tag tables. */
  lemma TagFreshTables(db: Catalog)
    requires db.tagIds == map[] && db.nextTagId == 1 && db.links == {}
    ensures AddTags(db, 1, WinterExampleTags).tagIds == map["comfort food" := 1, "soups" := 2]
    ensures AddTags(db, 1, WinterExampleTags).links == {Link(1, 1), Link(1, 2)}
  {
  }

  /** Continuing: tagging again changes nothing; rotating to Winter keeps only
      the tagged cookbook's flag (the other's, set on insert, is cleared) and
      reports one row; an unknown season is refused and changes nothing. */
  lemma WinterExample(stored: Catalog, tagged: Catalog)
    requires stored == InsertAll(Empty, DemoCookbooks[..2])
    requires tagged == AddTags(AddTags(stored, 1, WinterExampleTags), 1, WinterExampleTags)
    ensures |tagged.links| == 2
    ensures Rotate(tagged, "Winter").result == Some(1)
    ensures |Rotate(tagged, "Winter").after.rows| == 2
    ensures Rotate(tagged, "Winter").after.rows[0].book.instagramWorthy
    ensures !Rotate(tagged, "Winter").after.rows[1].book.instagramWorthy
    ensures Rotate(tagged, "Atlantis") == Outcome(tagged, None)
  {
    TagTwoNames(stored);
    RetagThenRotate(AddTags(stored, 1, WinterExampleTags), tagged);
  }

  /** The second half of WinterExample, on the catalog TagTwoNames describes. */
  lemma RetagThenRotate(once: Catalog, tagged: Catalog)
    requires |once.rows| == 2 && once.rows[0].id == 1 && once.rows[1].id == 2
    requires once.tagIds == map["comfort food" := 1, "soups" := 2]
    requires once.links == {Link(1, 1), Link(1, 2)}
    requires tagged == AddTags(once, 1, WinterExampleTags)
    ensures |tagged.links| == 2
    ensures Rotate(tagged, "Winter").result == Some(1)
    ensures |Rotate(tagged, "Winter").after.rows| == 2
    ensures Rotate(tagged, "Winter").after.rows[0].book.instagramWorthy
    ensures !Rotate(tagged, "Winter").after.rows[1].book.instagramWorthy
    ensures Rotate(tagged, "Atlantis") == Outcome(tagged, None)
  {
    AddTagsNoChange(once, 1, WinterExampleTags);
    assert tagged == once;
    assert |tagged.links| == 2;
    WinterFlags(tagged);
    assert SeasonalTags("Atlantis") == None;
  }

  lemma WinterFlags(db: Catalog)
    requires |db.rows| == 2 && db.rows[0].id == 1 && db.rows[1].id == 2
    requires db.tagIds == map["comfort food" := 1, "soups" := 2]
    requires db.links == {Link(1, 1), Link(1, 2)}
    ensures Rotate(db, "Winter").result == Some(1)
    ensures |Rotate(db, "Winter").after.rows| == 2
    ensures Rotate(db, "Winter").after.rows[0].book.instagramWorthy
    ensures !Rotate(db, "Winter").after.rows[1].book.instagramWorthy
  {
    var names := SeasonalTags("Winter").value;
    assert "soups" in names;
    assert Tagged(db, 1, names) by {
      assert Link(1, db.tagIds["soups"]) in db.links;
    }
    assert !Tagged(db, 2, names);
    var after := Rotate(db, "Winter").after;
    assert after.rows[0].book.instagramWorthy && !after.rows[1].book.instagramWorthy;
    assert CountWorthy(after.rows) == 1 by {
      var tail := after.rows[1..];
      assert |tail| == 1 && tail[0] == after.rows[1] && tail[1..] == [];
      assert CountWorthy(tail) == 0;
    }
  }
}
