# Hipster cookbook catalog, modelled in Dafny

`cookbook_manager.py` keeps a catalog of cookbooks in SQLite. It has three tables:
`cookbooks`, `tags` (unique names) and the join table `cookbook_tags`. Its logic is
small:

- `insert_cookbook` runs a fail-fast chain of four checks, then appends one row and
  returns its new AUTOINCREMENT id.
- `get_all_cookbooks` lists every row.
- `add_recipe_tags` loops over tag names. For each name it inserts the name into `tags`
  if absent, reads back the tag's id, and inserts the pair into `cookbook_tags` if
  absent.
- `rotate_seasonal_collection` looks the season up in a fixed table. It then clears
  every `instagram_worthy` flag and sets the flag on each cookbook that is linked to
  one of that season's tag names.

The model has two modules:

- `CookbookCatalog` (`catalog.dfy`) models the database as a value, `Catalog`. It holds
  the cookbook rows in insertion order and their id counter, the tag table (name to id)
  and its counter, and the set of links. Each operation is a function from catalog to
  catalog plus the returned value: `Validate`, `Insert`, `AddTags`, `Rotate`. The lemmas
  state what the source promises. `Consistent` is the invariant of the three tables.
  The invariant says:
  - row ids are positive, increasing and fresh;
  - every row passed validation;
  - tag ids are distinct;
  - every link names an existing tag.
- `CookbookManager` (`store.dfy`) models the connection as a class `Store`. Its fields
  are the three tables. Its methods update those fields in place, as the SQL
  statements do. Each method is proved to produce the state and result that the
  `CookbookCatalog` function gives. `RunDemo` is `main` without the connection.

Some field types follow Python's types:
- Two tuple fields are checked with `isinstance`: the year and the `instagram_worthy`
  flag. Both are modelled as a loose Python value (`PyValue`).
- A Python `bool` is an `int`, so a boolean year passes the year check and is stored
  as 1 or 0.
- Title, author, rating and cover colour are typed (`string` or `int`).

How the model reads the code:
- `insert_cookbook` returns `None` for every rejection and prints a different message
  for each. The model returns `Failure(reason)`, where the reason names the message
  that would be printed.
- `rotate_seasonal_collection` returns nothing and only prints `cursor.rowcount`. The
  model returns `Some(rowcount)`, or `None` for an unknown season.
- `create_table` executes only the `cookbooks` DDL (line 48); the `tags` and
  `cookbook_tags` statements are built but never run. The model assumes all three
  tables exist.
- SQLite does not enforce foreign keys unless asked, so a link's cookbook id may name
  no cookbook.
- The rating check reads a name that was never bound (see Findings). The rest of the
  model uses the intended check.

## Model

| member | source | states |
|---|---|---|
| CookbookCatalog.Validate | cookbook_manager.py:59-70 | The first failing check, in source order, is the reported reason: empty title or author, then a year that is not a non-negative int (bool counts as int), then a rating outside 1..5, then a flag that is not a bool. Success exactly when all four pass. The accepted row then satisfies the row invariant and holds the tuple's fields. |
| CookbookCatalog.ValidateAsWritten | cookbook_manager.py:56-67 | As written, no tuple is ever accepted. Tuples with an empty title, empty author or bad year are rejected as the intended chain rejects them. Every other tuple raises NameError at the rating check. |
| CookbookCatalog.DemoRaisesAsWritten | cookbook_manager.py:186-201 | Every sample tuple of main passes the intended chain, yet raises as written. |
| CookbookCatalog.Insert | cookbook_manager.py:73-80 | A rejected tuple leaves the catalog unchanged and returns its reason. An accepted tuple appends exactly one row with the validated fields after the existing rows, under an id greater than every existing id. Tags and links are unchanged, and the table invariant is kept. |
| CookbookCatalog.AppendKeepsConsistent | cookbook_manager.py:20-28 | Appending a well-formed row under the next AUTOINCREMENT id keeps ids increasing, positive and below the counter. |
| CookbookCatalog.InsertAllAppends | cookbook_manager.py:200-201 | Inserting valid tuples one after another appends them in order, under consecutive ids, and keeps the earlier rows and the tag tables. |
| CookbookCatalog.InsertAll | cookbook_manager.py:200-201 | main's loop of inserts never removes or reorders a row: the earlier rows stay as a prefix and at most one row is added per tuple. |
| CookbookCatalog.Tagged | cookbook_manager.py:158-162 | A cookbook id is in the subquery exactly when some cookbook_tags row with that cookbook id joins, on tag id, a tags row whose name is in the season's list. |
| CookbookCatalog.ClearWorthy | cookbook_manager.py:152 | The first UPDATE clears the flag on every row and changes no id and no other column. |
| CookbookCatalog.MarkTagged | cookbook_manager.py:155-165 | The second UPDATE sets the flag on exactly the rows whose id is in the subquery, leaves the other rows' flags as they were, and changes no id and no other column. |
| CookbookCatalog.CountTagged | cookbook_manager.py:168 | The rowcount is at most the number of rows, and it is 0 exactly when no row's id is in the subquery (the "No cookbooks matched" case). |
| CookbookCatalog.AddTag | cookbook_manager.py:120-128 | One loop pass: the name becomes a tag (an existing tag keeps its id), and the pair (cookbook, that tag's id) joins the links. Nothing else changes. |
| CookbookCatalog.AddTags | cookbook_manager.py:118-128 | After the loop, the tag names are the old ones plus the given ones, and every existing tag keeps its id. Every pair (cookbook, id of name) is linked, old links stay, and the cookbooks table is unchanged. |
| CookbookCatalog.AddTagsOnlyLinksNames | cookbook_manager.py:127-128 | The only links added are those from the given cookbook to the given names. |
| CookbookCatalog.AddTagKeepsConsistent | cookbook_manager.py:120-124 | INSERT OR IGNORE gives a new name an id unused so far, so tag ids stay distinct and every link names a tag. |
| CookbookCatalog.AddTagsKeepsConsistent | cookbook_manager.py:118-128 | The whole loop keeps the table invariant: each name appears once in the tag table with its own id. |
| CookbookCatalog.AddTagsNoChange | cookbook_manager.py:118-128 | When every name is already a tag linked to the cookbook, the loop changes nothing. |
| CookbookCatalog.AddTagsIdempotent | cookbook_manager.py:118-128 | A second add_recipe_tags call with the same arguments leaves the catalog as the first call left it. |
| CookbookCatalog.SeasonalTags | cookbook_manager.py:137-144 | A season is recognised exactly when it is Winter, Spring, Summer or Autumn. Each recognised season has four tag names. |
| CookbookCatalog.CountAgrees | cookbook_manager.py:165-168 | When an update flags exactly the tagged rows, the number of rows it matched equals the number of flagged rows afterwards. |
| CookbookCatalog.Rotate | cookbook_manager.py:144-168 | An unknown season changes nothing and reports nothing. For a known season, afterwards each cookbook is instagram-worthy if and only if it is linked to a tag named in that season's list, even if it was set before. No other field, tag or link changes. The reported count equals the number of instagram-worthy cookbooks, and the invariant is kept. |
| CookbookCatalog.RotateIdempotent | cookbook_manager.py:151-165 | Rotating to the same season twice gives the same catalog and count as rotating once. |
| CookbookCatalog.TagTwoNames | cookbook_manager.py:118-128 | With two samples stored, tagging the first with "comfort food" and "soups" gives the tag ids 1 and 2 and exactly two links. |
| CookbookCatalog.TagFreshTables | cookbook_manager.py:118-128 | On empty tag tables, tagging cookbook 1 with "comfort food" and "soups" gives those names ids 1 and 2 and creates exactly the links (1, 1) and (1, 2). |
| CookbookCatalog.RetagThenRotate | cookbook_manager.py:118-172 | Tagging again with the same names changes nothing. Winter then sets the tagged row's flag, clears the other row's flag and reports 1. An unknown season changes nothing. |
| CookbookCatalog.WinterExample | cookbook_manager.py:135-172 | Tagging twice leaves two links. Then Winter flags the tagged sample, clears the other sample's flag (which was set on insert) and reports 1. An unknown season changes nothing. |
| CookbookCatalog.WinterFlags | cookbook_manager.py:152-165 | On two rows where only the first is linked to a Winter name, Winter sets the first flag, clears the second and counts one. |
| CookbookCatalog.EmptyConsistent | cookbook_manager.py:19-43 | A freshly created database satisfies the table invariant. |
| CookbookManager.Store.constructor | cookbook_manager.py:19-43 | A new store holds the three empty tables, with both id counters at 1. |
| CookbookManager.Store.InsertCookbook | cookbook_manager.py:53-80 | Updates the tables in place exactly as Insert describes, returns Insert's result, and keeps the invariant. |
| CookbookManager.Store.GetAllCookbooks | cookbook_manager.py:85-105 | Returns every stored row ([] when there is none). Ids increase along the result, i.e. rows come in insertion order, and every row is well formed. |
| CookbookManager.Store.AddRecipeTags | cookbook_manager.py:110-131 | The loop changes the tag table and link set exactly as AddTags describes, one name at a time, and keeps the invariant. |
| CookbookManager.Store.RotateSeasonalCollection | cookbook_manager.py:135-172 | The early return and the two bulk updates change the flags and return the count exactly as Rotate describes. |
| CookbookManager.RunDemo | cookbook_manager.py:177-204 | Inserting the five samples into a new store and listing them gives five rows, in insertion order, with ids 1..5, each holding its sample's fields exactly. |

## Findings

| source | as written | input that shows it | evidently intended | confidence | as-written member | corrected member |
|---|---|---|---|---|---|---|
| cookbook_manager.py:56-65 | The rating is unpacked into `aethsetic_rating`, but the check reads `aesthetic_rating`, which is never bound. So every tuple that passes the title, author and year checks raises NameError. Nothing is ever inserted, and main stops at its first sample. | the first sample of main, ("Foraged & Found: …", "Oak Wavelength", 2023, 5, True, "Forest Green") | reject a rating outside 1..5, and otherwise go on to the flag check and the insert | high, not executed | CookbookCatalog.ValidateAsWritten (with CookbookCatalog.DemoRaisesAsWritten) | CookbookCatalog.Validate |

## Left out

- `create_connection` and `conn.close`: these are file I/O through the sqlite3 library. The store is an explicit object instead, and its constructor stands for a new, empty database.
- `create_table`: the DDL text is not modelled. As written, it creates only the `cookbooks` table (line 48), so `add_recipe_tags` and the second seasonal update would fail with a missing table. The model assumes all three declared tables exist.
- Engine failures and `try/except Error` (lines 81-83, 106-108, 132-133, 174-175): these depend on SQLite's transaction behaviour. The model has no write errors. A read error that the reader turns into `[]` is not modelled either.
- All `print` output. This includes the row rendering of `get_all_cookbooks`, where the rating line repeats a sparkle once per rating point.
- CookbookCatalog.Validate: integers are unbounded. sqlite3 binds a Python int as a 64-bit INTEGER, so a year of 2^63 or more passes the checks and then raises `OverflowError` inside `cursor.execute` (line 77). `except Error` does not catch that, so it escapes `insert_cookbook`. The model accepts such a year and does not raise.
- CookbookCatalog.Insert: the same 64-bit limit. The model stores a year outside the 64-bit range, where the code raises `OverflowError` without inserting.
- CookbookManager.Store.AddRecipeTags: the same 64-bit limit on `cookbook_id`. Outside that range the code raises `OverflowError` at line 127, after line 120 has already inserted the tag. The model links any integer id and does not raise.
- Dynamic typing of the other fields: title, author, rating and cover colour are typed. A `None` title and a non-numeric rating (which would raise TypeError) are not modelled.
- AUTOINCREMENT details: ids come from a counter per table that starts at 1 and advances only on a real insert. Only freshness and order are claimed, not SQLite's exact numbers after an ignored insert.
- Row order of `SELECT *` without `ORDER BY`: it is taken to be insertion (rowid) order, which is what SQLite returns for this table.
