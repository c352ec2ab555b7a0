/** The category table and the functions of the category model. */
module CategoryModel {
  import opened Outcomes
  import opened JsStrings
  import opened Rows
  import UserModel
  import ColorModel

  /** A row of the `category` table. */
  datatype Category = Category(categoryId: nat, userId: nat, title: string, description: string, colorCode: string)

  function CategoryKey(c: Category): int { c.categoryId }

  /** The palette codes, lower-cased. */
  function PaletteCodesLower(): (codes: seq<string>)
    ensures |codes| == |ColorModel.Palette|
    ensures forall i :: 0 <= i < |codes| ==> codes[i] == Lower(ColorModel.Palette[i].code)
  {
    seq(|ColorModel.Palette|, i requires 0 <= i < |ColorModel.Palette| => Lower(ColorModel.Palette[i].code))
  }

  /** `validateColorCode` as it was evidently meant: the lower-cased code
      names a colour of the palette, in either case. */
  function ValidColorCode(colorCode: Arg): (ok: bool)
    ensures ok <==> colorCode.Text? && exists i :: 0 <= i < |ColorModel.Palette| && Lower(colorCode.s) == Lower(ColorModel.Palette[i].code)
  {
    colorCode.Text? && Lower(colorCode.s) in PaletteCodesLower()
  }

  /** Every palette code is accepted as written and in lower case. */
  lemma ValidColorCodeAcceptsPalette(i: nat)
    requires i < |ColorModel.Palette|
    ensures ValidColorCode(Text(ColorModel.Palette[i].code))
    ensures ValidColorCode(Text(Lower(ColorModel.Palette[i].code)))
  {
    LowerIdempotent(ColorModel.Palette[i].code);
  }

  /** A colour name is not a code. */
  lemma ColorNameIsNotCode()
    ensures !ValidColorCode(Text("Red"))
  {
    assert Lower("Red") == "red";
    assert forall j :: 0 <= j < |ColorModel.Palette| ==> |ColorModel.Palette[j].code| == 6 by {
      ColorModel.PaletteWellFormed();
    }
  }

  /** `createCategory` as written. Its validation reads
      `!validateTitle(title) || !validateDescription(description) || !validateColorCode(colorCode)`
      and `validateColorCode` looks the code up in a `colors` list this file
      never declares, so the third operand throws a ReferenceError. The
      result is therefore decided before the table is consulted. */
  function CreateCategoryAsWritten(title: Arg, description: Arg, colorCode: Arg): (r: Result<seq<Category>>)
    ensures r.Err?
    ensures r.error == ReferenceError <==> ValidText(title) && ValidText(description)
    ensures r.error == CategoryException <==> !(ValidText(title) && ValidText(description))
  {
    if !ValidText(title) || !ValidText(description) then Err(CategoryException) else Err(ReferenceError)
  }

  /** A request the intended check accepts, a palette code with a valid
      title and description, is refused as written. */
  lemma PaletteCodeRefusedAsWritten()
    ensures ValidColorCode(Text("FE0000"))
    ensures CreateCategoryAsWritten(Text("Work"), Text(""), Text("FE0000")) == Err(ReferenceError)
  {
    ValidColorCodeAcceptsPalette(0);
  }

  function WithTitle(rows: seq<Category>, title: string): (r: seq<Category>)
    ensures forall c :: c in r <==> c in rows && c.title == title
  {
    Filter(rows, (c: Category) => c.title == title)
  }

  function WithoutTitle(rows: seq<Category>, title: string): (r: seq<Category>)
    ensures forall c :: c in r <==> c in rows && c.title != title
  {
    Filter(rows, (c: Category) => c.title != title)
  }

  function OfUser(rows: seq<Category>, userId: nat): (r: seq<Category>)
    ensures forall c :: c in r <==> c in rows && c.userId == userId
  {
    Filter(rows, (c: Category) => c.userId == userId)
  }

  function WithColor(rows: seq<Category>, colorCode: string): (r: seq<Category>)
    ensures forall c :: c in r <==> c in rows && c.colorCode == colorCode
  {
    Filter(rows, (c: Category) => c.colorCode == colorCode)
  }

  /** `DELETE ... WHERE category_id = '<text>'`: the rows whose id does not
      read as that text. */
  function WithoutIdText(rows: seq<Category>, idText: string): (r: seq<Category>)
    ensures forall c :: c in r <==> c in rows && NatText(c.categoryId) != idText
  {
    Filter(rows, (c: Category) => NatText(c.categoryId) != idText)
  }

  /** The ids of some categories, in order. */
  function IdsOf(cats: seq<Category>): (ids: seq<nat>)
    ensures |ids| == |cats|
    ensures forall i :: 0 <= i < |cats| ==> ids[i] == cats[i].categoryId
  {
    seq(|cats|, i requires 0 <= i < |cats| => cats[i].categoryId)
  }

  /** `UPDATE category SET description WHERE title`. */
  function DescribeByTitle(rows: seq<Category>, title: string, description: string): (r: seq<Category>)
    ensures |r| == |rows|
    ensures forall i :: 0 <= i < |rows| && rows[i].title != title ==> r[i] == rows[i]
    ensures forall i :: 0 <= i < |rows| && rows[i].title == title ==> r[i] == rows[i].(description := description)
  {
    seq(|rows|, i requires 0 <= i < |rows| =>
      if rows[i].title == title then rows[i].(description := description) else rows[i])
  }

  /** After a description update, looking the title up yields as many
      rows as before. */
  lemma {:induction false} DescribeKeepsTitleCount(rows: seq<Category>, title: string, description: string)
    ensures |WithTitle(DescribeByTitle(rows, title, description), title)| == |WithTitle(rows, title)|
  {
    if rows != [] {
      var r := DescribeByTitle(rows, title, description);
      assert r[1..] == DescribeByTitle(rows[1..], title, description);
      DescribeKeepsTitleCount(rows[1..], title, description);
    }
  }

  /** After a description update, every row with the title carries the new
      description, and rows with other titles are as they were. */
  lemma DescribeThenFind(rows: seq<Category>, title: string, description: string)
    ensures forall c :: c in WithTitle(DescribeByTitle(rows, title, description), title) ==> c.description == description
    ensures forall c :: c in rows && c.title != title ==> c in DescribeByTitle(rows, title, description)
  {
    var r := DescribeByTitle(rows, title, description);
    forall c | c in WithTitle(r, title)
      ensures c.description == description
    {
      var i :| 0 <= i < |r| && r[i] == c;
    }
    forall c | c in rows && c.title != title
      ensures c in r
    {
      var i :| 0 <= i < |rows| && rows[i] == c;
      assert r[i] == c;
    }
  }

  /** After deleting a title no row carries it. */
  lemma DeleteThenNoTitle(rows: seq<Category>, title: string)
    ensures WithTitle(WithoutTitle(rows, title), title) == []
  {
    FilterNone(WithoutTitle(rows, title), (c: Category) => c.title == title);
  }

  /** Deleting by the text of an id removes that category only. */
  lemma DeleteByIdRemovesOnlyThatId(rows: seq<Category>, id: nat)
    ensures forall c :: c in WithoutIdText(rows, NatText(id)) <==> c in rows && c.categoryId != id
  {
    forall c | c in rows && NatText(c.categoryId) == NatText(id)
      ensures c.categoryId == id
    {
      NatTextInjective(c.categoryId, id);
    }
  }

  class CategoryTable {
    var rows: seq<Category>
    /** The next value of the AUTO_INCREMENT `category_id` column. */
    var nextId: nat

    ghost predicate Valid()
      reads this
    {
      KeyedBelow(rows, CategoryKey, nextId)
    }

    constructor ()
      ensures Valid() && rows == [] && nextId == 1
    {
      rows, nextId := [], 1;
    }

    /** `findById` succeeds: some row has this id. */
    function HasCategory(id: nat): (found: bool)
      reads this
      ensures found <==> exists c :: c in rows && c.categoryId == id
    {
      var matching := Filter(rows, (c: Category) => c.categoryId == id);
      assert matching != [] ==> matching[0] in matching;
      matching != []
    }

    /** `createCategory` with the colour check it was meant to have: validates
        title, description and colour code, refuses a title already present,
        fails when the user does not exist (the source then reads `.length`
        of an exception object, a database-failure path), and otherwise
        inserts the row and returns the rows with that title. */
    method CreateCategory(userId: nat, title: Arg, description: Arg, colorCode: Arg, users: UserModel.UserTable)
      returns (r: Result<seq<Category>>)
      requires Valid()
      modifies this
      ensures Valid()
      ensures !(ValidText(title) && ValidText(description) && ValidColorCode(colorCode)) ==>
                r == Err(CategoryException) && rows == old(rows) && nextId == old(nextId)
      ensures ValidText(title) && ValidText(description) && ValidColorCode(colorCode)
              && WithTitle(old(rows), title.s) != [] ==>
                r == Err(CategoryException) && rows == old(rows) && nextId == old(nextId)
      ensures ValidText(title) && ValidText(description) && ValidColorCode(colorCode)
              && WithTitle(old(rows), title.s) == [] && !users.HasUser(userId) ==>
                r == Err(DatabaseException) && rows == old(rows) && nextId == old(nextId)
      ensures ValidText(title) && ValidText(description) && ValidColorCode(colorCode)
              && WithTitle(old(rows), title.s) == [] && users.HasUser(userId) ==>
                var created := Category(old(nextId), userId, title.s, description.s, colorCode.s);
                && rows == old(rows) + [created]
                && nextId == old(nextId) + 1
                && r == Ok([created])
                && forall c :: c in old(rows) ==> c.categoryId != created.categoryId
    {
      if !ValidText(title) || !ValidText(description) || !ValidColorCode(colorCode) {
        return Err(CategoryException);
      }
      if WithTitle(rows, title.s) != [] {
        return Err(CategoryException);
      }
      if !users.HasUser(userId) {
        return Err(DatabaseException);
      }
      var created := Category(nextId, userId, title.s, description.s, colorCode.s);
      InsertKeyed(rows, created, CategoryKey, nextId);
      FilterAppend(rows, created, (c: Category) => c.title == title.s);
      assert WithTitle(rows + [created], title.s) == [created];
      rows, nextId := rows + [created], nextId + 1;
      r := Ok(WithTitle(rows, title.s));
    }

    /** `createNewCategory`: inserts without any validation and reports the
        id the row received. A user id that no user has violates the
        `user_id` foreign key, the INSERT fails, and the handler, which
        builds its exception from the caught error object, fails in turn: a
        database-failure path that leaves the table as it was. */
    method CreateNewCategory(name: string, description: string, color: string, userId: nat, users: UserModel.UserTable)
      returns (r: Result<nat>)
      requires Valid()
      modifies this
      ensures Valid()
      ensures !users.HasUser(userId) ==>
                r == Err(DatabaseException) && rows == old(rows) && nextId == old(nextId)
      ensures users.HasUser(userId) ==>
                && r == Ok(old(nextId))
                && nextId == old(nextId) + 1
                && rows == old(rows) + [Category(r.value, userId, name, description, color)]
                && forall c :: c in old(rows) ==> c.categoryId != r.value
    {
      if !users.HasUser(userId) {
        return Err(DatabaseException);
      }
      var created := Category(nextId, userId, name, description, color);
      InsertKeyed(rows, created, CategoryKey, nextId);
      r := Ok(nextId);
      rows, nextId := rows + [created], nextId + 1;
    }

    /** `getCategoryIdByAssignedColor`: the ids of the categories with that
        colour code, in table order. */
    method GetCategoryIdByAssignedColor(colorCode: string) returns (ids: seq<nat>)
      ensures ids == IdsOf(WithColor(rows, colorCode))
      ensures forall id :: id in ids <==> exists c :: c in rows && c.colorCode == colorCode && c.categoryId == id
    {
      var found := WithColor(rows, colorCode);
      ids := IdsOf(found);
      forall id | (exists c :: c in rows && c.colorCode == colorCode && c.categoryId == id)
        ensures id in ids
      {
        var c :| c in rows && c.colorCode == colorCode && c.categoryId == id;
        var i :| 0 <= i < |found| && found[i] == c;
        assert ids[i] == id;
      }
      forall id | id in ids
        ensures exists c :: c in rows && c.colorCode == colorCode && c.categoryId == id
      {
        var i :| 0 <= i < |ids| && ids[i] == id;
        assert found[i] in found;
      }
    }

    /** `findByTitle`: the rows with that title, or a `categoryException`
        when the title is not valid text or no row has it. */
    method FindByTitle(title: Arg) returns (r: Result<seq<Category>>)
      ensures !ValidText(title) ==> r == Err(CategoryException)
      ensures ValidText(title) ==> (r.Ok? <==> exists c :: c in rows && c.title == title.s)
      ensures r.Err? ==> r.error == CategoryException
      ensures r.Ok? ==> r.value == WithTitle(rows, title.s) && r.value != []
    {
      if !ValidText(title) {
        return Err(CategoryException);
      }
      var found := WithTitle(rows, title.s);
      if found == [] {
        r := Err(CategoryException);
      } else {
        assert found[0] in found;
        r := Ok(found);
      }
    }

    /** `findAllByUserId`: the user's categories, or a `categoryException`
        when there are none. */
    method FindAllByUserId(userId: nat) returns (r: Result<seq<Category>>)
      ensures r.Ok? <==> exists c :: c in rows && c.userId == userId
      ensures r.Err? ==> r.error == CategoryException
      ensures r.Ok? ==> r.value == OfUser(rows, userId)
    {
      var found := OfUser(rows, userId);
      if found == [] {
        r := Err(CategoryException);
      } else {
        assert found[0] in found;
        r := Ok(found);
      }
    }

    /** `updateCategory`: validates the new description and sets it on the
        rows with that title. The row search `find(row => row != newDescription)`
        finds nothing when no row has the title or the new description is
        the text form of a row object. */
    method UpdateCategory(title: string, newDescription: Arg) returns (r: Result<seq<Category>>)
      requires Valid()
      modifies this
      ensures Valid() && nextId == old(nextId)
      ensures !ValidText(newDescription) ==> r == Err(CategoryException) && rows == old(rows)
      ensures ValidText(newDescription) && (WithTitle(old(rows), title) == [] || newDescription.s == ObjectText) ==>
                r == Err(CategoryException) && rows == old(rows)
      ensures ValidText(newDescription) && WithTitle(old(rows), title) != [] && newDescription.s != ObjectText ==>
                && rows == DescribeByTitle(old(rows), title, newDescription.s)
                && r == Ok(WithTitle(rows, title))
    {
      if !ValidText(newDescription) {
        return Err(CategoryException);
      }
      var retrieved := WithTitle(rows, title);
      if retrieved == [] || newDescription.s == ObjectText {
        return Err(CategoryException);
      }
      var updated := DescribeByTitle(rows, title, newDescription.s);
      SameKeysKeyed(rows, updated, CategoryKey, nextId);
      rows := updated;
      r := Ok(WithTitle(rows, title));
    }

    /** `deleteCategory`: validates the title, deletes its rows and reports
        whether none remain, which is always the case once the DELETE runs.
        `referenced` holds the category ids that a `post_it` or a `color` row
        still refers to through its foreign key; the database refuses to
        delete such a row, the whole statement fails and the handler answers
        with a database error. */
    method DeleteCategory(title: Arg, referenced: set<nat>) returns (r: Result<bool>)
      requires Valid()
      modifies this
      ensures Valid() && nextId == old(nextId)
      ensures !ValidText(title) ==> r == Err(CategoryException) && rows == old(rows)
      ensures ValidText(title) && (exists c :: c in old(rows) && c.title == title.s && c.categoryId in referenced) ==>
                r == Err(DatabaseException) && rows == old(rows)
      ensures ValidText(title) && !(exists c :: c in old(rows) && c.title == title.s && c.categoryId in referenced) ==>
                rows == WithoutTitle(old(rows), title.s) && r == Ok(true)
    {
      if !ValidText(title) {
        return Err(CategoryException);
      }
      if exists c :: c in rows && c.title == title.s && c.categoryId in referenced {
        return Err(DatabaseException);
      }
      FilterKeyed(rows, (c: Category) => c.title != title.s, CategoryKey, nextId);
      rows := WithoutTitle(rows, title.s);
      DeleteThenNoTitle(old(rows), title.s);
      r := Ok(WithTitle(rows, title.s) == []);
    }

    /** `deleteCategoryById`: the id goes through the title validator, so a
        non-string id is refused; a string id deletes the row whose id reads
        as that text, unless a `post_it` or `color` row still refers to it
        (its id is in `referenced`), which fails the statement. */
    method DeleteCategoryById(id: Arg, referenced: set<nat>) returns (r: Result<bool>)
      requires Valid()
      modifies this
      ensures Valid() && nextId == old(nextId)
      ensures !ValidText(id) ==> r == Err(CategoryException) && rows == old(rows)
      ensures ValidText(id) && (exists c :: c in old(rows) && NatText(c.categoryId) == id.s && c.categoryId in referenced) ==>
                r == Err(DatabaseException) && rows == old(rows)
      ensures ValidText(id) && !(exists c :: c in old(rows) && NatText(c.categoryId) == id.s && c.categoryId in referenced) ==>
                rows == WithoutIdText(old(rows), id.s) && r == Ok(true)
    {
      if !ValidText(id) {
        return Err(CategoryException);
      }
      if exists c :: c in rows && NatText(c.categoryId) == id.s && c.categoryId in referenced {
        return Err(DatabaseException);
      }
      FilterKeyed(rows, (c: Category) => NatText(c.categoryId) != id.s, CategoryKey, nextId);
      rows := WithoutIdText(rows, id.s);
      var remaining := Filter(rows, (c: Category) => NatText(c.categoryId) == id.s);
      FilterNone(rows, (c: Category) => NatText(c.categoryId) == id.s);
      r := Ok(remaining == []);
    }
  }
}
