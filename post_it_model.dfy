/** The post-it table and the functions of the post-it model: creation,
    look-ups, the per-day listing, updates, completion and deletion. */
module PostItModel {
  import opened Outcomes
  import opened JsStrings
  import opened Rows
  import UserModel
  import CategoryModel

  /** A row of the `post_it` table. `pinned` and `completed` hold 'T' or 'F'
      as text; `completed` takes its column default 'F' on insert. */
  datatype PostIt = PostIt(
    postId: nat, userId: nat, categoryId: nat,
    title: string, description: string, pinned: string,
    dayOfWeek: string, completed: string)

  function PostItKey(p: PostIt): int { p.postId }

  /** The day names `validateWeekDay` accepts. */
  const LowerWeekdays: seq<string> := ["sunday", "monday", "tuesday", "wednesday", "thursday", "friday", "saturday"]

  /** `validateWeekDay`: a string among the seven lower-case day names. */
  function ValidWeekDay(weekday: Arg): (ok: bool)
    ensures ok <==> weekday.Text? && exists i :: 0 <= i < 7 && weekday.s == LowerWeekdays[i]
    ensures ok ==> ValidText(weekday)
  {
    weekday.Text? && weekday.s in LowerWeekdays
  }

  /** Capitalised or padded names are not weekdays. */
  lemma ValidWeekDayIsCaseSensitive()
    ensures ValidWeekDay(Text("monday"))
    ensures !ValidWeekDay(Text("Monday"))
    ensures !ValidWeekDay(Text(""))
    ensures !ValidWeekDay(NonText)
  {
    assert LowerWeekdays[1] == "monday";
    assert forall i :: 0 <= i < 7 ==> LowerWeekdays[i][0] != 'M';
  }

  function WithTitle(rows: seq<PostIt>, title: string): (r: seq<PostIt>)
    ensures forall p :: p in r <==> p in rows && p.title == title
  {
    Filter(rows, (p: PostIt) => p.title == title)
  }

  function WithId(rows: seq<PostIt>, id: nat): (r: seq<PostIt>)
    ensures forall p :: p in r <==> p in rows && p.postId == id
  {
    Filter(rows, (p: PostIt) => p.postId == id)
  }

  function WithoutTitle(rows: seq<PostIt>, title: string): (r: seq<PostIt>)
    ensures forall p :: p in r <==> p in rows && p.title != title
  {
    Filter(rows, (p: PostIt) => p.title != title)
  }

  function WithoutId(rows: seq<PostIt>, id: nat): (r: seq<PostIt>)
    ensures forall p :: p in r <==> p in rows && p.postId != id
  {
    Filter(rows, (p: PostIt) => p.postId != id)
  }

  /** The dashboard query: the user's post-its for that day not yet completed. */
  function OpenOnDay(rows: seq<PostIt>, day: string, userId: nat): (r: seq<PostIt>)
    ensures forall p :: p in r <==> p in rows && p.dayOfWeek == day && p.userId == userId && p.completed == "F"
  {
    Filter(rows, (p: PostIt) => p.dayOfWeek == day && p.userId == userId && p.completed == "F")
  }

  function OfUser(rows: seq<PostIt>, userId: nat): (r: seq<PostIt>)
    ensures forall p :: p in r <==> p in rows && p.userId == userId
  {
    Filter(rows, (p: PostIt) => p.userId == userId)
  }

  function CompletedOfUser(rows: seq<PostIt>, userId: nat): (r: seq<PostIt>)
    ensures forall p :: p in r <==> p in rows && p.userId == userId && p.completed == "T"
  {
    Filter(rows, (p: PostIt) => p.userId == userId && p.completed == "T")
  }

  /** `UPDATE post_it SET completed='T' WHERE post_id = id`. */
  function MarkCompleted(rows: seq<PostIt>, id: nat): (r: seq<PostIt>)
    ensures |r| == |rows|
    ensures forall i :: 0 <= i < |rows| && rows[i].postId != id ==> r[i] == rows[i]
    ensures forall i :: 0 <= i < |rows| && rows[i].postId == id ==> r[i] == rows[i].(completed := "T")
  {
    seq(|rows|, i requires 0 <= i < |rows| =>
      if rows[i].postId == id then rows[i].(completed := "T") else rows[i])
  }

  /** A post-it after `updatePostIt` rewrote it. */
  function Rewritten(p: PostIt, description: string, day: string, categoryId: nat, pinned: string): (q: PostIt)
    ensures q.postId == p.postId && q.userId == p.userId && q.title == p.title && q.completed == p.completed
  {
    p.(description := description, dayOfWeek := day, categoryId := categoryId, pinned := pinned)
  }

  /** `UPDATE post_it SET description, day_of_week, category_id, pinned WHERE title`. */
  function RewriteByTitle(rows: seq<PostIt>, title: string, description: string, day: string, categoryId: nat, pinned: string): (r: seq<PostIt>)
    ensures |r| == |rows|
    ensures forall i :: 0 <= i < |rows| ==> r[i].postId == rows[i].postId && r[i].title == rows[i].title
    ensures forall i :: 0 <= i < |rows| && rows[i].title != title ==> r[i] == rows[i]
    ensures forall i :: 0 <= i < |rows| && rows[i].title == title ==>
              r[i] == Rewritten(rows[i], description, day, categoryId, pinned)
  {
    seq(|rows|, i requires 0 <= i < |rows| =>
      if rows[i].title == title then Rewritten(rows[i], description, day, categoryId, pinned) else rows[i])
  }

  /** The post-it `updatePostIt` returns, the first with the title rewritten,
      is a row of the updated table. */
  lemma RewrittenIsInTable(rows: seq<PostIt>, title: string, description: string, day: string, categoryId: nat, pinned: string)
    requires WithTitle(rows, title) != []
    ensures Rewritten(WithTitle(rows, title)[0], description, day, categoryId, pinned)
            in RewriteByTitle(rows, title, description, day, categoryId, pinned)
  {
    var first := WithTitle(rows, title)[0];
    assert first in WithTitle(rows, title);
    var k :| 0 <= k < |rows| && rows[k] == first;
    var r := RewriteByTitle(rows, title, description, day, categoryId, pinned);
    assert r[k] in r;
  }

  /** Completing a post-it twice is completing it once. */
  lemma MarkCompletedIdempotent(rows: seq<PostIt>, id: nat)
    ensures MarkCompleted(MarkCompleted(rows, id), id) == MarkCompleted(rows, id)
  {
    var once := MarkCompleted(rows, id);
    var twice := MarkCompleted(once, id);
    forall i | 0 <= i < |rows|
      ensures twice[i] == once[i]
    {
    }
  }

  /** After completion the post-it is listed among the user's completed
      post-its, and no dashboard listing of any day shows it. */
  lemma CompletedLeavesDashboard(rows: seq<PostIt>, i: nat)
    requires i < |rows|
    ensures rows[i].(completed := "T") in CompletedOfUser(MarkCompleted(rows, rows[i].postId), rows[i].userId)
    ensures forall day, userId, q :: q in OpenOnDay(MarkCompleted(rows, rows[i].postId), day, userId) ==>
              q.postId != rows[i].postId
  {
    var r := MarkCompleted(rows, rows[i].postId);
    assert r[i] in r;
    forall day, userId, q | q in OpenOnDay(r, day, userId)
      ensures q.postId != rows[i].postId
    {
      var k :| 0 <= k < |r| && r[k] == q;
    }
  }

  /** After a delete by title, looking the title up finds nothing. */
  lemma DeleteThenNoTitle(rows: seq<PostIt>, title: string)
    ensures WithTitle(WithoutTitle(rows, title), title) == []
  {
    FilterNone(WithoutTitle(rows, title), (p: PostIt) => p.title == title);
  }

  /** After a delete by id, looking the id up finds nothing. */
  lemma DeleteThenNoId(rows: seq<PostIt>, id: nat)
    ensures WithId(WithoutId(rows, id), id) == []
  {
    FilterNone(WithoutId(rows, id), (p: PostIt) => p.postId == id);
  }

  /** `post_id` is the primary key: at most one row carries a given id. */
  lemma IdIdentifiesRow(rows: seq<PostIt>, id: nat)
    requires Increasing(rows, PostItKey)
    ensures |WithId(rows, id)| <= 1
  {
    AtMostOneWithKey(rows, PostItKey, (p: PostIt) => p.postId == id, id);
  }

  /** Deleting by id removes at most one row. */
  lemma DeleteByIdRemovesAtMostOne(rows: seq<PostIt>, id: nat)
    requires Increasing(rows, PostItKey)
    ensures |rows| - 1 <= |WithoutId(rows, id)| <= |rows|
  {
    IdIdentifiesRow(rows, id);
    FilterSplit(rows, (p: PostIt) => p.postId == id, (p: PostIt) => p.postId != id);
  }

  /** `deletePostItById` confirms the deletion by looking for post-its whose
      TITLE is the id's text. Deleting post-it 2 from a table that also holds
      a post-it titled "2" removes post-it 2 and still reports failure. */
  lemma DeleteByIdMisreports()
    ensures var rows := [PostIt(1, 1, 1, "2", "", "F", "monday", "F"), PostIt(2, 1, 1, "groceries", "", "F", "monday", "F")];
            && WithId(WithoutId(rows, 2), 2) == []
            && WithTitle(WithoutId(rows, 2), NatText(2)) != []
  {
    var rows := [PostIt(1, 1, 1, "2", "", "F", "monday", "F"), PostIt(2, 1, 1, "groceries", "", "F", "monday", "F")];
    DeleteThenNoId(rows, 2);
    assert NatText(2) == "2";
    assert rows[0] in WithoutId(rows, 2);
    assert rows[0] in WithTitle(WithoutId(rows, 2), NatText(2));
  }

  class PostItTable {
    var rows: seq<PostIt>
    /** The next value of the AUTO_INCREMENT `post_id` column. */
    var nextId: nat

    ghost predicate Valid()
      reads this
    {
      KeyedBelow(rows, PostItKey, nextId)
    }

    constructor ()
      ensures Valid() && rows == [] && nextId == 1
    {
      rows, nextId := [], 1;
    }

    /** `createPostIt`: validates title, description and weekday, refuses a
        title already present, fails when the user or the category does not
        exist (the source then reads `.length` of an exception object, a
        database-failure path), and otherwise inserts the row, not completed,
        and returns the rows with that title. */
    method CreatePostIt(userId: nat, categoryId: nat, title: Arg, description: Arg, pinned: string, weekday: Arg,
                        users: UserModel.UserTable, categories: CategoryModel.CategoryTable)
      returns (r: Result<seq<PostIt>>)
      requires Valid()
      modifies this
      ensures Valid()
      ensures !(ValidText(title) && ValidText(description) && ValidWeekDay(weekday)) ==>
                r == Err(PostItException) && rows == old(rows) && nextId == old(nextId)
      ensures ValidText(title) && ValidText(description) && ValidWeekDay(weekday)
              && WithTitle(old(rows), title.s) != [] ==>
                r == Err(PostItException) && rows == old(rows) && nextId == old(nextId)
      ensures ValidText(title) && ValidText(description) && ValidWeekDay(weekday)
              && WithTitle(old(rows), title.s) == []
              && !(users.HasUser(userId) && categories.HasCategory(categoryId)) ==>
                r == Err(DatabaseException) && rows == old(rows) && nextId == old(nextId)
      ensures ValidText(title) && ValidText(description) && ValidWeekDay(weekday)
              && WithTitle(old(rows), title.s) == []
              && users.HasUser(userId) && categories.HasCategory(categoryId) ==>
                var created := PostIt(old(nextId), userId, categoryId, title.s, description.s, pinned, weekday.s, "F");
                && rows == old(rows) + [created]
                && nextId == old(nextId) + 1
                && r == Ok([created])
                && forall p :: p in old(rows) ==> p.postId != created.postId
    {
      if !ValidText(title) || !ValidText(description) || !ValidWeekDay(weekday) {
        return Err(PostItException);
      }
      if WithTitle(rows, title.s) != [] {
        return Err(PostItException);
      }
      if !users.HasUser(userId) || !categories.HasCategory(categoryId) {
        return Err(DatabaseException);
      }
      var created := PostIt(nextId, userId, categoryId, title.s, description.s, pinned, weekday.s, "F");
      InsertKeyed(rows, created, PostItKey, nextId);
      FilterAppend(rows, created, (p: PostIt) => p.title == title.s);
      assert WithTitle(rows + [created], title.s) == [created];
      rows, nextId := rows + [created], nextId + 1;
      r := Ok(WithTitle(rows, title.s));
    }

    /** `findByTitle`: the rows with that title, or a `postItException` when
        the title is not valid text or no row has it. */
    method FindByTitle(title: Arg) returns (r: Result<seq<PostIt>>)
      ensures !ValidText(title) ==> r == Err(PostItException)
      ensures ValidText(title) ==> (r.Ok? <==> exists p :: p in rows && p.title == title.s)
      ensures r.Err? ==> r.error == PostItException
      ensures r.Ok? ==> r.value == WithTitle(rows, title.s) && r.value != []
    {
      if !ValidText(title) {
        return Err(PostItException);
      }
      var found := WithTitle(rows, title.s);
      if found == [] {
        r := Err(PostItException);
      } else {
        assert found[0] in found;
        r := Ok(found);
      }
    }

    /** `findById`: the rows with that id, or a `postItException` when none;
        the id being the primary key, a found id yields exactly one row. */
    method FindById(id: nat) returns (r: Result<seq<PostIt>>)
      requires Valid()
      ensures r.Ok? <==> exists p :: p in rows && p.postId == id
      ensures r.Err? ==> r.error == PostItException
      ensures r.Ok? ==> r.value == WithId(rows, id)
      ensures r.Ok? ==> |r.value| == 1 && r.value[0] in rows && r.value[0].postId == id
    {
      var found := WithId(rows, id);
      IdIdentifiesRow(rows, id);
      if found == [] {
        r := Err(PostItException);
      } else {
        assert found[0] in found;
        r := Ok(found);
      }
    }

    /** `findByWeekdayAndUserId`: refuses an invalid weekday; otherwise the
        user's open post-its for the day, possibly none. */
    method FindByWeekdayAndUserId(weekday: Arg, userId: nat) returns (r: Result<seq<PostIt>>)
      ensures !ValidWeekDay(weekday) ==> r == Err(PostItException)
      ensures ValidWeekDay(weekday) ==> r == Ok(OpenOnDay(rows, weekday.s, userId))
    {
      if !ValidWeekDay(weekday) {
        return Err(PostItException);
      }
      r := Ok(OpenOnDay(rows, weekday.s, userId));
    }

    /** `findAllByUserId`: the user's post-its, or a `postItException` when
        there are none. */
    method FindAllByUserId(userId: nat) returns (r: Result<seq<PostIt>>)
      ensures r.Ok? <==> exists p :: p in rows && p.userId == userId
      ensures r.Err? ==> r.error == PostItException
      ensures r.Ok? ==> r.value == OfUser(rows, userId)
    {
      var found := OfUser(rows, userId);
      if found == [] {
        r := Err(PostItException);
      } else {
        assert found[0] in found;
        r := Ok(found);
      }
    }

    /** `findAllCompletedPostIt`: the user's completed post-its, or a
        `postItException` when there are none. */
    method FindAllCompletedPostIt(userId: nat) returns (r: Result<seq<PostIt>>)
      ensures r.Ok? <==> exists p :: p in rows && p.userId == userId && p.completed == "T"
      ensures r.Err? ==> r.error == PostItException
      ensures r.Ok? ==> r.value == CompletedOfUser(rows, userId)
    {
      var found := CompletedOfUser(rows, userId);
      if found == [] {
        r := Err(PostItException);
      } else {
        assert found[0] in found;
        r := Ok(found);
      }
    }

    /** `updatePostIt`: validates the new description only, looks the
        category up by title, rewrites description, day, category and pinned
        flag on the rows with the title, and returns the first of them.
        A category that cannot be found, or a title no row has, ends in an
        access to a property of `undefined`: a database-failure path. */
    method UpdatePostIt(title: string, newDescription: Arg, weekday: string, category: Arg, pinned: string,
                        categories: CategoryModel.CategoryTable)
      returns (r: Result<PostIt>)
      requires Valid()
      modifies this
      ensures Valid() && nextId == old(nextId)
      ensures !ValidText(newDescription) ==> r == Err(PostItException) && rows == old(rows)
      ensures ValidText(newDescription)
              && (!ValidText(category) || CategoryModel.WithTitle(categories.rows, category.s) == []
                  || WithTitle(old(rows), title) == []) ==>
                r == Err(DatabaseException) && rows == old(rows)
      ensures ValidText(newDescription) && ValidText(category)
              && CategoryModel.WithTitle(categories.rows, category.s) != [] && WithTitle(old(rows), title) != [] ==>
                var categoryId := CategoryModel.WithTitle(categories.rows, category.s)[0].categoryId;
                && rows == RewriteByTitle(old(rows), title, newDescription.s, weekday, categoryId, pinned)
                && r == Ok(Rewritten(WithTitle(old(rows), title)[0], newDescription.s, weekday, categoryId, pinned))
                && r.value in rows
    {
      if !ValidText(newDescription) {
        return Err(PostItException);
      }
      var retrieved := WithTitle(rows, title);
      var categoryObj := categories.FindByTitle(category);
      if categoryObj.Err? {
        return Err(DatabaseException);
      }
      var categoryId := categoryObj.value[0].categoryId;
      if retrieved == [] {
        return Err(DatabaseException);
      }
      var updated := RewriteByTitle(rows, title, newDescription.s, weekday, categoryId, pinned);
      SameKeysKeyed(rows, updated, PostItKey, nextId);
      RewrittenIsInTable(rows, title, newDescription.s, weekday, categoryId, pinned);
      rows := updated;
      r := Ok(Rewritten(retrieved[0], newDescription.s, weekday, categoryId, pinned));
    }

    /** `setPostItAsCompleted`: sets the completed flag of the post-it with
        that id and returns the rows with that id. */
    method SetPostItAsCompleted(id: nat) returns (r: Result<seq<PostIt>>)
      requires Valid()
      modifies this
      ensures Valid() && nextId == old(nextId)
      ensures rows == MarkCompleted(old(rows), id)
      ensures r == Ok(WithId(rows, id)) && |r.value| <= 1
    {
      var updated := MarkCompleted(rows, id);
      SameKeysKeyed(rows, updated, PostItKey, nextId);
      rows := updated;
      IdIdentifiesRow(rows, id);
      r := Ok(WithId(rows, id));
    }

    /** `deletePostIt`: validates the title, deletes its rows and reports
        whether none remain, which is always the case. */
    method DeletePostIt(title: Arg) returns (r: Result<bool>)
      requires Valid()
      modifies this
      ensures Valid() && nextId == old(nextId)
      ensures !ValidText(title) ==> r == Err(PostItException) && rows == old(rows)
      ensures ValidText(title) ==> rows == WithoutTitle(old(rows), title.s) && r == Ok(true)
    {
      if !ValidText(title) {
        return Err(PostItException);
      }
      FilterKeyed(rows, (p: PostIt) => p.title != title.s, PostItKey, nextId);
      rows := WithoutTitle(rows, title.s);
      DeleteThenNoTitle(old(rows), title.s);
      r := Ok(WithTitle(rows, title.s) == []);
    }

    /** `deletePostItById` as written: deletes the post-it with that id, then
        reports whether no post-it is titled with the id's text. */
    method DeletePostItById(id: nat) returns (r: Result<bool>)
      requires Valid()
      modifies this
      ensures Valid() && nextId == old(nextId)
      ensures rows == WithoutId(old(rows), id) && |old(rows)| - 1 <= |rows|
      ensures r == Ok(WithTitle(rows, NatText(id)) == [])
    {
      FilterKeyed(rows, (p: PostIt) => p.postId != id, PostItKey, nextId);
      DeleteByIdRemovesAtMostOne(rows, id);
      rows := WithoutId(rows, id);
      r := Ok(WithTitle(rows, NatText(id)) == []);
    }

    /** `deletePostItById` with the confirmation it was meant to make: after
        the delete no post-it has that id, so it always reports success. */
    method DeletePostItByIdChecked(id: nat) returns (r: Result<bool>)
      requires Valid()
      modifies this
      ensures Valid() && nextId == old(nextId)
      ensures rows == WithoutId(old(rows), id) && |old(rows)| - 1 <= |rows|
      ensures r == Ok(true)
    {
      FilterKeyed(rows, (p: PostIt) => p.postId != id, PostItKey, nextId);
      DeleteByIdRemovesAtMostOne(rows, id);
      rows := WithoutId(rows, id);
      DeleteThenNoId(old(rows), id);
      r := Ok(WithId(rows, id) == []);
    }
  }
}
