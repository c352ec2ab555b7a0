/** The colour table: a fixed palette whose rows are lent to categories.
    A row's `categoryId` is the category that holds the colour; a colour with
    no category is available. */
module ColorModel {
  import opened Outcomes
  import opened Rows

  datatype PaletteEntry = PaletteEntry(color: string, code: string)

  /** The palette every reset of the table installs, in insertion order. */
  const Palette: seq<PaletteEntry> := [
    PaletteEntry("Red", "FE0000"),
    PaletteEntry("Orange", "EF8906"),
    PaletteEntry("Yellow", "FFD100"),
    PaletteEntry("Green", "A9E59E"),
    PaletteEntry("Blue", "94CAEE"),
    PaletteEntry("Purple", "D39AFF"),
    PaletteEntry("Pink", "ECC8FC"),
    PaletteEntry("White", "FFFFFF")
  ]

  /** A row of the `color` table. */
  datatype Color = Color(colorId: nat, colorName: string, categoryId: Option<nat>, colorCode: string)

  function ColorKey(c: Color): int { c.colorId }

  predicate IsHexDigit(c: char)
  {
    '0' <= c <= '9' || 'A' <= c <= 'F'
  }

  predicate IsHexCode(code: string)
  {
    |code| == 6 && forall i :: 0 <= i < 6 ==> IsHexDigit(code[i])
  }

  /** The palette has eight entries, no two with the same name or the same
      code, and every code is six upper-case hexadecimal digits. */
  lemma PaletteWellFormed()
    ensures |Palette| == 8
    ensures forall i, j :: 0 <= i < j < |Palette| ==> Palette[i].color != Palette[j].color
    ensures forall i, j :: 0 <= i < j < |Palette| ==> Palette[i].code != Palette[j].code
    ensures forall i :: 0 <= i < |Palette| ==> IsHexCode(Palette[i].code)
  {
    PaletteNamesDistinct();
    PaletteCodesDistinct();
    PaletteCodesHex();
  }

  lemma PaletteNamesDistinct()
    ensures forall i, j :: 0 <= i < j < |Palette| ==> Palette[i].color != Palette[j].color
  {
  }

  lemma PaletteCodesDistinct()
    ensures forall i, j :: 0 <= i < j < |Palette| ==> Palette[i].code != Palette[j].code
  {
  }

  lemma PaletteCodesHex()
    ensures forall i :: 0 <= i < |Palette| ==> IsHexCode(Palette[i].code)
  {
  }

  /** The row the reset inserts for the `i`-th palette entry: the table was
      just recreated, so its AUTO_INCREMENT id is `i + 1`. */
  function DefaultRow(i: nat): (c: Color)
    requires i < |Palette|
    ensures c.categoryId.None?
  {
    Color(i + 1, Palette[i].color, None, Palette[i].code)
  }

  /** The table right after a reset. */
  function DefaultRows(): (r: seq<Color>)
    ensures |r| == |Palette|
    ensures forall i :: 0 <= i < |r| ==> r[i] == DefaultRow(i)
  {
    seq(|Palette|, i requires 0 <= i < |Palette| => DefaultRow(i))
  }

  /** `SELECT * FROM color WHERE category_id IS NULL`. */
  function Available(rows: seq<Color>): (r: seq<Color>)
    ensures forall c :: c in r <==> c in rows && c.categoryId.None?
  {
    Filter(rows, (c: Color) => c.categoryId.None?)
  }

  function WithCodeAndCategory(rows: seq<Color>, code: string, categoryId: nat): (r: seq<Color>)
    ensures forall c :: c in r <==> c in rows && c.colorCode == code && c.categoryId == Some(categoryId)
  {
    Filter(rows, (c: Color) => c.colorCode == code && c.categoryId == Some(categoryId))
  }

  /** `UPDATE color SET category_id = id WHERE color_code = code`. */
  function AssignCode(rows: seq<Color>, code: string, categoryId: nat): (r: seq<Color>)
    ensures |r| == |rows|
    ensures forall i :: 0 <= i < |rows| ==> r[i].colorId == rows[i].colorId && r[i].colorCode == rows[i].colorCode
    ensures forall i :: 0 <= i < |rows| && rows[i].colorCode != code ==> r[i] == rows[i]
    ensures forall i :: 0 <= i < |rows| && rows[i].colorCode == code ==>
              r[i] == rows[i].(categoryId := Some(categoryId))
  {
    seq(|rows|, i requires 0 <= i < |rows| =>
      if rows[i].colorCode == code then rows[i].(categoryId := Some(categoryId)) else rows[i])
  }

  /** `UPDATE color SET category_id = NULL WHERE category_id = id`. */
  function Release(rows: seq<Color>, categoryId: nat): (r: seq<Color>)
    ensures |r| == |rows|
    ensures forall i :: 0 <= i < |rows| ==> r[i].colorId == rows[i].colorId && r[i].colorCode == rows[i].colorCode
    ensures forall i :: 0 <= i < |rows| && rows[i].categoryId != Some(categoryId) ==> r[i] == rows[i]
    ensures forall i :: 0 <= i < |rows| && rows[i].categoryId == Some(categoryId) ==>
              r[i] == rows[i].(categoryId := None)
  {
    seq(|rows|, i requires 0 <= i < |rows| =>
      if rows[i].categoryId == Some(categoryId) then rows[i].(categoryId := None) else rows[i])
  }

  /** Right after a reset every palette colour is available. */
  lemma DefaultRowsAllAvailable()
    ensures Available(DefaultRows()) == DefaultRows()
  {
    var d := DefaultRows();
    forall c | c in d
      ensures c.categoryId.None?
    {
      var i :| 0 <= i < |d| && d[i] == c;
    }
    FilterAll(d, (c: Color) => c.categoryId.None?);
  }

  /** Releasing a category frees every colour it held: no row carries the
      category any more, the colours it held are available, and rows held by
      other categories keep their holder. */
  lemma ReleaseFrees(rows: seq<Color>, categoryId: nat)
    ensures forall c :: c in Release(rows, categoryId) ==> c.categoryId != Some(categoryId)
    ensures forall i :: 0 <= i < |rows| && rows[i].categoryId == Some(categoryId) ==>
              rows[i].(categoryId := None) in Available(Release(rows, categoryId))
  {
    var r := Release(rows, categoryId);
    forall i | 0 <= i < |rows| && rows[i].categoryId == Some(categoryId)
      ensures rows[i].(categoryId := None) in Available(r)
    {
      assert r[i] in r;
    }
  }

  /** Assigning a colour to a category that holds nothing yet and releasing
      that category again restores the table, provided the colour was free. */
  lemma ReleaseUndoesAssign(rows: seq<Color>, code: string, categoryId: nat)
    requires forall c :: c in rows ==> c.categoryId != Some(categoryId)
    requires forall c :: c in rows && c.colorCode == code ==> c.categoryId.None?
    ensures Release(AssignCode(rows, code, categoryId), categoryId) == rows
  {
    var r := Release(AssignCode(rows, code, categoryId), categoryId);
    forall i | 0 <= i < |rows|
      ensures r[i] == rows[i]
    {
      assert rows[i] in rows;
    }
  }

  /** After an assignment no row with that code is available. */
  lemma AssignTakesColor(rows: seq<Color>, code: string, categoryId: nat)
    ensures forall c :: c in Available(AssignCode(rows, code, categoryId)) ==> c.colorCode != code
    ensures forall i :: 0 <= i < |rows| && rows[i].colorCode == code ==>
              AssignCode(rows, code, categoryId)[i] in WithCodeAndCategory(AssignCode(rows, code, categoryId), code, categoryId)
  {
    var r := AssignCode(rows, code, categoryId);
    forall c | c in Available(r)
      ensures c.colorCode != code
    {
      var i :| 0 <= i < |r| && r[i] == c;
    }
    forall i | 0 <= i < |rows| && rows[i].colorCode == code
      ensures r[i] in WithCodeAndCategory(r, code, categoryId)
    {
      assert r[i] in r;
    }
  }

  class ColorTable {
    var rows: seq<Color>
    /** The next value of the AUTO_INCREMENT `color_id` column. */
    var nextId: nat

    ghost predicate Valid()
      reads this
    {
      KeyedBelow(rows, ColorKey, nextId)
    }

    constructor ()
      ensures Valid() && rows == [] && nextId == 1
    {
      rows, nextId := [], 1;
    }

    /** `setColorTableToDefault`: with `reset`, drops and recreates the table
        and inserts one row per palette entry, each without a category;
        without it, does nothing. */
    method SetColorTableToDefault(reset: bool)
      requires Valid()
      modifies this
      ensures Valid()
      ensures reset ==> rows == DefaultRows() && nextId == |Palette| + 1
      ensures !reset ==> rows == old(rows) && nextId == old(nextId)
    {
      if reset {
        rows, nextId := [], 1;
        var i := 0;
        while i < |Palette|
          invariant 0 <= i <= |Palette|
          invariant nextId == i + 1
          invariant rows == DefaultRows()[..i]
          invariant Valid()
        {
          var inserted := Color(nextId, Palette[i].color, None, Palette[i].code);
          assert inserted == DefaultRow(i);
          InsertKeyed(rows, inserted, ColorKey, nextId);
          rows, nextId := rows + [inserted], nextId + 1;
          i := i + 1;
        }
        assert DefaultRows()[..|Palette|] == DefaultRows();
      }
    }

    /** `initialize` resets the colour table whatever `reset` says. */
    method Initialize(reset: bool)
      requires Valid()
      modifies this
      ensures Valid()
      ensures rows == DefaultRows() && Available(rows) == rows
      ensures nextId == |Palette| + 1
    {
      SetColorTableToDefault(true);
      DefaultRowsAllAvailable();
    }

    /** `getAvailableColorNames`: the rows no category holds. When there are
        none, the `colorException` raised is caught and a
        `databaseException` is thrown in its place. */
    method GetAvailableColorNames() returns (r: Result<seq<Color>>)
      ensures r.Ok? <==> exists c :: c in rows && c.categoryId.None?
      ensures r.Err? ==> r.error == DatabaseException
      ensures r.Ok? ==> r.value == Available(rows)
    {
      var free := Available(rows);
      if free == [] {
        r := Err(DatabaseException);
      } else {
        assert free[0] in free;
        r := Ok(free);
      }
    }

    /** `assignCategoryToColor`: every row with the code now belongs to the
        category; the rows having both are returned. `categories` holds the
        ids of the existing categories: setting `category_id` to any other id
        on some row violates the foreign key, the UPDATE fails and a
        `databaseException` is returned with the table unchanged. An UPDATE
        that matches no row checks nothing. */
    method AssignCategoryToColor(categoryId: nat, colorCode: string, categories: set<nat>) returns (r: Result<seq<Color>>)
      requires Valid()
      modifies this
      ensures Valid() && nextId == old(nextId)
      ensures (exists c :: c in old(rows) && c.colorCode == colorCode) && categoryId !in categories ==>
                r == Err(DatabaseException) && rows == old(rows)
      ensures !((exists c :: c in old(rows) && c.colorCode == colorCode) && categoryId !in categories) ==>
                rows == AssignCode(old(rows), colorCode, categoryId)
                && r == Ok(WithCodeAndCategory(rows, colorCode, categoryId))
    {
      if (exists c :: c in rows && c.colorCode == colorCode) && categoryId !in categories {
        return Err(DatabaseException);
      }
      var updated := AssignCode(rows, colorCode, categoryId);
      SameKeysKeyed(rows, updated, ColorKey, nextId);
      rows := updated;
      r := Ok(WithCodeAndCategory(rows, colorCode, categoryId));
    }

    /** `removeCategoryFromColor`: the colours the category held become free. */
    method RemoveCategoryFromColor(categoryId: nat)
      requires Valid()
      modifies this
      ensures Valid() && nextId == old(nextId)
      ensures rows == Release(old(rows), categoryId)
    {
      var updated := Release(rows, categoryId);
      SameKeysKeyed(rows, updated, ColorKey, nextId);
      rows := updated;
    }
  }
}
