/**
 * The `Article` record and how one tokenised row of `products.csv` becomes one.
 * The file's columns are: product id, NFC tag number, name, position in the
 * layout, category.
 */
module Articles {
  import opened Wrappers
  import opened Numbers

  /** One product of the catalog; `entry` and `aisle` are always 0 after a load. */
  datatype Article = Article(
    nfcId: string,
    id: Int32,
    name: string,
    category: string,
    entry: Int32,
    aisle: Int32,
    position: Int32)

  /**
   * Why reading a row throws: an index past the end of the row
   * (ArrayIndexOutOfBoundsException) or a column that `toInt()` rejects
   * (NumberFormatException); `column` is the first column that failed.
   */
  datatype RowError = MissingColumn(column: nat) | NotANumber(column: nat)

  /**
   * The body of the loading loop for one row, with its columns read in the
   * order the assignments read them: 1, 0 (as a number), 2, 4, then 3 (as a
   * number). A failure names the first of these reads that throws: every
   * read before it succeeded.
   */
  function ParseRow(row: seq<string>): (r: Result<Article, RowError>)
    ensures r.Success? <==> |row| >= 5 && ParseInt(row[0]).Some? && ParseInt(row[3]).Some?
    ensures r.Success? ==>
              && r.value.nfcId == row[1]
              && Some(r.value.id) == ParseInt(row[0])
              && r.value.name == row[2]
              && r.value.category == row[4]
              && r.value.entry == 0 && r.value.aisle == 0
              && Some(r.value.position) == ParseInt(row[3])
    ensures r.Failure? && r.error.MissingColumn? ==>
              && r.error.column in {1, 2, 4}
              && r.error.column >= |row|
              && (r.error.column > 1 ==> |row| >= 2 && ParseInt(row[0]).Some?)
              && (r.error.column == 4 ==> |row| >= 3)
    ensures r.Failure? && r.error.NotANumber? ==>
              && r.error.column in {0, 3}
              && |row| >= 2
              && r.error.column < |row| && ParseInt(row[r.error.column]).None?
              && (r.error.column == 3 ==> |row| >= 5 && ParseInt(row[0]).Some?)
  {
    if |row| < 2 then Failure(MissingColumn(1))
    else
      match ParseInt(row[0])
      case None => Failure(NotANumber(0))
      case Some(id) =>
        if |row| < 3 then Failure(MissingColumn(2))
        else if |row| < 5 then Failure(MissingColumn(4))
        else
          match ParseInt(row[3])
          case None => Failure(NotANumber(3))
          case Some(position) => Success(Article(row[1], id, row[2], row[4], 0, 0, position))
  }
}
