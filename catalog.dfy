/**
 * The catalog that `readProductsDatabase` builds: the rows after the header
 * are read one by one into Articles and put into a `mutableMapOf` keyed by
 * the NFC tag number. That map is a LinkedHashMap, so besides its contents
 * it has a key order: the order in which keys were first put; putting a key
 * again replaces the value and keeps the key where it was.
 */
module Catalog {
  import opened Wrappers
  import opened Numbers
  import opened Articles

  /** The exception that ends a load: `row` counts the rows after the header from 0. */
  datatype LoadError = LoadError(row: nat, cause: RowError)

  /** The Articles read before the load stopped, and why it stopped, if it did. */
  datatype Parsed = Parsed(articles: seq<Article>, error: Option<LoadError>)

  /** The rows after the header; a file without any row has no header either. */
  function DataRows(rows: seq<seq<string>>): (data: seq<seq<string>>)
    ensures |data| == if rows == [] then 0 else |rows| - 1
    ensures forall i :: 0 <= i < |data| ==> data[i] == rows[i + 1]
  {
    if rows == [] then [] else rows[1..]
  }

  /**
   * Reads the rows in order and stops at the first row that throws: every
   * row before it became the Article in the same place, and nothing after
   * it was read.
   */
  function ParseRows(rows: seq<seq<string>>): (p: Parsed)
    ensures |p.articles| <= |rows|
    ensures forall i :: 0 <= i < |p.articles| ==> ParseRow(rows[i]) == Success(p.articles[i])
    ensures p.error.None? <==> |p.articles| == |rows|
    ensures p.error.Some? ==>
              && p.error.value.row == |p.articles|
              && ParseRow(rows[|p.articles|]) == Failure(p.error.value.cause)
    decreases |rows|
  {
    if rows == [] then Parsed([], None)
    else
      var p := ParseRows(rows[..|rows| - 1]);
      if p.error.Some? then p
      else
        match ParseRow(rows[|rows| - 1])
        case Failure(e) => Parsed(p.articles, Some(LoadError(|rows| - 1, e)))
        case Success(a) => Parsed(p.articles + [a], None)
  }

  /** Once a prefix of the rows throws, the rows after it change nothing. */
  lemma {:induction false} ParseRowsStops(rows: seq<seq<string>>, k: nat)
    requires k <= |rows|
    requires ParseRows(rows[..k]).error.Some?
    ensures ParseRows(rows) == ParseRows(rows[..k])
    decreases |rows| - k
  {
    if k < |rows| {
      var longer := rows[..k + 1];
      assert longer[..k] == rows[..k];
      ParseRowsStops(rows, k + 1);
    } else {
      assert rows[..k] == rows;
    }
  }

  /** One more row that reads without an exception extends what was read. */
  lemma ParseRowsNext(rows: seq<seq<string>>, i: nat, read: seq<Article>)
    requires i < |rows| && ParseRows(rows[..i]) == Parsed(read, None)
    ensures ParseRow(rows[i]).Success? ==> ParseRows(rows[..i + 1]) == Parsed(read + [ParseRow(rows[i]).value], None)
    ensures ParseRow(rows[i]).Failure? ==>
              ParseRows(rows) == Parsed(read, Some(LoadError(i, ParseRow(rows[i]).error)))
  {
    assert rows[..i + 1][..i] == rows[..i];
    if ParseRow(rows[i]).Failure? {
      ParseRowsStops(rows, i + 1);
    }
  }

  /** The map after putting each Article under its `nfcId`, in order. */
  function Index(articles: seq<Article>): (m: map<string, Article>)
    ensures forall k :: k in m ==> m[k].nfcId == k
  {
    if articles == [] then map[]
    else
      var last := articles[|articles| - 1];
      Index(articles[..|articles| - 1])[last.nfcId := last]
  }

  /** The map's key order: each key where it was first put. */
  function KeyOrder(articles: seq<Article>): (keys: seq<string>)
    ensures forall i, j :: 0 <= i < j < |keys| ==> keys[i] != keys[j]
    ensures forall k :: k in keys <==> k in Index(articles)
  {
    if articles == [] then []
    else
      var keys := KeyOrder(articles[..|articles| - 1]);
      var k := articles[|articles| - 1].nfcId;
      if k in keys then keys else keys + [k]
  }

  /** A put never moves a key: the key order of any prefix of the rows is a prefix of the final one. */
  lemma {:induction false} KeyOrderGrows(articles: seq<Article>, n: nat)
    requires n <= |articles|
    ensures KeyOrder(articles[..n]) <= KeyOrder(articles)
    decreases |articles| - n
  {
    if n < |articles| {
      KeyOrderGrows(articles, n + 1);
      assert articles[..n + 1][..n] == articles[..n];
    } else {
      assert articles[..n] == articles;
    }
  }

  /** A key is in the map exactly when some Article carried it. */
  lemma {:induction false} IndexKeys(articles: seq<Article>, k: string)
    ensures k in Index(articles) <==> exists i :: 0 <= i < |articles| && articles[i].nfcId == k
  {
    if articles != [] {
      var init := articles[..|articles| - 1];
      IndexKeys(init, k);
      if k in Index(init) {
        var i :| 0 <= i < |init| && init[i].nfcId == k;
        assert articles[i].nfcId == k;
      }
      if exists i :: 0 <= i < |articles| && articles[i].nfcId == k {
        var i :| 0 <= i < |articles| && articles[i].nfcId == k;
        if i < |init| {
          assert init[i].nfcId == k;
        }
      }
    }
  }

  /** Last write wins: a key maps to the last Article that carried it. */
  lemma {:induction false} IndexLastWins(articles: seq<Article>, i: nat)
    requires i < |articles|
    requires forall j :: i < j < |articles| ==> articles[j].nfcId != articles[i].nfcId
    ensures articles[i].nfcId in Index(articles)
    ensures Index(articles)[articles[i].nfcId] == articles[i]
  {
    if i < |articles| - 1 {
      var init := articles[..|articles| - 1];
      IndexLastWins(init, i);
    }
  }

  /**
   * After a load without an exception, the tag number in column 1 of a data
   * row maps to the Article read from the last data row with that tag
   * number, whose fields are that row's columns 1, 0, 2, 4 and 3.
   */
  lemma LoadedEntry(data: seq<seq<string>>, j: nat)
    requires ParseRows(data).error.None?
    requires j < |data|
    requires forall l :: j < l < |data| && |data[l]| > 1 ==> data[l][1] != data[j][1]
    ensures data[j][1] in Index(ParseRows(data).articles)
    ensures var a := Index(ParseRows(data).articles)[data[j][1]];
            && a.nfcId == data[j][1]
            && Some(a.id) == ParseInt(data[j][0])
            && a.name == data[j][2]
            && a.category == data[j][4]
            && a.entry == 0 && a.aisle == 0
            && Some(a.position) == ParseInt(data[j][3])
  {
    var articles := ParseRows(data).articles;
    assert ParseRow(data[j]) == Success(articles[j]);
    forall l | j < l < |articles|
      ensures articles[l].nfcId != articles[j].nfcId
    {
      assert ParseRow(data[l]) == Success(articles[l]);
    }
    IndexLastWins(articles, j);
  }

  /**
   * The header row is never read as an Article: a tag number that appears
   * only in the header is not a key of the loaded map.
   */
  lemma HeaderNotLoaded(rows: seq<seq<string>>)
    requires |rows| > 0 && |rows[0]| > 1
    requires forall l :: 1 <= l < |rows| && |rows[l]| > 1 ==> rows[l][1] != rows[0][1]
    ensures rows[0][1] !in Index(ParseRows(DataRows(rows)).articles)
  {
    var data := DataRows(rows);
    var articles := ParseRows(data).articles;
    IndexKeys(articles, rows[0][1]);
    forall i | 0 <= i < |articles|
      ensures articles[i].nfcId != rows[0][1]
    {
      assert ParseRow(data[i]) == Success(articles[i]);
      assert data[i] == rows[i + 1];
    }
  }
}
