/**
 * The state `MainActivity` keeps between platform callbacks and the handlers
 * that change it: the catalog load, a discovered tag, a double-tap and a
 * fling. Speech output is the sequence of sentences handed to the
 * text-to-speech engine.
 */
module Lars {
  import opened Wrappers
  import opened Articles
  import opened Catalog
  import opened TagKey
  import opened Guidance

  /** The shopping list `onCreate` hard-codes. */
  const HardCodedShoppingList: seq<string> := ["Brown Choco", "Arduino Uno", "Battery 9v"]

  class MainActivity {
    /** `listOfShopItems`, a LinkedHashMap: its entries and its key order. */
    var listOfShopItems: map<string, Article>
    var keyOrder: seq<string>
    var shoppingList: seq<string>
    var currentObjectIndex: nat
    var currentCategory: string
    var lastSentence: string
    /** Every sentence passed to `tts.speak`, oldest first. */
    var spoken: seq<string>

    /**
     * The key order lists each key of the map once; the index stays on an
     * item of the list (or at 0 when the list is empty); the last sentence
     * is the last one spoken.
     */
    ghost predicate Valid()
      reads this
    {
      && KeysIn(listOfShopItems, keyOrder)
      && (forall k :: k in listOfShopItems ==> k in keyOrder)
      && (forall i, j :: 0 <= i < j < |keyOrder| ==> keyOrder[i] != keyOrder[j])
      && (forall k :: k in listOfShopItems ==> listOfShopItems[k].nfcId == k)
      && (currentObjectIndex < |shoppingList| || currentObjectIndex == 0)
      && (if spoken == [] then lastSentence == "" else lastSentence == spoken[|spoken| - 1])
    }

    /** The fields after the response `r` to a tap, given their values before it. */
    ghost predicate Applied(r: Response, category0: string, lastSentence0: string, spoken0: seq<string>)
      reads this
    {
      match r
      case Silent =>
        currentCategory == category0 && lastSentence == lastSentence0 && spoken == spoken0
      case Say(sentence, category) =>
        currentCategory == category && lastSentence == sentence && spoken == spoken0 + [sentence]
    }

    /** The fields' initial values, with the shopping list `onCreate` sets. */
    constructor (list: seq<string>)
      ensures Valid()
      ensures listOfShopItems == map[] && keyOrder == []
      ensures shoppingList == list && currentObjectIndex == 0
      ensures currentCategory == "" && lastSentence == "" && spoken == []
    {
      listOfShopItems := map[];
      keyOrder := [];
      shoppingList := list;
      currentObjectIndex := 0;
      currentCategory := "";
      lastSentence := "";
      spoken := [];
    }

    /**
     * What `onCreate` does to the fields: the catalog is loaded from the rows
     * of `products.csv`, then the shopping list is hard-coded. A load that
     * throws ends `onCreate` before the list is set.
     */
    static method OnCreate(rows: seq<seq<string>>) returns (activity: MainActivity, error: Option<LoadError>)
      ensures fresh(activity) && activity.Valid()
      ensures var p := ParseRows(DataRows(rows));
              && error == p.error
              && activity.listOfShopItems == Index(p.articles)
              && activity.keyOrder == KeyOrder(p.articles)
      ensures activity.shoppingList == if error.None? then HardCodedShoppingList else []
      ensures activity.currentObjectIndex == 0 && activity.currentCategory == ""
      ensures activity.lastSentence == "" && activity.spoken == []
    {
      activity := new MainActivity([]);
      error := activity.ReadProductsDatabase(rows);
      if error.None? {
        activity.shoppingList := HardCodedShoppingList;
      }
    }

    /**
     * `readProductsDatabase` on the tokenised rows of `products.csv`: the
     * header is skipped, each further row is put into a fresh map under its
     * tag number, and the first row that throws ends the load with the map
     * holding the rows before it.
     */
    method ReadProductsDatabase(rows: seq<seq<string>>) returns (error: Option<LoadError>)
      requires Valid()
      modifies this`listOfShopItems, this`keyOrder
      ensures Valid()
      ensures var p := ParseRows(DataRows(rows));
              && error == p.error
              && listOfShopItems == Index(p.articles)
              && keyOrder == KeyOrder(p.articles)
    {
      var data := DataRows(rows);
      listOfShopItems := map[];
      keyOrder := [];
      ghost var read: seq<Article> := [];
      var i := 0;
      while i < |data|
        invariant 0 <= i <= |data|
        invariant ParseRows(data[..i]) == Parsed(read, None)
        invariant listOfShopItems == Index(read) && keyOrder == KeyOrder(read)
        invariant Valid()
      {
        ParseRowsNext(data, i, read);
        var row := ParseRow(data[i]);
        if row.Failure? {
          return Some(LoadError(i, row.error));
        }
        var article := row.value;
        assert (read + [article])[..|read|] == read;
        Put(article);
        read := read + [article];
        i := i + 1;
      }
      assert data[..i] == data;
      return None;
    }

    /** `listOfShopItems.put`: a new key goes to the end of the key order, a known one keeps its place. */
    method Put(article: Article)
      requires Valid()
      modifies this`listOfShopItems, this`keyOrder
      ensures Valid()
      ensures listOfShopItems == old(listOfShopItems)[article.nfcId := article]
      ensures keyOrder == if article.nfcId in old(keyOrder) then old(keyOrder)
                          else old(keyOrder) + [article.nfcId]
    {
      listOfShopItems := listOfShopItems[article.nfcId := article];
      if article.nfcId !in keyOrder {
        keyOrder := keyOrder + [article.nfcId];
      }
    }

    /** `speak`: records the sentence as the last one, then speaks it. */
    method Speak(sentence: string)
      requires Valid()
      modifies this`lastSentence, this`spoken
      ensures Valid()
      ensures lastSentence == sentence && spoken == old(spoken) + [sentence]
    {
      lastSentence := sentence;
      spoken := spoken + [sentence];
    }

    /** `onTagTapped` for the key `tagUri`. */
    method TagTapped(tagUri: string)
      requires Valid()
      modifies this`currentCategory, this`lastSentence, this`spoken
      ensures Valid()
      ensures Applied(Respond(listOfShopItems, keyOrder, shoppingList, currentObjectIndex,
                              old(currentCategory), tagUri),
                      old(currentCategory), old(lastSentence), old(spoken))
    {
      if tagUri !in listOfShopItems {
        return;
      }
      var scanned := listOfShopItems[tagUri];
      if currentObjectIndex >= |shoppingList| {
        Speak(ListEmpty);
        return;
      }
      var targetName := shoppingList[currentObjectIndex];
      if scanned.name == targetName {
        Speak(FoundSentence(scanned.name));
        return;
      }
      var target := FindTarget(targetName);
      if target.None? {
        return;
      }
      SpeakGuidance(target.value, scanned);
    }

    /** The end of `onTagTapped`, once its target is found: speak and set the category as `Guide` says. */
    method SpeakGuidance(target: Article, scanned: Article)
      requires Valid()
      modifies this`currentCategory, this`lastSentence, this`spoken
      ensures Valid()
      ensures Applied(Guidance.Guide(target, scanned, old(currentCategory)),
                      old(currentCategory), old(lastSentence), old(spoken))
    {
      ghost var r := Guidance.Guide(target, scanned, currentCategory);
      if target.category == scanned.category {
        var direction := Direction(target.id, scanned.id);
        if currentCategory != scanned.category {
          assert r == Say(scanned.category + " category found. " + direction, scanned.category);
          currentCategory := scanned.category;
          Speak(scanned.category + " category found. " + direction);
        } else {
          assert r == Say(direction, currentCategory);
          Speak(direction);
        }
      } else {
        assert r == Say(WrongCategorySentence(target.category), "");
        currentCategory := "";
        Speak(WrongCategorySentence(target.category));
      }
    }

    /**
     * The walk over `listOfShopItems.keys` in `onTagTapped`: every Article
     * with the wanted name replaces the one kept before it.
     */
    method FindTarget(targetName: string) returns (target: Option<Article>)
      requires Valid()
      ensures target == LastNamed(listOfShopItems, keyOrder, targetName)
    {
      target := None;
      var i := 0;
      while i < |keyOrder|
        invariant 0 <= i <= |keyOrder|
        invariant KeysIn(listOfShopItems, keyOrder[..i])
        invariant target == LastNamed(listOfShopItems, keyOrder[..i], targetName)
      {
        var possibleItemInShop := listOfShopItems[keyOrder[i]];
        assert keyOrder[..i + 1][..i] == keyOrder[..i];
        if possibleItemInShop.name == targetName {
          target := Some(possibleItemInShop);
        }
        i := i + 1;
      }
      assert keyOrder[..i] == keyOrder;
    }

    /** `onNewIntent`: the key of the first accepted record, if any, goes to `onTagTapped`. */
    method NewIntent(ndefDiscovered: bool, rawMsgs: Option<seq<seq<Record>>>)
      requires Valid()
      modifies this`currentCategory, this`lastSentence, this`spoken
      ensures Valid()
      ensures var key := if ndefDiscovered && rawMsgs.Some? then FirstKeyIn(rawMsgs.value) else None;
              Applied(if key.None? then Silent
                      else Respond(listOfShopItems, keyOrder, shoppingList, currentObjectIndex,
                                   old(currentCategory), key.value),
                      old(currentCategory), old(lastSentence), old(spoken))
    {
      var key := ExtractTagKey(ndefDiscovered, rawMsgs);
      if key.Some? {
        TagTapped(key.value);
      }
    }

    /** `onDoubleTap`, its counter and sentence. */
    method DoubleTap()
      requires Valid()
      modifies this`currentObjectIndex, this`lastSentence, this`spoken
      ensures Valid()
      ensures var c := Confirm(shoppingList, old(currentObjectIndex));
              && currentObjectIndex == c.index
              && lastSentence == c.sentence
              && spoken == old(spoken) + [c.sentence]
    {
      if currentObjectIndex + 1 >= |shoppingList| {
        Speak(Done);
      } else {
        Speak(shoppingList[currentObjectIndex] + " removed from your list. Next is "
              + shoppingList[currentObjectIndex + 1]);
        currentObjectIndex := currentObjectIndex + 1;
      }
    }

    /** `onFling`: the last sentence is spoken again and stays the last sentence. */
    method Fling()
      requires Valid()
      modifies this`lastSentence, this`spoken
      ensures Valid()
      ensures lastSentence == old(lastSentence)
      ensures spoken == old(spoken) + [old(lastSentence)]
    {
      Speak(lastSentence);
    }
  }
}
