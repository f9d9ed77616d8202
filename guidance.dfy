/**
 * What `onTagTapped` and `onDoubleTap` decide, as functions of the session's
 * fields: which sentence is spoken and what the fields become.
 */
module Guidance {
  import opened Wrappers
  import opened Numbers
  import opened Articles

  // ---------------------------------------------------------------------------
  // Direction sentence

  /** The distance phrase, from the Kotlin `Int` difference `target.id - scanned.id`. */
  function Direction(targetId: Int32, scannedId: Int32): string {
    var d := Sub32(targetId, scannedId);
    var item := if d == 1 || d == -1 then "item" else "items";
    if d < 0 then IntToString(Neg32(d)) + " " + item + " before"
    else IntToString(d) + " " + item + " further"
  }

  function Abs(x: int): nat {
    if x < 0 then -x else x
  }

  /** The text before the first space. */
  function FirstWord(s: string): (w: string)
    ensures |w| <= |s| && w == s[..|w|]
  {
    if s == [] || s[0] == ' ' then [] else [s[0]] + FirstWord(s[1..])
  }

  lemma {:induction false} FirstWordOf(x: string, y: string)
    requires ' ' !in x
    ensures FirstWord(x + " " + y) == x
  {
    if x != [] {
      assert (x + " " + y)[0] == x[0];
      assert (x + " " + y)[1..] == x[1..] + " " + y;
      FirstWordOf(x[1..], y);
    } else {
      assert x + " " + y == " " + y;
    }
  }

  /** The unit word: singular exactly when the distance is 1. */
  function Unit(d: int): string {
    if Abs(d) == 1 then "item" else "items"
  }

  /** The side: "before" exactly when the target has the smaller id. */
  function Side(d: int): string {
    if d < 0 then " before" else " further"
  }

  /**
   * When neither `target.id - scanned.id` nor its negation overflows, the
   * phrase is the distance |d|, then "item" exactly when |d| is 1, then
   * "before" exactly when the target has the smaller id; a difference of 0
   * reads "0 items further".
   */
  lemma DirectionShape(targetId: Int32, scannedId: Int32)
    requires MinInt32 < targetId - scannedId <= MaxInt32
    ensures var d := targetId - scannedId;
            Direction(targetId, scannedId) == IntToString(Abs(d)) + " " + Unit(d) + Side(d)
  {
  }

  /** Reading the first word of the phrase back as a number gives the distance. */
  lemma DirectionDistance(targetId: Int32, scannedId: Int32)
    requires MinInt32 < targetId - scannedId <= MaxInt32
    ensures ParseInt(FirstWord(Direction(targetId, scannedId))) == Some(Abs(targetId - scannedId))
  {
    var d := targetId - scannedId;
    var n := IntToString(Abs(d));
    DirectionShape(targetId, scannedId);
    assert n + " " + Unit(d) + Side(d) == n + " " + (Unit(d) + Side(d));
    FirstWordOf(n, Unit(d) + Side(d));
    IntToStringRoundTrip(Abs(d));
  }

  /** Only the id difference matters, not the ids themselves. */
  lemma DirectionDependsOnDifference(t1: Int32, s1: Int32, t2: Int32, s2: Int32)
    requires t1 - s1 == t2 - s2
    ensures Direction(t1, s1) == Direction(t2, s2)
  {
  }

  /**
   * The difference is a Kotlin `Int` and wraps: with ids more than
   * `Int.MAX_VALUE` apart, a target with the larger id is said to be "before".
   */
  lemma DirectionWrapsOnOverflow(targetId: Int32, scannedId: Int32)
    requires targetId - scannedId > MaxInt32
    ensures var s := Direction(targetId, scannedId);
            |s| >= 7 && s[|s| - 7..] == " before"
  {
  }

  /**
   * The other way round: a target more than 2^31 below the scanned id is
   * said to be "further".
   */
  lemma DirectionWrapsOnUnderflow(targetId: Int32, scannedId: Int32)
    requires targetId - scannedId < MinInt32
    ensures var s := Direction(targetId, scannedId);
            |s| >= 8 && s[|s| - 8..] == " further"
  {
  }

  /** A difference of exactly `Int.MIN_VALUE` stays negative when negated, so its number reads negative. */
  lemma DirectionAtMinValue(targetId: Int32, scannedId: Int32)
    requires targetId - scannedId == MinInt32
    ensures Direction(targetId, scannedId) == IntToString(MinInt32) + " items before"
  {
  }

  // ---------------------------------------------------------------------------
  // Target lookup

  predicate KeysIn(catalog: map<string, Article>, keys: seq<string>) {
    forall i :: 0 <= i < |keys| ==> keys[i] in catalog
  }

  /**
   * The walk over the map's keys in order: each Article with the target name
   * replaces the one found before it, so the last one is kept.
   */
  function LastNamed(catalog: map<string, Article>, keys: seq<string>, name: string): Option<Article>
    requires KeysIn(catalog, keys)
  {
    if keys == [] then None
    else
      var a := catalog[keys[|keys| - 1]];
      if a.name == name then Some(a) else LastNamed(catalog, keys[..|keys| - 1], name)
  }

  /** Position `i` holds the last key, in key order, whose Article has the name. */
  predicate IsLastNamed(catalog: map<string, Article>, keys: seq<string>, name: string, i: nat)
    requires KeysIn(catalog, keys)
  {
    && i < |keys|
    && catalog[keys[i]].name == name
    && forall j :: i < j < |keys| ==> catalog[keys[j]].name != name
  }

  /** The lookup finds nothing exactly when no Article has the name, else the last one. */
  lemma {:induction false} LastNamedIsLast(catalog: map<string, Article>, keys: seq<string>, name: string)
    requires KeysIn(catalog, keys)
    ensures LastNamed(catalog, keys, name).None?
            <==> forall i :: 0 <= i < |keys| ==> catalog[keys[i]].name != name
    ensures forall i: nat :: IsLastNamed(catalog, keys, name, i)
                             ==> LastNamed(catalog, keys, name) == Some(catalog[keys[i]])
  {
    if keys != [] {
      var init := keys[..|keys| - 1];
      assert KeysIn(catalog, init);
      LastNamedIsLast(catalog, init, name);
      if catalog[keys[|keys| - 1]].name != name {
        forall i: nat | IsLastNamed(catalog, keys, name, i)
          ensures IsLastNamed(catalog, init, name, i)
        {
          assert i < |keys| - 1;
          assert init[i] == keys[i];
        }
        if LastNamed(catalog, init, name).Some? {
          var i :| 0 <= i < |init| && catalog[init[i]].name == name;
          assert keys[i] == init[i];
        }
      }
    }
  }

  // ---------------------------------------------------------------------------
  // The tap decision

  /** What a tap does: nothing, or one sentence and the new `currentCategory`. */
  datatype Response = Silent | Say(sentence: string, category: string)

  const ListEmpty: string := "Shopping list empty"

  function FoundSentence(name: string): string {
    name + " found. Double-tap to confirm."
  }

  /** Note the two spaces after "Go to", as in the app. */
  function WrongCategorySentence(category: string): string {
    "Wrong category. Go to  " + category + " category"
  }

  /**
   * `onTagTapped(tagUri = key)` on a catalog (with its key order), a
   * shopping list, `currentObjectIndex` and `currentCategory`.
   */
  function Respond(catalog: map<string, Article>, keys: seq<string>, list: seq<string>,
                   index: nat, category: string, key: string): (r: Response)
    requires KeysIn(catalog, keys)
    ensures r.Say? ==> key in catalog && (r.category == category || r.category == "" || r.category == catalog[key].category)
  {
    if key !in catalog then Silent
    else if index >= |list| then Say(ListEmpty, category)
    else
      var scanned := catalog[key];
      var targetName := list[index];
      if scanned.name == targetName then Say(FoundSentence(scanned.name), category)
      else
        match LastNamed(catalog, keys, targetName)
        case None => Silent
        case Some(target) => Guide(target, scanned, category)
  }

  /**
   * The sentence once the lookup has found its target: the distance phrase
   * within the scanned category, else the wrong-category sentence.
   */
  function Guide(target: Article, scanned: Article, category: string): (r: Response)
    ensures r.Say?
    ensures r.category == if target.category == scanned.category then scanned.category else ""
  {
    if target.category == scanned.category then
      var direction := Direction(target.id, scanned.id);
      if category != scanned.category then
        Say(scanned.category + " category found. " + direction, scanned.category)
      else Say(direction, category)
    else Say(WrongCategorySentence(target.category), "")
  }

  /** A tag that is not in the catalog is ignored, even once the list is exhausted. */
  lemma RespondUnknownTag(catalog: map<string, Article>, keys: seq<string>, list: seq<string>,
                          index: nat, category: string, key: string)
    requires KeysIn(catalog, keys)
    requires key !in catalog
    ensures Respond(catalog, keys, list, index, category, key) == Silent
  {
  }

  /** A known tag once the list is exhausted: exactly "Shopping list empty". */
  lemma RespondListExhausted(catalog: map<string, Article>, keys: seq<string>, list: seq<string>,
                             index: nat, category: string, key: string)
    requires KeysIn(catalog, keys)
    requires key in catalog && index >= |list|
    ensures Respond(catalog, keys, list, index, category, key) == Say(ListEmpty, category)
  {
  }

  /** The scanned Article is the one wanted: the "found" sentence, category kept. */
  lemma RespondFound(catalog: map<string, Article>, keys: seq<string>, list: seq<string>,
                     index: nat, category: string, key: string)
    requires KeysIn(catalog, keys)
    requires key in catalog && index < |list| && catalog[key].name == list[index]
    ensures Respond(catalog, keys, list, index, category, key)
            == Say(FoundSentence(catalog[key].name), category)
  {
  }

  /** The wanted name is on no Article of the catalog: nothing is said. */
  lemma RespondTargetMissing(catalog: map<string, Article>, keys: seq<string>, list: seq<string>,
                             index: nat, category: string, key: string)
    requires KeysIn(catalog, keys)
    requires key in catalog && index < |list| && catalog[key].name != list[index]
    requires forall i :: 0 <= i < |keys| ==> catalog[keys[i]].name != list[index]
    ensures Respond(catalog, keys, list, index, category, key) == Silent
  {
    LastNamedIsLast(catalog, keys, list[index]);
  }

  /**
   * The target (the last Article in key order with the wanted name) is in
   * another category: the wrong-category sentence names the target's
   * category, and `currentCategory` becomes "", whatever the ids are.
   */
  lemma RespondWrongCategory(catalog: map<string, Article>, keys: seq<string>, list: seq<string>,
                             index: nat, category: string, key: string, t: nat)
    requires KeysIn(catalog, keys)
    requires key in catalog && index < |list| && catalog[key].name != list[index]
    requires IsLastNamed(catalog, keys, list[index], t)
    requires catalog[keys[t]].category != catalog[key].category
    ensures Respond(catalog, keys, list, index, category, key)
            == Say(WrongCategorySentence(catalog[keys[t]].category), "")
  {
    LastNamedIsLast(catalog, keys, list[index]);
  }

  /**
   * The target is in the scanned Article's category: the distance phrase,
   * after "<category> category found. " exactly when that category was not
   * already the current one; either way it becomes the current one.
   */
  lemma RespondSameCategory(catalog: map<string, Article>, keys: seq<string>, list: seq<string>,
                            index: nat, category: string, key: string, t: nat)
    requires KeysIn(catalog, keys)
    requires key in catalog && index < |list| && catalog[key].name != list[index]
    requires IsLastNamed(catalog, keys, list[index], t)
    requires catalog[keys[t]].category == catalog[key].category
    ensures var scanned := catalog[key];
            var direction := Direction(catalog[keys[t]].id, scanned.id);
            Respond(catalog, keys, list, index, category, key)
            == if category != scanned.category
               then Say(scanned.category + " category found. " + direction, scanned.category)
               else Say(direction, scanned.category)
  {
    LastNamedIsLast(catalog, keys, list[index]);
  }

  /** A distance of one is singular: one item back reads "1 item before". */
  lemma DirectionOneBefore(targetId: Int32, scannedId: Int32)
    requires targetId - scannedId == -1
    ensures Direction(targetId, scannedId) == "1 item before"
  {
    DirectionShape(targetId, scannedId);
    assert IntToString(1) == "1";
  }

  /** Two different Articles sharing an id are "0 items further" apart. */
  lemma DirectionZeroFurther(targetId: Int32, scannedId: Int32)
    requires targetId == scannedId
    ensures Direction(targetId, scannedId) == "0 items further"
  {
    DirectionShape(targetId, scannedId);
    assert IntToString(0) == "0";
  }

  // ---------------------------------------------------------------------------
  // Confirmation by double-tap

  datatype Confirmation = Confirmation(sentence: string, index: nat)

  const Done: string := "You are done now"

  /** `onDoubleTap`: step to the next item while there is one, else only say so. */
  function Confirm(list: seq<string>, index: nat): (c: Confirmation)
    ensures index < |list| ==> c.index < |list|
  {
    if index + 1 >= |list| then Confirmation(Done, index)
    else Confirmation(list[index] + " removed from your list. Next is " + list[index + 1], index + 1)
  }

  /** The index after `k` double-taps. */
  function ConfirmTimes(list: seq<string>, index: nat, k: nat): nat
    decreases k
  {
    if k == 0 then index else ConfirmTimes(list, Confirm(list, index).index, k - 1)
  }

  /**
   * From any item of a non-empty list, `k` double-taps move `k` items on but
   * never past the last item; there every further double-tap only says
   * "You are done now", so over-confirming changes nothing.
   */
  lemma {:induction false} ConfirmStopsAtLast(list: seq<string>, index: nat, k: nat)
    requires index < |list|
    ensures ConfirmTimes(list, index, k) == if index + k < |list| then index + k else |list| - 1
    ensures Confirm(list, |list| - 1) == Confirmation(Done, |list| - 1)
    decreases k
  {
    if k > 0 {
      ConfirmStopsAtLast(list, Confirm(list, index).index, k - 1);
    }
  }
}
