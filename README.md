# LARS shopping guide — a Dafny model of its decision logic

LARS is an Android app that guides a visually-impaired shopper through a
store. The shopper taps NFC shelf tags. The app looks the tag up in a
product catalog and compares the product with the next item on the shopping
list. It then speaks one sentence: "found", "wrong category", or a distance
such as "3 items further". A double-tap confirms the item and moves to the
next one. A swipe (fling) repeats the last sentence.

Everything the app decides happens in `MainActivity.kt`. This project models
that logic:

- `Numbers`: Kotlin's `Int`. It holds `String.toInt()`, `"" + n`, and the wrapping `-` on product ids.
- `Articles`: the `Article` record, and how one tokenised CSV row becomes an `Article` or an exception.
- `Catalog`: the load. The header is skipped and the rows are read until the first exception. Each row is put into the map under its tag number. The map is Kotlin's `mutableMapOf`, which is a LinkedHashMap. So the model keeps its key order explicitly as a `seq<string>`: re-putting a key replaces the value and keeps the key where it was.
- `TagKey`: `onNewIntent`'s record filter. It picks the first record whose type byte is 0x55 and whose URI starts with `https://nfc.imagotag.com/`. The key is that URI after Kotlin's `String.replace`, which removes every occurrence of the prefix.
- `Guidance`: the sentence `onTagTapped` chooses (`Respond`), the distance phrase (`Direction`), the target lookup over the key order (`LastNamed`), and the double-tap step (`Confirm`).
- `Lars.MainActivity`: a class with the activity's fields. The map is `listOfShopItems` plus `keyOrder`. The other fields are `shoppingList`, `currentObjectIndex`, `currentCategory` and `lastSentence`. The field `spoken` stands for the sentences handed to the text-to-speech engine. Its methods are the handlers. Each handler is proved against the functions above and keeps `Valid()`:
  - the key order lists each map key exactly once;
  - the index is on an item of the list, or at 0 for an empty list;
  - `lastSentence` is the last sentence spoken.

Behaviour worth knowing, all taken from the code:

- A double-tap on the last item says "You are done now" and leaves the index on that item. The index therefore never reaches the list's length. "Shopping list empty" can only be heard when the list itself is empty.
- The id difference is Kotlin `Int` arithmetic, so the difference wraps around. A target more than `Int.MAX_VALUE` above the scanned id reads as "before", and a target more than 2^31 below it reads as "further". A difference of exactly `Int.MIN_VALUE` is spoken as "-2147483648 items before". These are proved as lemmas (`DirectionWrapsOnOverflow`, `DirectionWrapsOnUnderflow`, `DirectionAtMinValue`).
- The wrong-category sentence has two spaces after "Go to".
- In the target lookup, `listOfShopItems[key] ?: return` (line 211) can never return early, because every key comes from the map itself. The model states that through `KeysIn`.
- The catalog's fourth column is read as `position`, and distances use the first column (`id`).

## Model

| member | source | states |
|---|---|---|
| Numbers.ParseInt | app/src/main/java/org/hackahealth/lars/MainActivity.kt:96-101 | a string `toInt()` accepts is an optional '+' or '-' followed by decimal digits, and its value is those digits' value with that sign and fits in an `Int`; anything else is an error |
| Numbers.ParseIntAccepts | app/src/main/java/org/hackahealth/lars/MainActivity.kt:96-101 | every sign ("", "+" or "-") followed by at least one decimal digit, with a signed value inside the `Int` range, is accepted with that value |
| Numbers.IntToString | app/src/main/java/org/hackahealth/lars/MainActivity.kt:228-230 | `"" + n` has no space and begins with '-' exactly for negative `n` |
| Numbers.IntToStringRoundTrip | app/src/main/java/org/hackahealth/lars/MainActivity.kt:228-230 | reading back the number written for a distance gives that number (`toInt("" + n) == n`) |
| Numbers.IntToStringCanonical | app/src/main/java/org/hackahealth/lars/MainActivity.kt:228-230 | `"" + n` is canonical: a '-' only for negative `n`, never a '+', then at least one digit and no leading zero except in "0" |
| Numbers.Sub32 | app/src/main/java/org/hackahealth/lars/MainActivity.kt:224 | no contract of its own; its `Int32` result type keeps it in range and WrapIsModular states that it is exact subtraction modulo 2^32 |
| Numbers.Neg32 | app/src/main/java/org/hackahealth/lars/MainActivity.kt:228 | no contract of its own; its `Int32` result type keeps it in range and WrapIsModular states that it is exact negation modulo 2^32 |
| Numbers.WrapIsModular | app/src/main/java/org/hackahealth/lars/MainActivity.kt:224-230 | the `Int` subtraction and negation used for distances agree with exact arithmetic modulo 2^32 |
| Articles.ParseRow | app/src/main/java/org/hackahealth/lars/MainActivity.kt:94-101 | a row becomes an Article exactly when it has five columns and columns 0 and 3 are numbers; then nfcId, id, name, position and category are columns 1, 0, 2, 3 and 4, and entry and aisle are 0; otherwise it names the first read that throws, in the order 1, 0, 2, 4, 3: every read before it succeeded |
| Catalog.DataRows | app/src/main/java/org/hackahealth/lars/MainActivity.kt:85-86 | the first row is dropped as the header; the remaining rows are the data in order |
| Catalog.ParseRows | app/src/main/java/org/hackahealth/lars/MainActivity.kt:93-104 | rows are read in order up to the first that throws; each row before it is the Article in the same place, and the error names that row |
| Catalog.ParseRowsStops | app/src/main/java/org/hackahealth/lars/MainActivity.kt:93-104 | once a row throws, the rows after it change nothing |
| Catalog.Index | app/src/main/java/org/hackahealth/lars/MainActivity.kt:103 | every Article in the map is stored under its own nfcId |
| Catalog.KeyOrder | app/src/main/java/org/hackahealth/lars/MainActivity.kt:89-103 | the map's key order has no repeats and holds exactly the map's keys |
| Catalog.KeyOrderGrows | app/src/main/java/org/hackahealth/lars/MainActivity.kt:103 | a put never moves a key: the order after fewer rows is a prefix of the order after more |
| Catalog.IndexKeys | app/src/main/java/org/hackahealth/lars/MainActivity.kt:103 | a tag number is a key exactly when some row carried it |
| Catalog.IndexLastWins | app/src/main/java/org/hackahealth/lars/MainActivity.kt:103 | a duplicate tag number overwrites: the key maps to the last Article that carried it |
| Catalog.LoadedEntry | app/src/main/java/org/hackahealth/lars/MainActivity.kt:93-104 | after a load without an exception, each data row's column 1 maps to the Article of the last row with that key, with every field taken from its column |
| Catalog.HeaderNotLoaded | app/src/main/java/org/hackahealth/lars/MainActivity.kt:85-86 | a tag number that appears only in the header row is not a key of the loaded map |
| TagKey.ReplaceAll | app/src/main/java/org/hackahealth/lars/MainActivity.kt:178 | no contract of its own; ReplaceAllNoMatch and ReplaceAllAfter state that it keeps text without an occurrence and replaces every occurrence from the left |
| TagKey.Accepts | app/src/main/java/org/hackahealth/lars/MainActivity.kt:166-175 | no contract of its own: a record passes when its type byte is 0x55 and its URI starts with the prefix |
| TagKey.KeyOf | app/src/main/java/org/hackahealth/lars/MainActivity.kt:178 | no contract of its own; KeyOfPlainUri and KeyOfRemovesEveryOccurrence state that it removes every copy of the prefix |
| TagKey.ReplaceAllNoMatch | app/src/main/java/org/hackahealth/lars/MainActivity.kt:178 | `replace` leaves a string without any occurrence of the pattern unchanged |
| TagKey.KeyOfPlainUri | app/src/main/java/org/hackahealth/lars/MainActivity.kt:174-178 | for a URI with the prefix only at its front, the key is the text after the prefix |
| TagKey.ReplaceAllAfter | app/src/main/java/org/hackahealth/lars/MainActivity.kt:178 | when the first occurrence of the pattern comes right after `x`, `replace` keeps `x`, replaces that occurrence, and goes on with the rest |
| TagKey.KeyOfRemovesEveryOccurrence | app/src/main/java/org/hackahealth/lars/MainActivity.kt:178 | after the leading prefix, text `a` with no copy of the prefix starting inside it is kept, the next copy of the prefix is removed as well, and the rest is keyed the same way: `KeyOf(Prefix + a + Prefix + b) == a + KeyOf(b)` |
| TagKey.FirstKey | app/src/main/java/org/hackahealth/lars/MainActivity.kt:164-180 | no contract of its own; FirstKeyIsFirst states that it is the key of the first accepted record of one message |
| TagKey.FirstKeyIn | app/src/main/java/org/hackahealth/lars/MainActivity.kt:160-180 | no contract of its own; FirstKeyInFlatten states that it is the first accepted record over all messages in order, and ExtractTagKey is proved equal to it |
| TagKey.FirstKeyIsFirst | app/src/main/java/org/hackahealth/lars/MainActivity.kt:164-179 | a key is found exactly when some record has type 0x55 and the prefix; the key then comes from the first such record, with the prefix removed |
| TagKey.FirstKeyInFlatten | app/src/main/java/org/hackahealth/lars/MainActivity.kt:160-164 | scanning message by message finds the same key as scanning all records of all messages in order |
| TagKey.ExtractTagKey | app/src/main/java/org/hackahealth/lars/MainActivity.kt:150-181 | a non-NDEF intent or one without messages gives no key; otherwise the nested loops return the key of the first accepted record |
| Guidance.Direction | app/src/main/java/org/hackahealth/lars/MainActivity.kt:222-231 | no contract of its own; DirectionShape, DirectionDistance, DirectionWrapsOnOverflow, DirectionWrapsOnUnderflow and DirectionAtMinValue state it |
| Guidance.DirectionShape | app/src/main/java/org/hackahealth/lars/MainActivity.kt:221-231 | without overflow, the phrase is the distance, then "item" exactly when the distance is 1 (else "items"), then "before" exactly when the target id is smaller (else "further"); 0 reads "0 items further" |
| Guidance.DirectionDistance | app/src/main/java/org/hackahealth/lars/MainActivity.kt:227-230 | the first word of the phrase, read as a number, is the absolute id difference |
| Guidance.DirectionDependsOnDifference | app/src/main/java/org/hackahealth/lars/MainActivity.kt:224-230 | the phrase depends only on `target.id - scanned.id` |
| Guidance.DirectionWrapsOnOverflow | app/src/main/java/org/hackahealth/lars/MainActivity.kt:224-230 | when the `Int` difference overflows upward, the phrase says "before" |
| Guidance.DirectionWrapsOnUnderflow | app/src/main/java/org/hackahealth/lars/MainActivity.kt:224-230 | when the `Int` difference overflows downward, the phrase says "further" |
| Guidance.DirectionAtMinValue | app/src/main/java/org/hackahealth/lars/MainActivity.kt:227-228 | a difference of `Int.MIN_VALUE` is spoken as "-2147483648 items before" |
| Guidance.DirectionOneBefore | app/src/main/java/org/hackahealth/lars/MainActivity.kt:224-228 | every pair of ids with a difference of -1 reads "1 item before" (singular) |
| Guidance.DirectionZeroFurther | app/src/main/java/org/hackahealth/lars/MainActivity.kt:229-230 | two different products sharing an id, whatever the id, read "0 items further" |
| Guidance.LastNamed | app/src/main/java/org/hackahealth/lars/MainActivity.kt:207-214 | no contract of its own; LastNamedIsLast states that it is the last Article in key order with the name, and FindTarget is proved equal to it |
| Guidance.LastNamedIsLast | app/src/main/java/org/hackahealth/lars/MainActivity.kt:207-214 | the lookup finds nothing exactly when no Article has the name; otherwise it finds the last one in key order |
| Guidance.Respond | app/src/main/java/org/hackahealth/lars/MainActivity.kt:190-243 | a tap that speaks is on a known tag and leaves `currentCategory` as it was, as "", or as the scanned category |
| Guidance.Guide | app/src/main/java/org/hackahealth/lars/MainActivity.kt:221-242 | once the target is found, a sentence is always spoken, and the category becomes the scanned one when the target shares it and "" otherwise |
| Guidance.RespondUnknownTag | app/src/main/java/org/hackahealth/lars/MainActivity.kt:191-192 | an unknown tag says nothing and changes nothing, whatever the index |
| Guidance.RespondListExhausted | app/src/main/java/org/hackahealth/lars/MainActivity.kt:194-197 | a known tag with the index at or past the list's end says exactly "Shopping list empty" |
| Guidance.RespondFound | app/src/main/java/org/hackahealth/lars/MainActivity.kt:199-204 | the wanted item scanned: "<name> found. Double-tap to confirm.", with the category unchanged |
| Guidance.RespondTargetMissing | app/src/main/java/org/hackahealth/lars/MainActivity.kt:206-219 | if no Article has the wanted name, nothing is said and nothing changes |
| Guidance.RespondWrongCategory | app/src/main/java/org/hackahealth/lars/MainActivity.kt:221-242 | if the last Article with the wanted name is in another category, the tap says "Wrong category. Go to  <its category> category" and resets the category to "", whatever the ids |
| Guidance.RespondSameCategory | app/src/main/java/org/hackahealth/lars/MainActivity.kt:221-238 | if the target is in the scanned category, the tap says the distance phrase; "<category> category found. " comes first exactly when that category was not current, and the category becomes current either way |
| Guidance.Confirm | app/src/main/java/org/hackahealth/lars/MainActivity.kt:255-260 | a double-tap from an item of the list stays on an item of the list |
| Guidance.ConfirmStopsAtLast | app/src/main/java/org/hackahealth/lars/MainActivity.kt:255-260 | k double-taps from item i reach item min(i + k, last); on the last item a double-tap only says "You are done now", so repeated confirms change nothing |
| Lars.MainActivity.constructor | app/src/main/java/org/hackahealth/lars/MainActivity.kt:48-56 | the fields start empty, at index 0 and with no sentence, with the given shopping list |
| Lars.MainActivity.OnCreate | app/src/main/java/org/hackahealth/lars/MainActivity.kt:57-81 | `onCreate` loads the catalog from the rows, then sets the hard-coded list; a load that throws stops before the list is set |
| Lars.MainActivity.ReadProductsDatabase | app/src/main/java/org/hackahealth/lars/MainActivity.kt:83-105 | the map and its key order become those of the rows after the header, read up to the first exception, which is returned |
| Lars.MainActivity.Put | app/src/main/java/org/hackahealth/lars/MainActivity.kt:103 | `put` stores the Article under its key; a new key goes to the end of the key order, and a known key keeps its place |
| Lars.MainActivity.Speak | app/src/main/java/org/hackahealth/lars/MainActivity.kt:184-187 | every spoken sentence becomes `lastSentence` and is appended to what was said |
| Lars.MainActivity.FindTarget | app/src/main/java/org/hackahealth/lars/MainActivity.kt:207-214 | the loop over the map's keys returns the last Article in key order with the wanted name |
| Lars.MainActivity.TagTapped | app/src/main/java/org/hackahealth/lars/MainActivity.kt:190-243 | the fields change exactly as `Respond` decides: nothing for a silent tap, otherwise the sentence is spoken and the category set |
| Lars.MainActivity.SpeakGuidance | app/src/main/java/org/hackahealth/lars/MainActivity.kt:221-242 | the category and the speech change exactly as `Guide` decides for the found target |
| Lars.MainActivity.NewIntent | app/src/main/java/org/hackahealth/lars/MainActivity.kt:150-181 | the key of the first accepted record, if there is one, is handled as a tap; otherwise nothing changes |
| Lars.MainActivity.DoubleTap | app/src/main/java/org/hackahealth/lars/MainActivity.kt:255-260 | at or past the last item it says "You are done now" and keeps the index; otherwise it says "<item> removed from your list. Next is <next>" and the index rises by exactly 1 |
| Lars.MainActivity.Fling | app/src/main/java/org/hackahealth/lars/MainActivity.kt:267-273 | the last sentence is spoken again and stays the last sentence, so repeating is idempotent |

## Left out

- Android lifecycle, NFC foreground dispatch and layout inflation (`onCreate` plumbing, `onResume`, `onPause`): platform calls with no decisions in them. `OnCreate` keeps only the field initialisation, the catalog load and the hard-coded list (`HardCodedShoppingList`).
- `onInit` and the greeting it speaks: text-to-speech engine start-up. `tts.speak` itself is the `spoken` field, and `setSpeechRate` is a float setting.
- The green background and the two-second `Handler.postDelayed` reset in `onDoubleTap`: UI work and a deferred callback.
- Gesture detector wiring and the no-op overrides (`onTouchEvent`, `onDown`, `onScroll`, `onShowPress`, `onSingleTapUp`, `onDoubleTapEvent`, `onSingleTapConfirmed`, `onLongPress`): they decide nothing.
- Reading `products.csv` with OpenCSV, and `assets.open`: a library and file I/O. The model starts from rows that are already split. A missing file is not modelled.
- The hex tag id (`BaseEncoding`, and `getParcelableExtra(EXTRA_TAG)!!`): it is passed to `onTagTapped` and never used. The exception when the extra is missing is not modelled.
- NDEF parsing and `record.toUri()`: foreign calls. A record is its first type byte and its URI. The exceptions for a record with an empty type and for a URI record whose `toUri()` is null are not modelled.
- The `Log.i` of the header (line 92) and the `Log.e` of a missing target (line 217): logging only, with no effect on the state or on what is spoken.
- Numbers.ParseInt: accepts only the ASCII digits '0'-'9'. Java's `Integer.parseInt` also accepts other Unicode decimal digits.
- An exception during the load ends `onCreate` and the app. The model returns that exception and leaves the map holding the rows read before it, without modelling the crash.
