/**
 * How `onNewIntent` turns an NFC discovery into a catalog key: the records of
 * the NDEF messages are looked at in order, the first URI record ('U' type)
 * whose URI starts with the imagotag prefix supplies the key, and the key is
 * that URI with the prefix text removed.
 */
module TagKey {
  import opened Wrappers

  type Byte = x: int | 0 <= x < 256

  /** The first byte of an NDEF record type; 0x55 is 'U', a URI record. */
  const UriType: Byte := 0x55

  const Prefix: string := "https://nfc.imagotag.com/"

  /** An NDEF record, reduced to the first byte of its type and its URI. */
  datatype Record = Record(typeByte: Byte, uri: string)

  predicate StartsWith(s: string, p: string) {
    |p| <= |s| && s[..|p|] == p
  }

  predicate OccursAt(s: string, p: string, i: nat) {
    i + |p| <= |s| && s[i..i + |p|] == p
  }

  /**
   * Kotlin's `String.replace(oldValue, newValue)`: scanning from the left,
   * every non-overlapping occurrence of `pat` is replaced.
   */
  function ReplaceAll(s: string, pat: string, rep: string): string
    requires |pat| > 0
    decreases |s|
  {
    if |s| < |pat| then s
    else if s[..|pat|] == pat then rep + ReplaceAll(s[|pat|..], pat, rep)
    else [s[0]] + ReplaceAll(s[1..], pat, rep)
  }

  /** A string in which `pat` does not occur is left as it is. */
  lemma {:induction false} ReplaceAllNoMatch(s: string, pat: string, rep: string)
    requires |pat| > 0
    requires forall i: nat :: !OccursAt(s, pat, i)
    ensures ReplaceAll(s, pat, rep) == s
    decreases |s|
  {
    if |s| >= |pat| {
      assert !OccursAt(s, pat, 0);
      assert s[..|pat|] != pat;
      forall i: nat
        ensures !OccursAt(s[1..], pat, i)
      {
        assert !OccursAt(s, pat, i + 1);
        if i + |pat| <= |s[1..]| {
          assert s[1..][i..i + |pat|] == s[i + 1..i + 1 + |pat|];
        }
      }
      ReplaceAllNoMatch(s[1..], pat, rep);
    }
  }

  /** The two tests a record must pass. */
  predicate Accepts(r: Record) {
    r.typeByte == UriType && StartsWith(r.uri, Prefix)
  }

  /** The key of an accepted URI: `tagUri.replace(prefix, "")`. */
  function KeyOf(uri: string): string {
    ReplaceAll(uri, Prefix, "")
  }

  /** For the usual URI, with the prefix once at the front, the key is what follows it. */
  lemma KeyOfPlainUri(uri: string)
    requires StartsWith(uri, Prefix)
    requires forall i: nat :: !OccursAt(uri[|Prefix|..], Prefix, i)
    ensures KeyOf(uri) == uri[|Prefix|..]
  {
    ReplaceAllNoMatch(uri[|Prefix|..], Prefix, "");
  }

  /**
   * When `pat` first occurs in `x + pat + y` right after `x`, `replace` keeps
   * `x`, replaces that occurrence and goes on with `y`.
   */
  lemma {:induction false} ReplaceAllAfter(x: string, y: string, pat: string, rep: string)
    requires |pat| > 0
    requires forall i :: 0 <= i < |x| ==> !OccursAt(x + pat + y, pat, i)
    ensures ReplaceAll(x + pat + y, pat, rep) == x + rep + ReplaceAll(y, pat, rep)
    decreases |x|
  {
    var s := x + pat + y;
    if x == [] {
      assert s == pat + y && s[..|pat|] == pat && s[|pat|..] == y;
    } else {
      assert !OccursAt(s, pat, 0);
      assert s[1..] == x[1..] + pat + y;
      forall i | 0 <= i < |x[1..]|
        ensures !OccursAt(x[1..] + pat + y, pat, i)
      {
        assert !OccursAt(s, pat, i + 1);
        assert s[i + 1..i + 1 + |pat|] == s[1..][i..i + |pat|];
      }
      ReplaceAllAfter(x[1..], y, pat, rep);
      assert x + rep + ReplaceAll(y, pat, rep) == [x[0]] + (x[1..] + rep + ReplaceAll(y, pat, rep));
    }
  }

  /**
   * Every occurrence is removed, not only the leading one: after the prefix
   * at the front, text `a` without an occurrence of its own is kept, the next
   * copy of the prefix is dropped, and the rest is keyed the same way.
   */
  lemma KeyOfRemovesEveryOccurrence(a: string, b: string)
    requires forall i :: 0 <= i < |a| ==> !OccursAt(a + Prefix + b, Prefix, i)
    ensures KeyOf(Prefix + a + Prefix + b) == a + KeyOf(b)
  {
    var s := Prefix + a + Prefix + b;
    assert s[..|Prefix|] == Prefix && s[|Prefix|..] == a + Prefix + b;
    ReplaceAllAfter(a, b, Prefix, "");
    assert a + "" + KeyOf(b) == a + KeyOf(b);
  }

  /** The key of the first accepted record of one message. */
  function FirstKey(records: seq<Record>): Option<string> {
    if records == [] then None
    else if Accepts(records[0]) then Some(KeyOf(records[0].uri))
    else FirstKey(records[1..])
  }

  /** The key of the first accepted record of the first message that has one. */
  function FirstKeyIn(messages: seq<seq<Record>>): Option<string> {
    if messages == [] then None
    else if FirstKey(messages[0]).Some? then FirstKey(messages[0])
    else FirstKeyIn(messages[1..])
  }

  function Flatten(messages: seq<seq<Record>>): seq<Record> {
    if messages == [] then [] else messages[0] + Flatten(messages[1..])
  }

  /**
   * A key is found exactly when some record is accepted, and then it comes
   * from the first accepted record.
   */
  lemma {:induction false} FirstKeyIsFirst(records: seq<Record>)
    ensures FirstKey(records).None? <==> forall i :: 0 <= i < |records| ==> !Accepts(records[i])
    ensures FirstKey(records).Some? ==>
              exists i :: 0 <= i < |records| && Accepts(records[i])
                          && FirstKey(records) == Some(KeyOf(records[i].uri))
                          && forall j :: 0 <= j < i ==> !Accepts(records[j])
  {
    if records != [] && !Accepts(records[0]) {
      var rest := records[1..];
      FirstKeyIsFirst(rest);
      if FirstKey(rest).Some? {
        var i :| 0 <= i < |rest| && Accepts(rest[i]) && FirstKey(rest) == Some(KeyOf(rest[i].uri))
                 && forall j :: 0 <= j < i ==> !Accepts(rest[j]);
        assert records[i + 1] == rest[i];
        forall j | 0 <= j < i + 1
          ensures !Accepts(records[j])
        {
          if j > 0 {
            assert records[j] == rest[j - 1];
          }
        }
      } else {
        forall i | 0 <= i < |records|
          ensures !Accepts(records[i])
        {
          if i > 0 {
            assert records[i] == rest[i - 1];
          }
        }
      }
    } else if records != [] {
      assert Accepts(records[0]);
    }
  }

  lemma {:induction false} FirstKeyAppend(a: seq<Record>, b: seq<Record>)
    ensures FirstKey(a + b) == if FirstKey(a).Some? then FirstKey(a) else FirstKey(b)
  {
    if a != [] {
      assert (a + b)[0] == a[0];
      assert (a + b)[1..] == a[1..] + b;
      FirstKeyAppend(a[1..], b);
    } else {
      assert a + b == b;
    }
  }

  /** Looking message by message is looking at all records in one sequence. */
  lemma {:induction false} FirstKeyInFlatten(messages: seq<seq<Record>>)
    ensures FirstKeyIn(messages) == FirstKey(Flatten(messages))
  {
    if messages != [] {
      FirstKeyAppend(messages[0], Flatten(messages[1..]));
      FirstKeyInFlatten(messages[1..]);
    }
  }

  /**
   * The record loop of `onNewIntent`. Gives `None` for an intent that is not
   * an NDEF discovery or carries no messages, else the key the loop hands to
   * `onTagTapped`, if any record passes.
   */
  method ExtractTagKey(ndefDiscovered: bool, rawMsgs: Option<seq<seq<Record>>>)
    returns (key: Option<string>)
    ensures key == if ndefDiscovered && rawMsgs.Some? then FirstKeyIn(rawMsgs.value) else None
  {
    if !ndefDiscovered || rawMsgs.None? {
      return None;
    }
    var msgs := rawMsgs.value;
    var m := 0;
    while m < |msgs|
      invariant 0 <= m <= |msgs|
      invariant FirstKeyIn(msgs) == FirstKeyIn(msgs[m..])
    {
      var records := msgs[m];
      var r := 0;
      while r < |records|
        invariant 0 <= r <= |records|
        invariant FirstKey(records) == FirstKey(records[r..])
      {
        var record := records[r];
        if record.typeByte == UriType {
          var tagUri := record.uri;
          if StartsWith(tagUri, Prefix) {
            assert FirstKey(records[r..]) == Some(KeyOf(tagUri));
            assert msgs[m..][0] == records;
            return Some(ReplaceAll(tagUri, Prefix, ""));
          }
        }
        assert records[r..][1..] == records[r + 1..];
        r := r + 1;
      }
      assert records[r..] == [];
      assert msgs[m..][1..] == msgs[m + 1..];
      m := m + 1;
    }
    assert msgs[m..] == [];
    return None;
  }
}
