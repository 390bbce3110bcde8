/** Per-document field counting: the identifier of a record file, the value events of its ijson
    stream, the normalised path of each, and how often each path occurs. */
module Counting {
  import Strings

  /** The kinds of event `ijson.parse` yields. */
  datatype EventKind =
    | StartMap | MapKey | EndMap | StartArray | EndArray
    | NullValue | BooleanValue | IntegerValue | DoubleValue | NumberValue | StringValue
  {
    /** Not one of `end_map`, `end_array`, `start_map`, `map_key`, `start_array`: an event that
        carries a value at its prefix. */
    predicate IsValue() {
      !(StartMap? || MapKey? || EndMap? || StartArray? || EndArray?)
    }
  }

  /** An event as `(prefix, event)`; the value itself is never used. */
  type Event = (string, EventKind)

  /** A document's identifier: its path with every `.json` removed, after the last separator. */
  function Identifier(path: string, sep: char): string {
    Strings.AfterLast(Strings.ReplaceAll(path, ".json", ""), sep)
  }

  /** The path a prefix is counted under: every `grants.item.` removed, then every `.item`. */
  function Normalise(prefix: string): string {
    Strings.ReplaceAll(Strings.ReplaceAll(prefix, "grants.item.", ""), ".item", "")
  }

  /** A file name ending in `.json`, with no other `.json` in the path and no separator in its
      name, is identified by its name. */
  lemma FileIdentifier(dir: string, sep: char, name: string)
    requires sep !in name
    requires !Strings.Contains(dir + [sep] + name, ".json")
    ensures Identifier(dir + [sep] + name + ".json", sep) == name
  {
    var stem := dir + [sep] + name;
    JsonSuffixRemoved(stem);
    Strings.AfterLastAppend(dir, sep, name);
  }

  /** Removing every `.json` from a path that has one only at its end leaves the rest. */
  lemma JsonSuffixRemoved(stem: string)
    requires !Strings.Contains(stem, ".json")
    ensures Strings.ReplaceAll(stem + ".json", ".json", "") == stem
  {
    var pat, s := ".json", stem + ".json";
    assert Strings.OccursAt(s, pat, |stem|) by { assert s[|stem|..|stem| + 5] == pat; }
    forall i | 0 <= i < |stem|
      ensures !Strings.OccursAt(s, pat, i)
    {
      if i + 5 <= |stem| {
        assert !Strings.OccursAt(stem, pat, i);
        assert s[i..i + 5] == stem[i..i + 5];
      } else {
        assert s[|stem|] == '.';
      }
    }
    Strings.ReplaceAllLeftmost(s, pat, "", |stem|);
    assert s[|stem| + 5..] == [];
    assert s[..|stem|] == stem;
  }

  /** A field of a grant whose path holds neither replaced string is counted under its own path. */
  lemma GrantFieldPath(field: string)
    requires !Strings.Contains(field, "grants.item.") && !Strings.Contains(field, ".item")
    ensures Normalise("grants.item." + field) == field
  {
    var head := "grants.item.";
    var s := head + field;
    assert s[..|head|] == head;
    Strings.ReplaceAllLeftmost(s, head, "", 0);
    assert s[..0] + "" == [] && s[|head|..] == field;
    assert Strings.ReplaceAll(s, head, "") == Strings.ReplaceAll(field, head, "");
    Strings.ReplaceAllAbsent(field, head, "");
    Strings.ReplaceAllAbsent(field, ".item", "");
  }

  /** A string without a dot holds no pattern that has one. */
  lemma NoDotNoOccurrence(s: string, pat: string, j: nat)
    requires j < |pat| && pat[j] == '.' && '.' !in s
    ensures !Strings.Contains(s, pat)
  {
    forall i | 0 <= i <= |s| - |pat|
      ensures !Strings.OccursAt(s, pat, i)
    {
      assert s[i..i + |pat|][j] == s[i + j];
    }
  }

  /** A prefix inside the `grants` array loses its `grants.item.` head. */
  lemma NormaliseGrantField()
    ensures Normalise("grants.item.amountAwarded") == "amountAwarded"
  {
    NoDotNoOccurrence("amountAwarded", "grants.item.", 6);
    NoDotNoOccurrence("amountAwarded", ".item", 0);
    GrantFieldPath("amountAwarded");
  }

  /** A grant-level key `Fields` is counted under `Fields`, the label of the frequency table's seed row. */
  lemma GrantKeyNamedFields()
    ensures Normalise("grants.item.Fields") == "Fields"
  {
    NoDotNoOccurrence("Fields", "grants.item.", 6);
    NoDotNoOccurrence("Fields", ".item", 0);
    GrantFieldPath("Fields");
  }

  /** The replacements do not stop at key boundaries: a key that begins with `item` loses those
      letters together with the dot before it. */
  lemma NormaliseItemKey()
    ensures Normalise("grants.item.x.itemName") == "xName"
  {
    DropGrantsHead();
    DropItemInsideKey();
  }

  lemma DropGrantsHead()
    ensures Strings.ReplaceAll("grants.item.x.itemName", "grants.item.", "") == "x.itemName"
  {
    var s := "grants.item.x.itemName";
    Strings.ReplaceAllLeftmost(s, "grants.item.", "", 0);
    assert s[..0] + "" == [] && s[12..] == "x.itemName";
  }

  lemma DropItemInsideKey()
    ensures Strings.ReplaceAll("x.itemName", ".item", "") == "xName"
  {
    var t := "x.itemName";
    assert t[1..6] == ".item";
    assert t[0..5][0] == 'x';
    Strings.ReplaceAllLeftmost(t, ".item", "", 1);
    assert t[..1] == "x" && t[6..] == "Name";
  }

  /** `keyList`: the normalised prefix of every value event, in stream order. */
  function FieldPaths(events: seq<Event>): seq<string>
    decreases |events|
  {
    if events == [] then []
    else
      var last := |events| - 1;
      FieldPaths(events[..last]) + (if events[last].1.IsValue() then [Normalise(events[last].0)] else [])
  }

  /** The positions of the value events. */
  function ValueEvents(events: seq<Event>): set<nat> {
    set i: nat | i < |events| && events[i].1.IsValue()
  }

  /** `keyFreq`: each path with its number of occurrences. */
  function Tally(keys: seq<string>): (freq: map<string, nat>)
    ensures forall k :: k in freq <==> k in keys
  {
    map k | k in keys :: multiset(keys)[k]
  }

  /** The two loops of the counting step: collect `keyList`, then count it into `keyFreq`. */
  method CountFields(events: seq<Event>) returns (keyFreq: map<string, nat>)
    ensures keyFreq == Tally(FieldPaths(events))
  {
    var keyList := CollectPaths(events);
    keyFreq := CountKeys(keyList);
  }

  /** The first loop: the normalised prefix of each value event, appended in order. */
  method CollectPaths(events: seq<Event>) returns (keyList: seq<string>)
    ensures keyList == FieldPaths(events)
  {
    keyList := [];
    for i := 0 to |events|
      invariant keyList == FieldPaths(events[..i])
    {
      assert events[..i + 1][..i] == events[..i];
      if events[i].1.IsValue() {
        keyList := keyList + [Normalise(events[i].0)];
      }
    }
    assert events[..|events|] == events;
  }

  /** The second loop: a new key starts at one, a known key goes up by one. */
  method CountKeys(keyList: seq<string>) returns (keyFreq: map<string, nat>)
    ensures keyFreq == Tally(keyList)
  {
    keyFreq := map[];
    for i := 0 to |keyList|
      invariant keyFreq == Tally(keyList[..i])
    {
      var key := keyList[i];
      assert keyList[..i + 1] == keyList[..i] + [key];
      TallyAppend(keyList[..i], key);
      keyFreq := keyFreq[key := (if key in keyFreq then keyFreq[key] else 0) + 1];
    }
    assert keyList[..|keyList|] == keyList;
  }

  /** Counting one more key: its count goes up by one, starting from zero, and no other changes. */
  lemma TallyAppend(keys: seq<string>, key: string)
    ensures Tally(keys + [key]) == Tally(keys)[key := (if key in keys then Tally(keys)[key] else 0) + 1]
  {
    var before, after := Tally(keys), Tally(keys + [key]);
    assert multiset(keys + [key]) == multiset(keys) + multiset{key};
    forall k | k in keys
      ensures k in keys + [key]
    {
      var i :| 0 <= i < |keys| && keys[i] == k;
      assert (keys + [key])[i] == k;
    }
    assert (keys + [key])[|keys|] == key;
    forall k | k in keys + [key]
      ensures k in keys || k == key
    {
      var i :| 0 <= i < |keys + [key]| && (keys + [key])[i] == k;
      if i < |keys| {
        assert keys[i] == k;
      }
    }
  }

  /** There is one path per value event. */
  lemma {:induction false} PathPerValueEvent(events: seq<Event>)
    ensures |FieldPaths(events)| == |ValueEvents(events)|
    decreases |events|
  {
    if events != [] {
      var last := |events| - 1;
      PathPerValueEvent(events[..last]);
      var init := ValueEvents(events[..last]);
      assert forall i: nat | i < last :: events[..last][i] == events[i];
      if events[last].1.IsValue() {
        assert ValueEvents(events) == init + {last};
      } else {
        assert ValueEvents(events) == init;
      }
    }
  }

  /** Each path of a value event, and no other, is counted: a path is counted exactly when some
      value event's prefix normalises to it. */
  lemma {:induction false} PathsComeFromValueEvents(events: seq<Event>, k: string)
    ensures k in FieldPaths(events) <==> exists i | 0 <= i < |events| :: events[i].1.IsValue() && Normalise(events[i].0) == k
    decreases |events|
  {
    if events != [] {
      var last := |events| - 1;
      PathsComeFromValueEvents(events[..last], k);
      assert forall i | 0 <= i < last :: events[..last][i] == events[i];
      if exists i | 0 <= i < |events| :: events[i].1.IsValue() && Normalise(events[i].0) == k {
        var i :| 0 <= i < |events| && events[i].1.IsValue() && Normalise(events[i].0) == k;
        if i < last {
          assert events[..last][i] == events[i];
        }
      }
    }
  }

  /** The sum of the counts of a table of counts. */
  ghost function Total(freq: map<string, nat>): nat
    decreases |freq|
  {
    if freq == map[] then 0
    else
      var k :| k in freq;
      freq[k] + Total(freq - {k})
  }

  /** Any entry can be taken out first. */
  lemma {:induction false} TotalRemove(freq: map<string, nat>, k: string)
    requires k in freq
    ensures Total(freq) == freq[k] + Total(freq - {k})
    decreases |freq|
  {
    var j :| j in freq && Total(freq) == freq[j] + Total(freq - {j});
    if j != k {
      var rest := freq - {j};
      assert |rest| < |freq| by { assert rest.Keys < freq.Keys; }
      TotalRemove(rest, k);
      var restK := freq - {k};
      assert |restK| < |freq| by { assert restK.Keys < freq.Keys; }
      TotalRemove(restK, j);
      assert rest - {k} == restK - {j};
    }
  }

  /** The counts add up to the number of paths counted. */
  lemma {:induction false} TallyTotal(keys: seq<string>)
    ensures Total(Tally(keys)) == |keys|
    decreases |keys|
  {
    if keys == [] {
      assert Tally(keys) == map[];
    } else {
      var init, key := keys[..|keys| - 1], keys[|keys| - 1];
      assert keys == init + [key];
      TallyTotal(init);
      TallyLast(init, key);
    }
  }

  /** One more key adds one to the total. */
  lemma TallyLast(keys: seq<string>, key: string)
    ensures Total(Tally(keys + [key])) == Total(Tally(keys)) + 1
  {
    var before, after := Tally(keys), Tally(keys + [key]);
    TallyAppend(keys, key);
    TotalRemove(after, key);
    assert after - {key} == before - {key};
    if key in before {
      TotalRemove(before, key);
    } else {
      assert before - {key} == before;
    }
  }

  /** The counts of a document add up to its number of value events. */
  lemma CountsSumToValueEvents(events: seq<Event>)
    ensures Total(Tally(FieldPaths(events))) == |ValueEvents(events)|
  {
    TallyTotal(FieldPaths(events));
    PathPerValueEvent(events);
  }
}
