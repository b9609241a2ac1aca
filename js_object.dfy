/**
 * The plain JavaScript objects the CSV reader builds: string values
 * assigned to keys one after another, read back by key or listed by
 * `Object.values`. Section 10.1.11.1 of ECMA-262 (OrdinaryOwnPropertyKeys)
 * fixes the listing order: first the keys that are array indices, in
 * ascending numeric order, then the other keys in the order they were
 * created.
 */
module JsObjects {
  import opened Wrappers
  import opened JsNumber

  /** An object with string values: its keys in the order they were created, and the value of each. */
  datatype Object = Object(keys: seq<string>, props: map<string, string>)

  /** The object literal `{}`. */
  const Empty: Object := Object([], map[])

  /** Every key is listed once, and exactly the keys that hold a value are listed. */
  predicate WellFormed(o: Object) {
    && (forall i, j :: 0 <= i < j < |o.keys| ==> o.keys[i] != o.keys[j])
    && (forall key :: key in o.props ==> key in o.keys)
    && (forall key :: key in o.keys ==> key in o.props)
  }

  /** `o[key] = value`: a new key is created last; an existing key keeps its place and takes the new value. */
  function Assign(o: Object, key: string, value: string): (r: Object)
    ensures WellFormed(o) ==> WellFormed(r)
  {
    if key in o.props then Object(o.keys, o.props[key := value])
    else Object(o.keys + [key], o.props[key := value])
  }

  /** `o[key]`: None where JavaScript gives `undefined`. */
  function Get(o: Object, key: string): Option<string> {
    if key in o.props then Some(o.props[key]) else None
  }

  /** Reading a key gives the value last assigned to it; every other key reads as before. */
  lemma AssignGet(o: Object, key: string, value: string, other: string)
    ensures Get(Assign(o, key, value), key) == Some(value)
    ensures other != key ==> Get(Assign(o, key, value), other) == Get(o, other)
    ensures key in o.props ==> Assign(o, key, value).keys == o.keys
    ensures key !in o.props ==> Assign(o, key, value).keys == o.keys + [key]
  {
  }

  // ---- the order of `Object.values` ----

  /** The largest array index plus one: 2^32 - 1. */
  const ArrayIndexBound: nat := 0xFFFF_FFFF

  /** An array index: the canonical decimal text (no leading zero) of an integer below 2^32 - 1. */
  predicate IsArrayIndex(key: string) {
    && |key| > 0 && AllDigits(key) && (key[0] == '0' ==> |key| == 1)
    && DigitsValue(key) < ArrayIndexBound
  }

  /** The number an array-index key stands for. */
  function IndexValue(key: string): nat {
    if AllDigits(key) then DigitsValue(key) else 0
  }

  /** The keys that are array indices, in their order. */
  function IndexKeys(keys: seq<string>): seq<string>
    decreases |keys|
  {
    if keys == [] then []
    else (if IsArrayIndex(keys[0]) then [keys[0]] else []) + IndexKeys(keys[1..])
  }

  /** The keys that are not array indices, in their order. */
  function NamedKeys(keys: seq<string>): seq<string>
    decreases |keys|
  {
    if keys == [] then []
    else (if IsArrayIndex(keys[0]) then [] else [keys[0]]) + NamedKeys(keys[1..])
  }

  predicate Ascending(keys: seq<string>) {
    forall i, j :: 0 <= i < j < |keys| ==> IndexValue(keys[i]) <= IndexValue(keys[j])
  }

  /** `key` placed into ascending `sorted` before the first key that is not smaller. */
  function InsertIndex(key: string, sorted: seq<string>): (r: seq<string>)
    ensures |r| == |sorted| + 1
    decreases |sorted|
  {
    if sorted == [] || IndexValue(key) <= IndexValue(sorted[0]) then [key] + sorted
    else [sorted[0]] + InsertIndex(key, sorted[1..])
  }

  /** The keys in ascending numeric order. */
  function SortIndices(keys: seq<string>): (r: seq<string>)
    ensures |r| == |keys|
    decreases |keys|
  {
    if keys == [] then [] else InsertIndex(keys[0], SortIndices(keys[1..]))
  }

  /** The keys of an object in the order `Object.values` lists them. */
  function OwnKeys(keys: seq<string>): seq<string> {
    SortIndices(IndexKeys(keys)) + NamedKeys(keys)
  }

  /** The values held under `keys`, in that order. */
  function CellsOf(props: map<string, string>, keys: seq<string>): (cells: seq<string>)
    requires forall key :: key in keys ==> key in props
    ensures |cells| == |keys|
    ensures forall i :: 0 <= i < |keys| ==> cells[i] == props[keys[i]]
    decreases |keys|
  {
    if keys == [] then [] else [props[keys[0]]] + CellsOf(props, keys[1..])
  }

  /** `Object.values(o)`. */
  function Values(o: Object): seq<string>
    requires WellFormed(o)
  {
    OwnKeysSpec(o.keys);
    assert forall key :: key in OwnKeys(o.keys) ==> key in multiset(o.keys);
    CellsOf(o.props, OwnKeys(o.keys))
  }

  // ---- what the order is ----

  /** Inserting adds the key and nothing else. */
  lemma {:induction false} InsertIndexKeeps(key: string, sorted: seq<string>)
    ensures multiset(InsertIndex(key, sorted)) == multiset(sorted) + multiset{key}
    decreases |sorted|
  {
    if sorted == [] || IndexValue(key) <= IndexValue(sorted[0]) {
      assert multiset([key] + sorted) == multiset{key} + multiset(sorted);
    } else {
      var rest := InsertIndex(key, sorted[1..]);
      InsertIndexKeeps(key, sorted[1..]);
      assert sorted == [sorted[0]] + sorted[1..];
      assert multiset([sorted[0]] + rest) == multiset{sorted[0]} + multiset(rest);
    }
  }

  /** Inserting into ascending keys keeps them ascending. */
  lemma {:induction false} InsertIndexAscending(key: string, sorted: seq<string>)
    requires Ascending(sorted)
    ensures Ascending(InsertIndex(key, sorted))
    decreases |sorted|
  {
    if sorted == [] || IndexValue(key) <= IndexValue(sorted[0]) {
      forall x | x in sorted ensures IndexValue(key) <= IndexValue(x) {
        var j :| 0 <= j < |sorted| && sorted[j] == x;
      }
      AscendingCons(key, sorted);
    } else {
      var rest := InsertIndex(key, sorted[1..]);
      AscendingTail(sorted);
      InsertIndexAscending(key, sorted[1..]);
      InsertIndexKeeps(key, sorted[1..]);
      forall x | x in rest ensures IndexValue(sorted[0]) <= IndexValue(x) {
        assert x in multiset(rest);
        if x != key {
          assert x in multiset(sorted[1..]);
          var j :| 0 <= j < |sorted[1..]| && sorted[1..][j] == x;
          assert sorted[j + 1] == x;
        }
      }
      AscendingCons(sorted[0], rest);
    }
  }

  lemma AscendingTail(s: seq<string>)
    requires Ascending(s) && s != []
    ensures Ascending(s[1..])
  {
    forall i, j | 0 <= i < j < |s| - 1 ensures IndexValue(s[1..][i]) <= IndexValue(s[1..][j]) {
      assert s[1..][i] == s[i + 1] && s[1..][j] == s[j + 1];
    }
  }

  /** A key no larger than any of an ascending list's keys can go in front of it. */
  lemma AscendingCons(first: string, rest: seq<string>)
    requires Ascending(rest)
    requires forall x :: x in rest ==> IndexValue(first) <= IndexValue(x)
    ensures Ascending([first] + rest)
  {
    var s := [first] + rest;
    forall i, j | 0 <= i < j < |s| ensures IndexValue(s[i]) <= IndexValue(s[j]) {
      assert s[j] == rest[j - 1];
      if i > 0 {
        assert s[i] == rest[i - 1];
      }
    }
  }

  /** Sorting keeps the keys and puts them in ascending order. */
  lemma {:induction false} SortIndicesSpec(keys: seq<string>)
    ensures multiset(SortIndices(keys)) == multiset(keys)
    ensures Ascending(SortIndices(keys))
    decreases |keys|
  {
    if keys != [] {
      SortIndicesSpec(keys[1..]);
      InsertIndexKeeps(keys[0], SortIndices(keys[1..]));
      InsertIndexAscending(keys[0], SortIndices(keys[1..]));
      assert keys == [keys[0]] + keys[1..];
    }
  }

  /** The two filters split the keys between them. */
  lemma {:induction false} KeyFiltersSplit(keys: seq<string>)
    ensures multiset(IndexKeys(keys)) + multiset(NamedKeys(keys)) == multiset(keys)
    decreases |keys|
  {
    if keys != [] {
      KeyFiltersSplit(keys[1..]);
      assert keys == [keys[0]] + keys[1..];
    }
  }

  /** Array indices go to the first filter, all other keys to the second. */
  lemma {:induction false} KeyFiltersSort(keys: seq<string>)
    ensures forall key :: key in IndexKeys(keys) ==> IsArrayIndex(key)
    ensures forall key :: key in NamedKeys(keys) ==> !IsArrayIndex(key)
    decreases |keys|
  {
    if keys != [] {
      KeyFiltersSort(keys[1..]);
    }
  }

  /** Keys none of which is an array index all go to the second filter, in their order. */
  lemma {:induction false} NoIndexKeys(keys: seq<string>)
    requires forall i :: 0 <= i < |keys| ==> !IsArrayIndex(keys[i])
    ensures IndexKeys(keys) == [] && NamedKeys(keys) == keys
    decreases |keys|
  {
    if keys != [] {
      assert forall i :: 0 <= i < |keys[1..]| ==> !IsArrayIndex(keys[1..][i]) by {
        forall i | 0 <= i < |keys[1..]| ensures !IsArrayIndex(keys[1..][i]) {
          assert keys[1..][i] == keys[i + 1];
        }
      }
      NoIndexKeys(keys[1..]);
      assert keys == [keys[0]] + keys[1..];
    }
  }

  /**
   * `Object.values` visits every key once: the array indices first, in
   * ascending numeric order, then every other key in creation order; with
   * no array index among the keys that is creation order throughout.
   */
  lemma OwnKeysSpec(keys: seq<string>)
    ensures multiset(OwnKeys(keys)) == multiset(keys)
    ensures forall i :: 0 <= i < |OwnKeys(keys)| ==> (IsArrayIndex(OwnKeys(keys)[i]) <==> i < |IndexKeys(keys)|)
    ensures forall i, j :: 0 <= i < j < |IndexKeys(keys)| ==> IndexValue(OwnKeys(keys)[i]) <= IndexValue(OwnKeys(keys)[j])
    ensures OwnKeys(keys)[|IndexKeys(keys)|..] == NamedKeys(keys)
    ensures (forall i :: 0 <= i < |keys| ==> !IsArrayIndex(keys[i])) ==> OwnKeys(keys) == keys
  {
    var sorted := SortIndices(IndexKeys(keys));
    var own := OwnKeys(keys);
    SortIndicesSpec(IndexKeys(keys));
    KeyFiltersSplit(keys);
    KeyFiltersSort(keys);
    assert |sorted| == |IndexKeys(keys)| by {
      assert |multiset(sorted)| == |multiset(IndexKeys(keys))|;
    }
    forall i | 0 <= i < |own| ensures IsArrayIndex(own[i]) <==> i < |sorted| {
      if i < |sorted| {
        assert own[i] == sorted[i] && sorted[i] in multiset(IndexKeys(keys));
      } else {
        assert own[i] == NamedKeys(keys)[i - |sorted|];
      }
    }
    forall i, j | 0 <= i < j < |sorted| ensures IndexValue(own[i]) <= IndexValue(own[j]) {
      assert own[i] == sorted[i] && own[j] == sorted[j];
    }
    assert own[|sorted|..] == NamedKeys(keys);
    if forall i :: 0 <= i < |keys| ==> !IsArrayIndex(keys[i]) {
      NoIndexKeys(keys);
      assert SortIndices([]) == [];
    }
  }

  /**
   * `Object.values(o)` holds one value per key: at each position, the value
   * of the key `OwnKeys` puts there.
   */
  lemma ValuesSpec(o: Object)
    requires WellFormed(o)
    ensures |Values(o)| == |o.keys|
    ensures forall i :: 0 <= i < |o.keys| ==> OwnKeys(o.keys)[i] in o.props && Values(o)[i] == o.props[OwnKeys(o.keys)[i]]
  {
    OwnKeysSpec(o.keys);
    var own := OwnKeys(o.keys);
    assert |own| == |o.keys| by {
      assert |multiset(own)| == |multiset(o.keys)|;
    }
    forall i | 0 <= i < |own| ensures own[i] in o.props {
      assert own[i] in multiset(o.keys);
    }
  }

  /** With no array index among the keys, `Object.values` lists the values in creation order. */
  lemma ValuesCreationOrder(o: Object)
    requires WellFormed(o)
    requires forall i :: 0 <= i < |o.keys| ==> !IsArrayIndex(o.keys[i])
    ensures |Values(o)| == |o.keys|
    ensures forall i :: 0 <= i < |o.keys| ==> Values(o)[i] == o.props[o.keys[i]]
  {
    ValuesSpec(o);
    OwnKeysSpec(o.keys);
  }
}
