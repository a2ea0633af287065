/**
  tracker/python/utils.py: the camelCase conversion of the keys of an exported JSON value
  (`convert_keys_to_camel_case`, `_snake_to_camel`) and the `default=` hook that serialises
  datetimes (`serialize_datetime`). A dict is its list of entries in insertion order; a
  datetime carries its ISO text (`isoformat` is not modelled).
*/
module KeyCase {
  import opened Wrappers
  import opened Strings

  datatype Value =
    | Null
    | Bool(b: bool)
    | Int(i: int)
    | Str(s: string)
    | DateTime(iso: string)
    | List(items: seq<Value>)
    | Dict(entries: seq<(string, Value)>)

  /** `str.capitalize()` for ASCII: the first letter upper case, the rest lower case. */
  function Capitalize(w: string): (r: string)
    ensures |r| == |w|
    ensures '_' !in w ==> '_' !in r
  {
    if w == [] then [] else [UpperChar(w[0])] + Lower(w[1..])
  }

  /** The capitalised words, concatenated. */
  function CapitalizedWords(words: seq<string>): (r: string)
    ensures (forall k :: 0 <= k < |words| ==> '_' !in words[k]) ==> '_' !in r
    decreases |words|
  {
    if words == [] then [] else Capitalize(words[0]) + CapitalizedWords(words[1..])
  }

  /** `_snake_to_camel`: the first `_`-separated word as it is, every later word capitalised. */
  function SnakeToCamel(key: string): string {
    var words := Split(key, '_');
    words[0] + CapitalizedWords(words[1..])
  }

  /** The converted key keeps the first word verbatim and holds no underscore. */
  lemma SnakeToCamelShape(key: string)
    ensures StartsWith(SnakeToCamel(key), Split(key, '_')[0])
    ensures '_' !in SnakeToCamel(key)
  {
    var words := Split(key, '_');
    assert forall k :: 0 <= k < |words[1..]| ==> words[1..][k] == words[k + 1];
    assert SnakeToCamel(key)[..|words[0]|] == words[0];
  }

  /** A key without an underscore is unchanged. */
  lemma SnakeToCamelPlain(key: string)
    requires '_' !in key
    ensures SnakeToCamel(key) == key
  {
    SplitFree(key, '_');
  }

  /** Python's `d[k] = v`: an existing key keeps its place and takes the new value; a new key goes last. */
  function Put(entries: seq<(string, Value)>, k: string, v: Value): (r: seq<(string, Value)>)
    decreases |entries|
  {
    if entries == [] then [(k, v)]
    else if entries[0].0 == k then [(k, v)] + entries[1..]
    else [entries[0]] + Put(entries[1..], k, v)
  }

  /** The dict built by a comprehension from `pairs`, one assignment at a time. */
  function Collect(pairs: seq<(string, Value)>): seq<(string, Value)>
    decreases |pairs|
  {
    if pairs == [] then [] else Put(Collect(pairs[..|pairs| - 1]), pairs[|pairs| - 1].0, pairs[|pairs| - 1].1)
  }

  /** The keys of a dict. */
  function KeysOf(entries: seq<(string, Value)>): set<string>
    decreases |entries|
  {
    if entries == [] then {} else {entries[0].0} + KeysOf(entries[1..])
  }

  /** No key is repeated. */
  predicate DistinctKeys(entries: seq<(string, Value)>)
    decreases |entries|
  {
    entries == [] || (entries[0].0 !in KeysOf(entries[1..]) && DistinctKeys(entries[1..]))
  }

  lemma {:induction false} KeysOfIndex(entries: seq<(string, Value)>, x: string)
    ensures x in KeysOf(entries) <==> exists i :: 0 <= i < |entries| && entries[i].0 == x
    decreases |entries|
  {
    if entries != [] {
      var rest := entries[1..];
      KeysOfIndex(rest, x);
      if exists i :: 0 <= i < |entries| && entries[i].0 == x {
        var i :| 0 <= i < |entries| && entries[i].0 == x;
        if i > 0 {
          assert rest[i - 1].0 == x;
        }
      }
      if exists i :: 0 <= i < |rest| && rest[i].0 == x {
        var i :| 0 <= i < |rest| && rest[i].0 == x;
        assert entries[i + 1].0 == x;
      }
    }
  }

  lemma {:induction false} KeysOfSnoc(entries: seq<(string, Value)>, e: (string, Value))
    ensures KeysOf(entries + [e]) == KeysOf(entries) + {e.0}
    decreases |entries|
  {
    if entries != [] {
      assert (entries + [e])[1..] == entries[1..] + [e];
      KeysOfSnoc(entries[1..], e);
    } else {
      assert ([e])[1..] == [];
    }
  }

  /** Distinct keys, by index: no two positions share a key. */
  lemma {:induction false} DistinctKeysIndex(entries: seq<(string, Value)>, i: nat, j: nat)
    requires DistinctKeys(entries) && i < j < |entries|
    ensures entries[i].0 != entries[j].0
    decreases i
  {
    var rest := entries[1..];
    if i == 0 {
      KeysOfIndex(rest, entries[j].0);
      assert rest[j - 1] == entries[j];
    } else {
      DistinctKeysIndex(rest, i - 1, j - 1);
    }
  }

  /** The value a dict holds for `k`. */
  function Find(entries: seq<(string, Value)>, k: string): Option<Value>
    decreases |entries|
  {
    if entries == [] then None else if entries[0].0 == k then Some(entries[0].1) else Find(entries[1..], k)
  }

  /** The value of the last pair with key `k`: the one a dict comprehension keeps. */
  function LastValue(pairs: seq<(string, Value)>, k: string): Option<Value>
    decreases |pairs|
  {
    if pairs == [] then None
    else if pairs[|pairs| - 1].0 == k then Some(pairs[|pairs| - 1].1)
    else LastValue(pairs[..|pairs| - 1], k)
  }

  lemma {:induction false} PutKeys(entries: seq<(string, Value)>, k: string, v: Value)
    ensures KeysOf(Put(entries, k, v)) == KeysOf(entries) + {k}
    decreases |entries|
  {
    if entries != [] && entries[0].0 != k {
      PutKeys(entries[1..], k, v);
    }
  }

  lemma {:induction false} PutDistinct(entries: seq<(string, Value)>, k: string, v: Value)
    requires DistinctKeys(entries)
    ensures DistinctKeys(Put(entries, k, v))
    decreases |entries|
  {
    if entries != [] {
      if entries[0].0 == k {
        assert Put(entries, k, v)[1..] == entries[1..];
      } else {
        PutDistinct(entries[1..], k, v);
        PutKeys(entries[1..], k, v);
        assert Put(entries, k, v)[1..] == Put(entries[1..], k, v);
      }
    } else {
      assert Put(entries, k, v)[1..] == [];
    }
  }

  lemma {:induction false} PutFind(entries: seq<(string, Value)>, k: string, v: Value, x: string)
    ensures Find(Put(entries, k, v), x) == if x == k then Some(v) else Find(entries, x)
    decreases |entries|
  {
    if entries != [] && entries[0].0 != k {
      PutFind(entries[1..], k, v, x);
      assert Put(entries, k, v)[1..] == Put(entries[1..], k, v);
    } else if entries != [] {
      assert Put(entries, k, v)[1..] == entries[1..];
    }
  }

  lemma {:induction false} PutAbsent(entries: seq<(string, Value)>, k: string, v: Value)
    requires k !in KeysOf(entries)
    ensures Put(entries, k, v) == entries + [(k, v)]
    decreases |entries|
  {
    if entries != [] {
      PutAbsent(entries[1..], k, v);
      assert [entries[0]] + (entries[1..] + [(k, v)]) == entries + [(k, v)];
    }
  }

  /**
    The dict a comprehension builds has distinct keys, exactly the keys of `pairs`, and for
    each key the value of the last pair with that key.
  */
  lemma {:induction false} CollectFacts(pairs: seq<(string, Value)>)
    ensures DistinctKeys(Collect(pairs))
    ensures KeysOf(Collect(pairs)) == KeysOf(pairs)
    ensures forall x :: Find(Collect(pairs), x) == LastValue(pairs, x)
    decreases |pairs|
  {
    if pairs != [] {
      var init := pairs[..|pairs| - 1];
      var last := pairs[|pairs| - 1];
      CollectFacts(init);
      PutKeys(Collect(init), last.0, last.1);
      PutDistinct(Collect(init), last.0, last.1);
      forall x ensures Find(Collect(pairs), x) == LastValue(pairs, x) {
        PutFind(Collect(init), last.0, last.1, x);
      }
      KeysOfSnoc(init, last);
      assert init + [last] == pairs;
    }
  }

  /** Without repeated keys, the comprehension keeps every pair, in order. */
  lemma {:induction false} CollectDistinct(pairs: seq<(string, Value)>)
    requires DistinctKeys(pairs)
    ensures Collect(pairs) == pairs
    decreases |pairs|
  {
    if pairs != [] {
      var init := pairs[..|pairs| - 1];
      var last := pairs[|pairs| - 1];
      DistinctInit(pairs);
      CollectDistinct(init);
      forall i | 0 <= i < |init| ensures init[i].0 != last.0 {
        DistinctKeysIndex(pairs, i, |pairs| - 1);
      }
      KeysOfIndex(init, last.0);
      PutAbsent(init, last.0, last.1);
      assert init + [last] == pairs;
    }
  }

  lemma {:induction false} DistinctInit(pairs: seq<(string, Value)>)
    requires DistinctKeys(pairs) && pairs != []
    ensures DistinctKeys(pairs[..|pairs| - 1])
    decreases |pairs|
  {
    var init := pairs[..|pairs| - 1];
    if |pairs| > 1 {
      DistinctInit(pairs[1..]);
      assert pairs[1..][..|pairs| - 2] == init[1..];
      KeysOfSnoc(init[1..], pairs[|pairs| - 1]);
      assert init[1..] + [pairs[|pairs| - 1]] == pairs[1..];
    }
  }

  /** The entries with their keys converted and their values converted in turn. */
  function ConvertPairs(entries: seq<(string, Value)>, parent: Value): seq<(string, Value)>
    requires parent.Dict? && entries == parent.entries
    decreases parent, 0
  {
    seq(|entries|, k requires 0 <= k < |entries| => (SnakeToCamel(entries[k].0), Convert(entries[k].1)))
  }

  /** `convert_keys_to_camel_case`. */
  function Convert(v: Value): Value
    decreases v, 1
  {
    match v
    case Dict(entries) => Dict(Collect(ConvertPairs(entries, v)))
    case List(items) => List(seq(|items|, k requires 0 <= k < |items| => Convert(items[k])))
    case _ => v
  }

  /** Every key at every depth is camelCase (no `_`), and no dict repeats a key. */
  predicate CamelKeyed(v: Value)
    decreases v
  {
    match v
    case Dict(entries) =>
      && DistinctKeys(entries)
      && (forall k :: 0 <= k < |entries| ==> '_' !in entries[k].0)
      && (forall k :: 0 <= k < |entries| ==> CamelKeyed(entries[k].1))
    case List(items) => forall k :: 0 <= k < |items| ==> CamelKeyed(items[k])
    case _ => true
  }

  /**
    Lists keep their length and order and values that are neither dicts nor lists are kept;
    a dict whose converted keys do not collide keeps its entries in order.
  */
  lemma ConvertShape(v: Value)
    ensures v.List? ==> (Convert(v).List? && |Convert(v).items| == |v.items|
      && forall k :: 0 <= k < |v.items| ==> Convert(v).items[k] == Convert(v.items[k]))
    ensures !v.List? && !v.Dict? ==> Convert(v) == v
    ensures v.Dict? && DistinctKeys(ConvertPairs(v.entries, v)) ==>
      (Convert(v).Dict? && |Convert(v).entries| == |v.entries|
      && forall k :: 0 <= k < |v.entries| ==> Convert(v).entries[k] == (SnakeToCamel(v.entries[k].0), Convert(v.entries[k].1)))
  {
    if v.Dict? && DistinctKeys(ConvertPairs(v.entries, v)) {
      CollectDistinct(ConvertPairs(v.entries, v));
    }
  }

  /** The converted value is camel-keyed at every depth. */
  lemma {:induction false} ConvertIsCamelKeyed(v: Value)
    ensures CamelKeyed(Convert(v))
    decreases v
  {
    match v
    case Dict(entries) =>
      var pairs := ConvertPairs(entries, v);
      var r := Collect(pairs);
      CollectFacts(pairs);
      forall k | 0 <= k < |r| ensures '_' !in r[k].0 && CamelKeyed(r[k].1) {
        KeysOfIndex(r, r[k].0);
        KeysOfIndex(pairs, r[k].0);
        var i :| 0 <= i < |pairs| && pairs[i].0 == r[k].0;
        SnakeToCamelShape(entries[i].0);
        FindAt(r, k);
        LastValueFrom(pairs, r[k].0);
        var j :| 0 <= j < |pairs| && pairs[j].0 == r[k].0 && LastValue(pairs, r[k].0) == Some(pairs[j].1);
        ConvertIsCamelKeyed(entries[j].1);
      }
    case List(items) =>
      forall k | 0 <= k < |items| ensures CamelKeyed(Convert(v).items[k]) {
        ConvertIsCamelKeyed(items[k]);
      }
    case _ =>
  }

  /** In a dict with distinct keys, the value found for the key at `k` is the one at `k`. */
  lemma {:induction false} FindAt(entries: seq<(string, Value)>, k: nat)
    requires DistinctKeys(entries) && k < |entries|
    ensures Find(entries, entries[k].0) == Some(entries[k].1)
    decreases k
  {
    if k > 0 {
      var rest := entries[1..];
      FindAt(rest, k - 1);
      KeysOfIndex(rest, entries[k].0);
      assert rest[k - 1] == entries[k];
    }
  }

  /** A last value comes from some pair with that key. */
  lemma {:induction false} LastValueFrom(pairs: seq<(string, Value)>, x: string)
    ensures LastValue(pairs, x).Some? ==>
      exists j :: 0 <= j < |pairs| && pairs[j].0 == x && LastValue(pairs, x) == Some(pairs[j].1)
    decreases |pairs|
  {
    if pairs != [] && pairs[|pairs| - 1].0 != x {
      var init := pairs[..|pairs| - 1];
      LastValueFrom(init, x);
      if LastValue(init, x).Some? {
        var j :| 0 <= j < |init| && init[j].0 == x && LastValue(init, x) == Some(init[j].1);
        assert pairs[j] == init[j];
      }
    }
  }

  /** A camel-keyed value is left as it is. */
  lemma {:induction false} CamelKeyedFixed(v: Value)
    requires CamelKeyed(v)
    ensures Convert(v) == v
    decreases v
  {
    match v
    case Dict(entries) =>
      var pairs := ConvertPairs(entries, v);
      forall k | 0 <= k < |entries| ensures pairs[k] == entries[k] {
        SnakeToCamelPlain(entries[k].0);
        CamelKeyedFixed(entries[k].1);
      }
      assert pairs == entries;
      CollectDistinct(pairs);
    case List(items) =>
      forall k | 0 <= k < |items| ensures Convert(items[k]) == items[k] {
        CamelKeyedFixed(items[k]);
      }
      assert Convert(v).items == items;
    case _ =>
  }

  /** Converting twice is converting once. */
  lemma ConvertIdempotent(v: Value)
    ensures Convert(Convert(v)) == Convert(v)
  {
    ConvertIsCamelKeyed(v);
    CamelKeyedFixed(Convert(v));
  }

  /** `TypeError`, with the message of `serialize_datetime`. */
  datatype TypeError = TypeError(message: string)

  function TypeName(v: Value): string {
    match v
    case Null => "NoneType"
    case Bool(_) => "bool"
    case Int(_) => "int"
    case Str(_) => "str"
    case DateTime(_) => "datetime.datetime"
    case List(_) => "list"
    case Dict(_) => "dict"
  }

  /** `serialize_datetime`: the ISO text of a datetime; any other value raises `TypeError`. */
  function SerializeDatetime(v: Value): (r: Result<string, TypeError>)
    ensures r.Success? <==> v.DateTime?
    ensures r.Success? ==> r.value == v.iso
  {
    if v.DateTime? then Success(v.iso)
    else Failure(TypeError("Object of type <class '" + TypeName(v) + "'> is not JSON serializable"))
  }
}
