/**
 * PHP values and PHP's ordered arrays, as far as the controller and its
 * helpers use them. A PHP array is an ordered sequence of key => value
 * entries whose keys are distinct; the array built-ins the source calls
 * (`array_keys`, `array_intersect_key`, `array_merge`, `unset`, `$a[$k] = $v`)
 * are functions over that sequence.
 */
module PhpArray {

  datatype Option<+T> = None | Some(value: T)

  /** A PHP array key is an integer or a string. */
  datatype Key = IntKey(i: int) | StrKey(s: string)

  /** The PHP values the model handles; floats and objects are not modelled. */
  datatype Value =
    | Null
    | Bool(b: bool)
    | Int(i: int)
    | Str(s: string)
    | Arr(entries: seq<(Key, Value)>)

  /** An ordered PHP array with keys of type K. */
  type Assoc<K, V> = seq<(K, V)>

  /** `array_keys`: the keys in iteration order. */
  function Keys<K, V>(a: Assoc<K, V>): (ks: seq<K>)
    ensures |ks| == |a|
    ensures forall i :: 0 <= i < |a| ==> ks[i] == a[i].0
  {
    if a == [] then [] else [a[0].0] + Keys(a[1..])
  }

  /** The values in iteration order. */
  function Values<K, V>(a: Assoc<K, V>): (vs: seq<V>)
    ensures |vs| == |a|
    ensures forall i :: 0 <= i < |a| ==> vs[i] == a[i].1
  {
    if a == [] then [] else [a[0].1] + Values(a[1..])
  }

  /** Every PHP array has distinct keys. */
  predicate DistinctKeys<K(==), V>(a: Assoc<K, V>)
  {
    forall i, j :: 0 <= i < j < |a| ==> a[i].0 != a[j].0
  }

  /** `$a[$k]` where a missing key reads as None. */
  function Get<K(==), V>(a: Assoc<K, V>, k: K): (r: Option<V>)
    ensures r.None? <==> k !in Keys(a)
    ensures r.Some? ==> (k, r.value) in a
  {
    if a == [] then None
    else if a[0].0 == k then Some(a[0].1)
    else Get(a[1..], k)
  }

  /**
   * `$a[$k] = $v`: an existing key keeps its position and takes the new
   * value; a new key is appended at the end.
   */
  function Assign<K(==), V>(a: Assoc<K, V>, k: K, v: V): Assoc<K, V>
  {
    if a == [] then [(k, v)]
    else if a[0].0 == k then [(k, v)] + a[1..]
    else [a[0]] + Assign(a[1..], k, v)
  }

  /** `unset($a[$k])`: the entry for k goes, the others keep their order. */
  function Unset<K(==), V>(a: Assoc<K, V>, k: K): Assoc<K, V>
  {
    if a == [] then []
    else if a[0].0 == k then Unset(a[1..], k)
    else [a[0]] + Unset(a[1..], k)
  }

  /**
   * `array_intersect_key($a, $b)`: the entries of a, in a's order, whose
   * key is also a key of b; the values are a's.
   */
  function IntersectKey<K(==), V, W>(a: Assoc<K, V>, b: Assoc<K, W>): Assoc<K, V>
  {
    if a == [] then []
    else if a[0].0 in Keys(b) then [a[0]] + IntersectKey(a[1..], b)
    else IntersectKey(a[1..], b)
  }

  /** Distinct keys, one entry at a time. */
  lemma {:induction false} DistinctKeysCons<K, V>(a: Assoc<K, V>)
    requires a != []
    ensures DistinctKeys(a) <==> a[0].0 !in Keys(a[1..]) && DistinctKeys(a[1..])
  {
    if DistinctKeys(a) {
      forall i, j | 0 <= i < j < |a[1..]| ensures a[1..][i].0 != a[1..][j].0 {
        assert a[1..][i] == a[i + 1] && a[1..][j] == a[j + 1];
      }
    }
    if a[0].0 !in Keys(a[1..]) && DistinctKeys(a[1..]) {
      forall i, j | 0 <= i < j < |a| ensures a[i].0 != a[j].0 {
        assert a[j] == a[1..][j - 1];
        if i > 0 { assert a[i] == a[1..][i - 1]; }
        else { assert Keys(a[1..])[j - 1] == a[j].0; }
      }
    }
  }

  /** An assignment makes k read as v and leaves every other key as it was. */
  lemma {:induction false} AssignGet<K, V>(a: Assoc<K, V>, k: K, v: V, k': K)
    ensures Get(Assign(a, k, v), k') == if k' == k then Some(v) else Get(a, k')
  {
    if a != [] && a[0].0 != k {
      AssignGet(a[1..], k, v, k');
    }
  }

  /** An assignment to a present key keeps the key order; to a new key it appends. */
  lemma {:induction false} AssignOrder<K, V>(a: Assoc<K, V>, k: K, v: V)
    ensures k in Keys(a) ==> Keys(Assign(a, k, v)) == Keys(a)
    ensures k !in Keys(a) ==> Assign(a, k, v) == a + [(k, v)]
  {
    if a != [] {
      assert Keys(a) == [a[0].0] + Keys(a[1..]);
      var r := Assign(a, k, v);
      if a[0].0 != k {
        AssignOrder(a[1..], k, v);
        assert r[1..] == Assign(a[1..], k, v);
        if k in Keys(a) {
          assert Keys(r) == [a[0].0] + Keys(r[1..]);
        } else {
          assert a == [a[0]] + a[1..];
        }
      } else {
        assert Keys(r) == [k] + Keys(a[1..]);
      }
    }
  }

  /** An assignment keeps the keys distinct. */
  lemma {:induction false} AssignDistinct<K, V>(a: Assoc<K, V>, k: K, v: V)
    requires DistinctKeys(a)
    ensures DistinctKeys(Assign(a, k, v))
  {
    if a != [] {
      DistinctKeysCons(a);
      var r := Assign(a, k, v);
      if a[0].0 != k {
        AssignDistinct(a[1..], k, v);
        AssignOrder(a[1..], k, v);
        assert r[1..] == Assign(a[1..], k, v);
        if k !in Keys(a[1..]) {
          assert Keys(r[1..]) == Keys(a[1..]) + [k];
        }
        DistinctKeysCons(r);
      } else {
        assert r[1..] == a[1..];
        DistinctKeysCons(r);
      }
    }
  }

  /** Both facts about an assignment, as one lemma for callers. */
  lemma AssignKeys<K, V>(a: Assoc<K, V>, k: K, v: V)
    ensures k in Keys(a) ==> Keys(Assign(a, k, v)) == Keys(a)
    ensures k !in Keys(a) ==> Assign(a, k, v) == a + [(k, v)]
    ensures DistinctKeys(a) ==> DistinctKeys(Assign(a, k, v))
  {
    AssignOrder(a, k, v);
    if DistinctKeys(a) {
      AssignDistinct(a, k, v);
    }
  }

  /** Appending an entry for a new key: the earlier keys read as before, the new one as its value. */
  lemma {:induction false} GetAppend<K, V>(a: Assoc<K, V>, k': K, v: V, k: K)
    ensures Get(a + [(k', v)], k) == if k in Keys(a) then Get(a, k) else if k == k' then Some(v) else None
  {
    if a != [] {
      assert (a + [(k', v)])[1..] == a[1..] + [(k', v)];
      assert Keys(a) == [a[0].0] + Keys(a[1..]);
      GetAppend(a[1..], k', v, k);
    }
  }

  /** Unsetting k removes exactly the key k and keeps the remaining entries. */
  lemma {:induction false} UnsetKeys<K, V>(a: Assoc<K, V>, k: K)
    ensures k !in Keys(Unset(a, k))
    ensures forall k' :: k' != k ==> (k' in Keys(Unset(a, k)) <==> k' in Keys(a))
    ensures forall e :: e in Unset(a, k) ==> e in a
    ensures k !in Keys(a) ==> Unset(a, k) == a
    ensures DistinctKeys(a) ==> DistinctKeys(Unset(a, k))
  {
    if a != [] {
      UnsetKeys(a[1..], k);
      assert Keys(a) == [a[0].0] + Keys(a[1..]);
      var r := Unset(a, k);
      if a[0].0 != k {
        assert r[1..] == Unset(a[1..], k);
        assert Keys(r) == [a[0].0] + Keys(r[1..]);
        if k !in Keys(a) {
          assert a == [a[0]] + a[1..];
        }
        if DistinctKeys(a) {
          DistinctKeysCons(a);
          DistinctKeysCons(r);
        }
      } else if DistinctKeys(a) {
        DistinctKeysCons(a);
      }
    }
  }

  /** `array_intersect_key` keeps exactly the keys both arrays have, with a's values. */
  lemma {:induction false} IntersectKeyKeys<K, V, W>(a: Assoc<K, V>, b: Assoc<K, W>)
    ensures forall k :: k in Keys(IntersectKey(a, b)) <==> k in Keys(a) && k in Keys(b)
    ensures forall e :: e in IntersectKey(a, b) ==> e in a
    ensures DistinctKeys(a) ==> DistinctKeys(IntersectKey(a, b))
  {
    if a != [] {
      IntersectKeyKeys(a[1..], b);
      assert Keys(a) == [a[0].0] + Keys(a[1..]);
      var r := IntersectKey(a, b);
      if a[0].0 in Keys(b) {
        assert r[1..] == IntersectKey(a[1..], b);
        assert Keys(r) == [a[0].0] + Keys(r[1..]);
        if DistinctKeys(a) {
          DistinctKeysCons(a);
          DistinctKeysCons(r);
        }
      } else if DistinctKeys(a) {
        DistinctKeysCons(a);
      }
    }
  }

  /** An entry of a whose key b has survives `array_intersect_key`. */
  lemma {:induction false} IntersectKeyKeeps<K, V, W>(a: Assoc<K, V>, b: Assoc<K, W>, i: int)
    requires 0 <= i < |a| && a[i].0 in Keys(b)
    ensures a[i] in IntersectKey(a, b)
  {
    if i > 0 {
      assert a[i] == a[1..][i - 1];
      IntersectKeyKeeps(a[1..], b, i - 1);
    }
  }

  /** The number of integer-keyed entries. */
  function CountIntKeys<V>(a: Assoc<Key, V>): nat
  {
    if a == [] then 0 else (if a[0].0.IntKey? then 1 else 0) + CountIntKeys(a[1..])
  }

  /**
   * The step of `array_merge` that adds the entries of b to acc: an integer
   * key is renumbered to the next free index and appended, a string key
   * overwrites (or appends) like an assignment.
   */
  function MergeInto<V>(acc: Assoc<Key, V>, b: Assoc<Key, V>): Assoc<Key, V>
    decreases |b|
  {
    if b == [] then acc
    else
      var next := if b[0].0.IntKey? then acc + [(IntKey(CountIntKeys(acc)), b[0].1)]
                  else Assign(acc, b[0].0, b[0].1);
      MergeInto(next, b[1..])
  }

  /** `array_merge($a, $b)`. */
  function ArrayMerge<V>(a: Assoc<Key, V>, b: Assoc<Key, V>): Assoc<Key, V>
  {
    MergeInto(MergeInto([], a), b)
  }

  /** PHP's conversion of a value to a boolean (`if ($v)`, `! $v`). */
  predicate Truthy(v: Value)
  {
    match v
    case Null => false
    case Bool(b) => b
    case Int(i) => i != 0
    case Str(s) => s != "" && s != "0"
    case Arr(entries) => entries != []
  }

  /** The cast `(array)$v`: null gives an empty array, a scalar a one-entry list. */
  function ToArray(v: Value): (r: Assoc<Key, Value>)
    ensures v.Arr? ==> r == v.entries
    ensures v.Null? ==> r == []
  {
    match v
    case Null => []
    case Arr(entries) => entries
    case _ => [(IntKey(0), v)]
  }

  /** A list (`array(0 => .., 1 => ..)`) holding the given values. */
  function ListValue(vs: seq<Value>): (r: Value)
    ensures r.Arr? && |r.entries| == |vs|
    ensures forall i :: 0 <= i < |vs| ==> r.entries[i] == (IntKey(i), vs[i])
  {
    Arr(seq(|vs|, i requires 0 <= i < |vs| => (IntKey(i), vs[i])))
  }

  /** A string-keyed PHP array as a value. */
  function ArrayValue(a: Assoc<string, Value>): (r: Value)
    ensures r.Arr? && |r.entries| == |a|
    ensures forall i :: 0 <= i < |a| ==> r.entries[i] == (StrKey(a[i].0), a[i].1)
  {
    Arr(seq(|a|, i requires 0 <= i < |a| => (StrKey(a[i].0), a[i].1)))
  }
}
