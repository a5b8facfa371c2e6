/**
 * `Util_Arr::prefix_array_key`: a fresh array in which every key of the
 * input carries a prefix. The controller uses it with the prefix ":" to turn
 * a field map into the placeholder-keyed parameters of a statement.
 */
module Arr {
  import opened PhpArray

  /** Entry i of the input, with its key prefixed. */
  function Prefixed<V>(prefix: string, input: Assoc<string, V>): Assoc<string, V>
  {
    seq(|input|, i requires 0 <= i < |input| => (prefix + input[i].0, input[i].1))
  }

  /** With a fixed prefix, different keys stay different. */
  lemma PrefixInjective(prefix: string, k: string, k': string)
    requires prefix + k == prefix + k'
    ensures k == k'
  {
    assert k == (prefix + k)[|prefix|..];
    assert k' == (prefix + k')[|prefix|..];
  }

  /**
   * `prefix_array_key`: fills a fresh array one entry at a time, in the
   * input's iteration order; the input (a PHP value) is not changed.
   */
  method PrefixArrayKey<V>(prefix: string, input: Assoc<string, V>) returns (keyPrefixedArray: Assoc<string, V>)
    requires DistinctKeys(input)
    ensures keyPrefixedArray == Prefixed(prefix, input)
  {
    keyPrefixedArray := [];
    for i := 0 to |input|
      invariant keyPrefixedArray == Prefixed(prefix, input[..i])
    {
      var (key, value) := input[i];
      // no earlier entry has this prefixed key, so the assignment appends
      forall j | 0 <= j < i ensures Keys(keyPrefixedArray)[j] != prefix + key {
        if prefix + input[j].0 == prefix + key {
          PrefixInjective(prefix, input[j].0, key);
        }
      }
      AssignKeys(keyPrefixedArray, prefix + key, value);
      keyPrefixedArray := Assign(keyPrefixedArray, prefix + key, value);
      assert keyPrefixedArray == Prefixed(prefix, input[..i + 1]);
    }
    assert input[..|input|] == input;
  }

  /**
   * The keys of the result are the input's keys with the prefix, in the same
   * order; a key is in the input exactly when its prefixed form is in the
   * result; an empty input gives an empty result.
   */
  lemma PrefixedKeys<V>(prefix: string, input: Assoc<string, V>)
    ensures |Prefixed(prefix, input)| == |input|
    ensures forall i :: 0 <= i < |input| ==> Keys(Prefixed(prefix, input))[i] == prefix + Keys(input)[i]
    ensures forall k :: k in Keys(input) <==> prefix + k in Keys(Prefixed(prefix, input))
    ensures input == [] <==> Prefixed(prefix, input) == []
  {
    var r := Prefixed(prefix, input);
    forall k | prefix + k in Keys(r) ensures k in Keys(input) {
      var i :| 0 <= i < |r| && Keys(r)[i] == prefix + k;
      PrefixInjective(prefix, input[i].0, k);
    }
    forall k | k in Keys(input) ensures prefix + k in Keys(r) {
      var i :| 0 <= i < |input| && Keys(input)[i] == k;
      assert Keys(r)[i] == prefix + k;
    }
  }

  /** Prefixing is injective, so distinct input keys stay distinct and the size is kept. */
  lemma PrefixedDistinct<V>(prefix: string, input: Assoc<string, V>)
    requires DistinctKeys(input)
    ensures DistinctKeys(Prefixed(prefix, input))
  {
    var r := Prefixed(prefix, input);
    forall i, j | 0 <= i < j < |r| ensures r[i].0 != r[j].0 {
      if r[i].0 == r[j].0 {
        PrefixInjective(prefix, input[i].0, input[j].0);
      }
    }
  }

  /** Values are unchanged: `result[prefix . k] == input[k]` for every key k. */
  lemma {:induction false} PrefixedGet<V>(prefix: string, input: Assoc<string, V>, k: string)
    ensures Get(Prefixed(prefix, input), prefix + k) == Get(input, k)
  {
    if input != [] {
      var r := Prefixed(prefix, input);
      assert r[1..] == Prefixed(prefix, input[1..]);
      PrefixedGet(prefix, input[1..], k);
      if r[0].0 == prefix + k {
        PrefixInjective(prefix, input[0].0, k);
      }
    }
  }
}
