/**
 * The two key orders the manifest passes through: the default comparison of `Array.prototype.sort`
 * on strings, and the order in which a plain JavaScript object lists its own string keys
 * (array-index keys first, in ascending numeric order, then the other keys in insertion order).
 */
module KeyOrder {
  import opened Strings

  /** No key occurs twice. */
  predicate Distinct(s: seq<string>)
  {
    forall i, j :: 0 <= i < j < |s| ==> s[i] != s[j]
  }

  /** `a < b` between strings: character by character, a proper prefix before its extensions. */
  predicate Lt(a: string, b: string)
    decreases |a|
  {
    |b| > 0 && (|a| == 0 || a[0] < b[0] || (a[0] == b[0] && Lt(a[1..], b[1..])))
  }

  lemma {:induction false} LtIrreflexive(a: string)
    ensures !Lt(a, a)
    decreases |a|
  {
    if |a| > 0 {
      LtIrreflexive(a[1..]);
    }
  }

  lemma {:induction false} LtTransitive(a: string, b: string, c: string)
    requires Lt(a, b) && Lt(b, c)
    ensures Lt(a, c)
    decreases |a|
  {
    if |a| > 0 && a[0] == b[0] && b[0] == c[0] {
      LtTransitive(a[1..], b[1..], c[1..]);
    }
  }

  /** Any two different strings are ordered one way or the other. */
  lemma {:induction false} LtTotal(a: string, b: string)
    ensures a == b || Lt(a, b) || Lt(b, a)
    decreases |a|
  {
    if |a| > 0 && |b| > 0 && a[0] == b[0] {
      LtTotal(a[1..], b[1..]);
      if a[1..] == b[1..] {
        assert a == [a[0]] + a[1..] && b == [b[0]] + b[1..];
      }
    }
  }

  /** The largest array index, 2^32 - 2. */
  const MaxArrayIndex: nat := 4294967294

  /** A key that is an array index: a canonical decimal numeral (no sign, no leading zero) up to 2^32 - 2. */
  predicate IsArrayIndex(k: string)
  {
    && |k| > 0
    && (forall i :: 0 <= i < |k| ==> IsDigit(k[i]))
    && (k[0] == '0' ==> |k| == 1)
    && RadixValue(k, 10) <= MaxArrayIndex
  }

  /** The two comparisons keys are sorted by. */
  datatype Order = Lexicographic | Numeric

  /** `a` strictly before `b`: as strings, or by decimal value. */
  predicate Before(o: Order, a: string, b: string)
  {
    match o
    case Lexicographic => Lt(a, b)
    case Numeric => RadixValue(a, 10) < RadixValue(b, 10)
  }

  lemma BeforeAsymmetric(o: Order, a: string, b: string)
    requires Before(o, a, b)
    ensures !Before(o, b, a)
  {
    if o == Lexicographic && Lt(b, a) {
      LtTransitive(a, b, a);
      LtIrreflexive(a);
    }
  }

  /** "Not before" is transitive: it is the non-strict order of a total order. */
  lemma NotBeforeTransitive(o: Order, a: string, b: string, c: string)
    requires !Before(o, a, b) && !Before(o, b, c)
    ensures !Before(o, a, c)
  {
    if o == Lexicographic {
      LtTotal(a, b);
      LtTotal(b, c);
      if Lt(a, c) {
        if Lt(c, b) {
          LtTransitive(a, c, b);
        } else if Lt(b, a) {
          LtTransitive(b, a, c);
        } else {
          LtIrreflexive(a);
        }
      }
    }
  }

  /** No element comes strictly before an earlier one. */
  predicate SortedBy(o: Order, s: seq<string>)
  {
    forall i, j :: 0 <= i < j < |s| ==> !Before(o, s[j], s[i])
  }

  /** `x` placed after every element of the sorted `s` that is before it. */
  function Insert(o: Order, x: string, s: seq<string>): (r: seq<string>)
    requires SortedBy(o, s)
    ensures SortedBy(o, r)
    ensures |r| == |s| + 1
    ensures multiset(r) == multiset(s) + multiset{x}
  {
    if s == [] then [x]
    else if !Before(o, s[0], x) then
      forall j | 0 <= j < |s|
        ensures !Before(o, s[j], x)
      {
        if j > 0 {
          NotBeforeTransitive(o, s[j], s[0], x);
        }
      }
      [x] + s
    else
      var t := Insert(o, x, s[1..]);
      assert s == [s[0]] + s[1..];
      forall j | 0 <= j < |t|
        ensures !Before(o, t[j], s[0])
      {
        assert t[j] in multiset(t);
        if t[j] == x {
          BeforeAsymmetric(o, s[0], x);
        } else {
          assert t[j] in s[1..];
        }
      }
      [s[0]] + t
  }

  /** `keys.sort()` (for `Lexicographic`): an insertion sort, sorted and a permutation of its input. */
  function SortBy(o: Order, s: seq<string>): (r: seq<string>)
    ensures SortedBy(o, r)
    ensures |r| == |s|
    ensures multiset(r) == multiset(s)
  {
    if s == [] then []
    else
      assert s == [s[0]] + s[1..];
      Insert(o, s[0], SortBy(o, s[1..]))
  }

  /** The keys that are array indices (`index`) or that are not, in their order. */
  function KeysWhere(keys: seq<string>, index: bool): (r: seq<string>)
    ensures |r| <= |keys|
  {
    if keys == [] then []
    else (if IsArrayIndex(keys[0]) == index then [keys[0]] else []) + KeysWhere(keys[1..], index)
  }

  /** The kept keys are exactly the keys of the kind. */
  lemma {:induction false} KeysWhereMembers(keys: seq<string>, index: bool)
    ensures forall k :: k in KeysWhere(keys, index) <==> k in keys && IsArrayIndex(k) == index
  {
    if keys != [] {
      KeysWhereMembers(keys[1..], index);
      KeysWhereCons(keys, index);
      assert keys == [keys[0]] + keys[1..];
    }
  }

  /** Keeping the keys of one kind lists none of them twice when the keys are distinct. */
  lemma {:induction false} KeysWhereDistinct(keys: seq<string>, index: bool)
    requires Distinct(keys)
    ensures Distinct(KeysWhere(keys, index))
  {
    if keys != [] {
      var t := keys[1..];
      assert Distinct(t) by {
        forall i, j | 0 <= i < j < |t| ensures t[i] != t[j] {
          assert t[i] == keys[i + 1] && t[j] == keys[j + 1];
        }
      }
      KeysWhereDistinct(t, index);
      KeysWhereMembers(t, index);
      KeysWhereCons(keys, index);
      assert keys[0] !in t by {
        forall j | 0 <= j < |t| ensures t[j] != keys[0] {
          assert t[j] == keys[j + 1];
        }
      }
    }
  }

  /** One step of `KeysWhere`: the first key, if it is of the kind, then the kept rest. */
  lemma KeysWhereCons(keys: seq<string>, index: bool)
    requires keys != []
    ensures KeysWhere(keys, index) == (if IsArrayIndex(keys[0]) == index then [keys[0]] else []) + KeysWhere(keys[1..], index)
  {
  }

  /** Taking the keys of one kind keeps their relative order: it works key by key. */
  lemma {:induction false} KeysWhereAppend(a: seq<string>, b: seq<string>, index: bool)
    ensures KeysWhere(a + b, index) == KeysWhere(a, index) + KeysWhere(b, index)
  {
    if a == [] {
      assert a + b == b;
    } else {
      var t, ab := a[1..], a + b;
      assert ab[0] == a[0] && ab[1..] == t + b;
      KeysWhereCons(ab, index);
      KeysWhereCons(a, index);
      KeysWhereAppend(t, b, index);
      ConcatAssoc(if IsArrayIndex(a[0]) == index then [a[0]] else [], KeysWhere(t, index), KeysWhere(b, index));
    }
  }

  /** Splitting keys by kind loses and adds nothing. */
  lemma {:induction false} KeysWhereSplits(keys: seq<string>)
    ensures multiset(KeysWhere(keys, true)) + multiset(KeysWhere(keys, false)) == multiset(keys)
    ensures |KeysWhere(keys, true)| + |KeysWhere(keys, false)| == |keys|
  {
    if keys != [] {
      var h, t := keys[0], keys[1..];
      assert keys == [h] + t;
      KeysWhereSplits(t);
      KeysWhereAppend([h], t, true);
      KeysWhereAppend([h], t, false);
      OneKeySplits(h);
    }
  }

  /** A single key is of exactly one kind. */
  lemma OneKeySplits(h: string)
    ensures multiset(KeysWhere([h], true)) + multiset(KeysWhere([h], false)) == multiset([h])
    ensures |KeysWhere([h], true)| + |KeysWhere([h], false)| == 1
  {
    KeysWhereSingle(h, true);
    KeysWhereSingle(h, false);
  }

  /** Taking the keys of one kind keeps a sorted list sorted. */
  lemma {:induction false} KeysWhereSorted(o: Order, keys: seq<string>, index: bool)
    requires SortedBy(o, keys)
    ensures SortedBy(o, KeysWhere(keys, index))
  {
    if keys != [] {
      assert keys == [keys[0]] + keys[1..];
      KeysWhereSorted(o, keys[1..], index);
      var t := KeysWhere(keys[1..], index);
      KeysWhereMembers(keys[1..], index);
      forall j | 0 <= j < |t|
        ensures !Before(o, t[j], keys[0])
      {
        assert t[j] in keys[1..];
      }
    }
  }

  /** A key occurring at two positions occurs twice in the multiset. */
  lemma {:induction false} RepeatCounts(s: seq<string>, i: int, j: int)
    requires 0 <= i < j < |s| && s[i] == s[j]
    ensures multiset(s)[s[i]] >= 2
  {
    assert s == s[..j] + [s[j]] + s[j + 1..];
    assert s[i] in s[..j];
  }

  /** Without repeats every key occurs at most once in the multiset. */
  lemma {:induction false} DistinctCounts(s: seq<string>, x: string)
    requires Distinct(s)
    ensures multiset(s)[x] <= 1
  {
    if s != [] {
      assert s == [s[0]] + s[1..];
      DistinctCounts(s[1..], x);
      if x == s[0] {
        assert x !in s[1..];
      }
    }
  }

  /** A permutation of a list without repeats has none either. */
  lemma DistinctPermutation(a: seq<string>, b: seq<string>)
    requires Distinct(a) && multiset(a) == multiset(b)
    ensures Distinct(b)
  {
    forall i, j | 0 <= i < j < |b|
      ensures b[i] != b[j]
    {
      if b[i] == b[j] {
        RepeatCounts(b, i, j);
        DistinctCounts(a, b[i]);
      }
    }
  }

  /**
   * The own-key order of a plain object whose keys were created in the order `keys`: the array
   * indices in ascending numeric order, then every other key in creation order.
   */
  function JsOwnKeys(keys: seq<string>): (r: seq<string>)
    ensures |r| == |keys|
    ensures multiset(r) == multiset(keys)
  {
    KeysWhereSplits(keys);
    SortBy(Numeric, KeysWhere(keys, true)) + KeysWhere(keys, false)
  }

  /** In own-key order every array index comes before every other key, and the indices ascend. */
  lemma JsOwnKeysOrder(keys: seq<string>)
    ensures var r := JsOwnKeys(keys);
            && (forall i, j :: 0 <= i < j < |r| && IsArrayIndex(r[j]) ==> IsArrayIndex(r[i]))
            && (forall i, j :: 0 <= i < j < |r| && IsArrayIndex(r[i]) && IsArrayIndex(r[j]) ==>
                  RadixValue(r[i], 10) <= RadixValue(r[j], 10))
  {
    KeysWhereMembers(keys, true);
    KeysWhereMembers(keys, false);
    IndicesFirst(SortBy(Numeric, KeysWhere(keys, true)), KeysWhere(keys, false));
  }

  /** Sorted array indices followed by other keys put every index first, ascending. */
  lemma IndicesFirst(indices: seq<string>, others: seq<string>)
    requires SortedBy(Numeric, indices)
    requires forall k :: k in multiset(indices) ==> IsArrayIndex(k)
    requires forall k :: k in others ==> !IsArrayIndex(k)
    ensures var r := indices + others;
            && (forall i, j :: 0 <= i < j < |r| && IsArrayIndex(r[j]) ==> IsArrayIndex(r[i]))
            && (forall i, j :: 0 <= i < j < |r| && IsArrayIndex(r[i]) && IsArrayIndex(r[j]) ==>
                  RadixValue(r[i], 10) <= RadixValue(r[j], 10))
  {
    var r := indices + others;
    forall k | 0 <= k < |r|
      ensures IsArrayIndex(r[k]) <==> k < |indices|
    {
      if k < |indices| {
        assert r[k] == indices[k] && indices[k] in multiset(indices);
      } else {
        assert r[k] == others[k - |indices|];
      }
    }
  }

  /** Distinct keys stay distinct in own-key order. */
  lemma JsOwnKeysDistinct(keys: seq<string>)
    requires Distinct(keys)
    ensures Distinct(JsOwnKeys(keys))
  {
    DistinctPermutation(keys, JsOwnKeys(keys));
  }

  /**
   * Creating a key that is not an array index puts it last in own-key order, after every key
   * created before it: the other keys are listed in creation order.
   */
  lemma JsOwnKeysAppendOther(keys: seq<string>, k: string)
    requires !IsArrayIndex(k)
    ensures JsOwnKeys(keys + [k]) == JsOwnKeys(keys) + [k]
  {
    var indices, others := KeysWhere(keys, true), KeysWhere(keys, false);
    KeysWhereAppendOther(keys, k);
    JsOwnKeysParts(keys);
    JsOwnKeysParts(keys + [k]);
    ConcatAssoc(SortBy(Numeric, indices), others, [k]);
  }

  /** Own-key order is the sorted array indices followed by the other keys. */
  lemma JsOwnKeysParts(keys: seq<string>)
    ensures JsOwnKeys(keys) == SortBy(Numeric, KeysWhere(keys, true)) + KeysWhere(keys, false)
  {
  }

  /** Creating a key that is not an array index adds it to the other keys only. */
  lemma KeysWhereAppendOther(keys: seq<string>, k: string)
    requires !IsArrayIndex(k)
    ensures KeysWhere(keys + [k], true) == KeysWhere(keys, true)
    ensures KeysWhere(keys + [k], false) == KeysWhere(keys, false) + [k]
  {
    KeysWhereAppend(keys, [k], true);
    KeysWhereAppend(keys, [k], false);
    KeysWhereSingle(k, true);
    KeysWhereSingle(k, false);
    assert KeysWhere(keys, true) + [] == KeysWhere(keys, true);
  }

  lemma KeysWhereSingle(k: string, index: bool)
    ensures KeysWhere([k], index) == if IsArrayIndex(k) == index then [k] else []
  {
    assert [k][1..] == [];
  }

  lemma ConcatAssoc(a: seq<string>, b: seq<string>, c: seq<string>)
    ensures a + (b + c) == a + b + c
  {
  }

  /** When the keys were created in sorted string order, the keys that are not array indices are listed in sorted string order. */
  lemma OthersKeepOrder(keys: seq<string>)
    requires SortedBy(Lexicographic, keys)
    ensures var r := JsOwnKeys(keys);
            forall i, j :: 0 <= i < j < |r| && !IsArrayIndex(r[i]) ==> !Lt(r[j], r[i])
  {
    KeysWhereSorted(Lexicographic, keys, false);
    KeysWhereMembers(keys, true);
    OthersAfterIndices(SortBy(Numeric, KeysWhere(keys, true)), KeysWhere(keys, false));
  }

  /** Array indices followed by sorted other keys: from the first other key on, the list is sorted. */
  lemma OthersAfterIndices(indices: seq<string>, others: seq<string>)
    requires forall k :: k in multiset(indices) ==> IsArrayIndex(k)
    requires SortedBy(Lexicographic, others)
    ensures var r := indices + others;
            forall i, j :: 0 <= i < j < |r| && !IsArrayIndex(r[i]) ==> !Lt(r[j], r[i])
  {
    var r := indices + others;
    forall k | 0 <= k < |indices|
      ensures IsArrayIndex(r[k])
    {
      assert r[k] == indices[k] && indices[k] in multiset(indices);
    }
    forall i, j | 0 <= i < j < |r| && !IsArrayIndex(r[i])
      ensures !Lt(r[j], r[i])
    {
      assert r[i] == others[i - |indices|] && r[j] == others[j - |indices|];
    }
  }

  /** Without array-index keys, the own-key order is the creation order. */
  lemma NoIndexKeysKeepOrder(keys: seq<string>)
    requires forall i :: 0 <= i < |keys| ==> !IsArrayIndex(keys[i])
    ensures JsOwnKeys(keys) == keys
  {
    KeysWhereAll(keys);
  }

  lemma {:induction false} KeysWhereAll(keys: seq<string>)
    requires forall i :: 0 <= i < |keys| ==> !IsArrayIndex(keys[i])
    ensures KeysWhere(keys, false) == keys && KeysWhere(keys, true) == []
  {
    if keys != [] {
      assert keys == [keys[0]] + keys[1..];
      KeysWhereAll(keys[1..]);
    }
  }

  /** A single key is its own own-key order, whatever its kind. */
  lemma JsOwnKeysSingle(k: string)
    ensures JsOwnKeys([k]) == [k]
  {
    assert [k][1..] == [];
    assert KeysWhere([], true) == [] && KeysWhere([], false) == [];
    if IsArrayIndex(k) {
      assert KeysWhere([k], true) == [k] && KeysWhere([k], false) == [];
      assert SortBy(Numeric, [k]) == Insert(Numeric, k, []) == [k];
    } else {
      assert KeysWhere([k], true) == [] && KeysWhere([k], false) == [k];
    }
  }
}
