/**
 * Name deduplication (`findDuplicates` called with the key "name"): a left fold over the icon
 * records that appends a fixed suffix to every record whose name is already carried by a record
 * accumulated so far. The accumulated records are the ones already produced, renamed or not.
 */
module NameDeduplicator {
  import opened Wrappers
  import opened Figma

  const Suffix: string := "-duplicate-name"

  /** Some record among the first `i` of `acc` carries the name `n`. */
  predicate TakenBefore(acc: seq<Icon>, i: int, n: string)
    requires i <= |acc|
  {
    exists j :: 0 <= j < i && acc[j].name == n
  }

  /** One step of the fold: the incoming record, renamed when its name is already taken in `acc`. */
  function Step(acc: seq<Icon>, current: Icon): Icon
  {
    if TakenBefore(acc, |acc|, current.name) then current.(name := current.name + Suffix) else current
  }

  /** The fold itself: the records in order, each one passed through `Step` against the records before it. */
  function Dedup(xs: seq<Icon>): (r: seq<Icon>)
    ensures |r| == |xs|
    decreases |xs|
  {
    if xs == [] then []
    else
      var acc := Dedup(xs[..|xs| - 1]);
      acc + [Step(acc, xs[|xs| - 1])]
  }

  /** The fold never revisits what it has produced: deduplicating a prefix gives a prefix of the result. */
  lemma {:induction false} DedupPrefix(xs: seq<Icon>, k: nat)
    requires k <= |xs|
    ensures Dedup(xs)[..k] == Dedup(xs[..k])
    decreases |xs|
  {
    if k < |xs| {
      var ys := xs[..|xs| - 1];
      assert ys[..k] == xs[..k];
      DedupPrefix(ys, k);
      assert Dedup(xs)[..|xs| - 1] == Dedup(ys);
    } else {
      assert xs[..k] == xs;
    }
  }

  /**
   * The shape of the result: same length, same ids and images, same order; element i is renamed
   * exactly when an earlier OUTPUT element already carries element i's incoming name.
   */
  lemma {:induction false} DedupShape(xs: seq<Icon>)
    ensures |Dedup(xs)| == |xs|
    ensures forall i :: 0 <= i < |xs| ==>
      && Dedup(xs)[i].id == xs[i].id
      && Dedup(xs)[i].image == xs[i].image
      && Dedup(xs)[i].name ==
        (if TakenBefore(Dedup(xs), i, xs[i].name) then xs[i].name + Suffix else xs[i].name)
  {
    var r := Dedup(xs);
    forall i | 0 <= i < |xs|
      ensures r[i].id == xs[i].id && r[i].image == xs[i].image
      ensures r[i].name == (if TakenBefore(r, i, xs[i].name) then xs[i].name + Suffix else xs[i].name)
    {
      DedupPrefix(xs, i + 1);
      var p := xs[..i + 1];
      assert p[..|p| - 1] == xs[..i];
      DedupPrefix(xs, i);
      assert Dedup(p) == Dedup(xs[..i]) + [Step(Dedup(xs[..i]), xs[i])];
      assert r[i] == Dedup(p)[i];
      assert r[..i] == Dedup(xs[..i]);
      assert TakenBefore(r, i, xs[i].name) <==> TakenBefore(r[..i], i, xs[i].name) by {
        if TakenBefore(r, i, xs[i].name) {
          var j :| 0 <= j < i && r[j].name == xs[i].name;
          assert r[..i][j] == r[j];
        }
        if TakenBefore(r[..i], i, xs[i].name) {
          var j :| 0 <= j < i && r[..i][j].name == xs[i].name;
          assert r[..i][j] == r[j];
        }
      }
    }
  }

  /** Every output name is the incoming name, with or without the suffix. */
  lemma RenamedOrKept(xs: seq<Icon>, i: int)
    requires 0 <= i < |xs|
    ensures Dedup(xs)[i].name == xs[i].name || Dedup(xs)[i].name == xs[i].name + Suffix
    ensures Dedup(xs)[i].name == xs[i].name + Suffix <==> TakenBefore(Dedup(xs), i, xs[i].name)
  {
    DedupShape(xs);
    assert |Suffix| > 0;
    assert xs[i].name + Suffix != xs[i].name by {
      assert |xs[i].name + Suffix| != |xs[i].name|;
    }
  }

  /** A record whose name repeats an earlier incoming name is always renamed. */
  lemma {:induction false} RepeatIsRenamed(xs: seq<Icon>, j: int, i: int)
    requires 0 <= j < i < |xs|
    requires xs[j].name == xs[i].name
    ensures Dedup(xs)[i].name == xs[i].name + Suffix
  {
    var r := Dedup(xs);
    RenamedOrKept(xs, j);
    RenamedOrKept(xs, i);
    if r[j].name == xs[j].name {
      assert TakenBefore(r, i, xs[i].name);
    } else {
      var k :| 0 <= k < j && r[k].name == xs[j].name;
      assert TakenBefore(r, i, xs[i].name);
    }
  }

  /**
   * The renaming rule in terms of the incoming names only: record i is renamed exactly when an
   * earlier record had the same incoming name, or an earlier record was itself renamed into it.
   */
  lemma {:induction false} RenamedIff(xs: seq<Icon>, i: int)
    requires 0 <= i < |xs|
    ensures Dedup(xs)[i].name != xs[i].name <==>
      exists j :: 0 <= j < i &&
        (xs[j].name == xs[i].name ||
         (xs[j].name + Suffix == xs[i].name && Dedup(xs)[j].name != xs[j].name))
  {
    var r := Dedup(xs);
    RenamedOrKept(xs, i);
    if r[i].name != xs[i].name {
      var j :| 0 <= j < i && r[j].name == xs[i].name;
      RenamedOrKept(xs, j);
      assert xs[j].name == xs[i].name || (xs[j].name + Suffix == xs[i].name && r[j].name != xs[j].name);
    }
    if exists j :: 0 <= j < i &&
        (xs[j].name == xs[i].name || (xs[j].name + Suffix == xs[i].name && r[j].name != xs[j].name)) {
      var j :| 0 <= j < i &&
        (xs[j].name == xs[i].name || (xs[j].name + Suffix == xs[i].name && r[j].name != xs[j].name));
      RenamedOrKept(xs, j);
      if xs[j].name == xs[i].name {
        RepeatIsRenamed(xs, j, i);
      } else {
        assert TakenBefore(r, i, xs[i].name);
      }
    }
  }

  /** No incoming name is an earlier incoming name plus the suffix. */
  predicate NoSuffixClash(xs: seq<Icon>)
  {
    forall j, i :: 0 <= j < i < |xs| ==> xs[j].name + Suffix != xs[i].name
  }

  /**
   * When no name is another plus the suffix, exactly the repeats are renamed: for a name shared by
   * k records, the first keeps its name and the k-1 others get the suffix.
   */
  lemma {:induction false} ExactlyRepeatsRenamed(xs: seq<Icon>, i: int)
    requires 0 <= i < |xs|
    requires NoSuffixClash(xs)
    ensures Dedup(xs)[i] != xs[i] <==> exists j :: 0 <= j < i && xs[j].name == xs[i].name
    ensures Dedup(xs)[i].name != xs[i].name <==> exists j :: 0 <= j < i && xs[j].name == xs[i].name
  {
    DedupShape(xs);
    RenamedIff(xs, i);
  }

  /** The first record carrying a name that nobody before it carried, or was renamed into, is kept. */
  lemma {:induction false} FirstOccurrenceKept(xs: seq<Icon>, i: int)
    requires 0 <= i < |xs|
    requires forall j :: 0 <= j < i ==> xs[j].name != xs[i].name && xs[j].name + Suffix != xs[i].name
    ensures Dedup(xs)[i] == xs[i]
  {
    DedupShape(xs);
    RenamedIff(xs, i);
  }

  /** Three records named "a": the second and third both become "a-duplicate-name", so names are not unique afterwards. */
  lemma ThreeEqualNamesClash(a: Icon, b: Icon, c: Icon)
    requires a.name == b.name == c.name
    ensures Dedup([a, b, c])[1].name == Dedup([a, b, c])[2].name == a.name + Suffix
  {
    RepeatIsRenamed([a, b, c], 0, 1);
    RepeatIsRenamed([a, b, c], 0, 2);
  }

  /** `acc.find(item => item.name === name)`: the first record carrying `name`, if any. */
  method FindByName(acc: seq<Icon>, name: string) returns (x: Option<Icon>)
    ensures x.Some? <==> TakenBefore(acc, |acc|, name)
    ensures x.Some? ==> exists j :: 0 <= j < |acc| && x.value == acc[j] && x.value.name == name &&
                                    forall k :: 0 <= k < j ==> acc[k].name != name
  {
    var i := 0;
    while i < |acc|
      invariant 0 <= i <= |acc|
      invariant forall k :: 0 <= k < i ==> acc[k].name != name
    {
      if acc[i].name == name {
        return Some(acc[i]);
      }
      i := i + 1;
    }
    return None;
  }

  /** `findDuplicates("name", arr)`: the reduce that builds the deduplicated list. */
  method FindDuplicates(arr: seq<Icon>) returns (acc: seq<Icon>)
    ensures acc == Dedup(arr)
  {
    acc := [];
    for i := 0 to |arr|
      invariant acc == Dedup(arr[..i])
    {
      var current := arr[i];
      var x := FindByName(acc, current.name);
      if x.Some? {
        current := current.(name := current.name + Suffix);
      }
      assert arr[..i + 1][..i] == arr[..i];
      acc := acc + [current];
    }
    assert arr[..|arr|] == arr;
  }
}
