/**
 * The `icons.json` manifest of `writeResults`: the downloaded file names of exactly three
 * '/'-segments grouped as group -> style -> icon texts, the groups in sorted key order. JavaScript
 * objects are modelled with their key creation order, which fixes the order `JSON.stringify` emits.
 */
module ManifestBuilder {
  import opened Wrappers
  import opened Strings
  import opened KeyOrder

  /** A plain object with string keys: the keys in creation order and the value under each. */
  datatype JsObject<V> = JsObject(keys: seq<string>, values: map<string, V>)

  predicate WellFormed<V>(o: JsObject<V>)
  {
    && Distinct(o.keys)
    && (forall k :: k in o.values ==> k in o.keys)
    && (forall k :: k in o.keys ==> k in o.values)
  }

  /** `o[k] = v`: a new key goes to the end of the creation order, an existing key keeps its place. */
  function Set<V>(o: JsObject<V>, k: string, v: V): (r: JsObject<V>)
    requires WellFormed(o)
    ensures WellFormed(r)
    ensures r.values == o.values[k := v]
    ensures k in o.values ==> r.keys == o.keys
    ensures k !in o.values ==> r.keys == o.keys + [k]
  {
    if k in o.values then JsObject(o.keys, o.values[k := v])
    else JsObject(o.keys + [k], o.values[k := v])
  }

  /** style -> icon texts */
  type Styles = JsObject<seq<string>>

  /** group -> style -> icon texts */
  type Results = JsObject<Styles>

  predicate ValidResults(results: Results)
  {
    WellFormed(results) && forall g :: g in results.values ==> WellFormed(results.values[g])
  }

  /** What `JSON.stringify` writes for one style, and for one group. */
  datatype Style = Style(name: string, icons: seq<string>)
  datatype Group = Group(name: string, styles: seq<Style>)

  /** The characters the regular-expression `.` does not match. */
  predicate IsLineTerminator(c: char)
  {
    c == '\n' || c == '\r' || c == '\U{2028}' || c == '\U{2029}'
  }

  /**
   * `s.replace(/.svg/g, "")` as written: scanning from the left, every character other than a line
   * terminator that is followed by "svg" is deleted together with that "svg".
   */
  function StripSvgAsWritten(s: string): (r: string)
    ensures |r| <= |s|
    decreases |s|
  {
    if |s| >= 4 && !IsLineTerminator(s[0]) && s[1..4] == "svg" then StripSvgAsWritten(s[4..])
    else if s == [] then []
    else [s[0]] + StripSvgAsWritten(s[1..])
  }

  predicate HasSvgExtension(s: string)
  {
    |s| >= 4 && s[|s| - 4..] == ".svg"
  }

  /** The evidently intended rewrite: the ".svg" extension the download step appended is dropped. */
  function StripExtension(s: string): (r: string)
    ensures HasSvgExtension(s) ==> s == r + ".svg"
    ensures !HasSvgExtension(s) ==> r == s
  {
    if HasSvgExtension(s) then s[..|s| - 4] else s
  }

  /**
   * The regular expression as written eats more than the extension: a character followed by "svg"
   * before the extension is deleted with it, so the segment "esvg.svg" yields the empty text
   * instead of "esvg".
   */
  lemma StripSvgAsWrittenMangles(c: char)
    requires !IsLineTerminator(c)
    ensures StripSvgAsWritten([c] + "svg" + ".svg") == []
    ensures StripExtension([c] + "svg" + ".svg") == [c] + "svg"
  {
    var s := [c] + "svg" + ".svg";
    assert s[1..4] == "svg" && s[4..] == ".svg";
    assert s[4..][1..4] == "svg" && s[4..][4..] == [];
  }

  /** "svg" occurs nowhere in `n` after its first character. */
  predicate NoInnerSvg(n: string)
  {
    forall k :: 1 <= k < |n| ==> !OccursAt(n, "svg", k)
  }

  /** Where no match starts at the first character, the scan keeps that character. */
  lemma StripSvgKeepsFirst(s: string)
    requires s != [] && !(|s| >= 4 && !IsLineTerminator(s[0]) && s[1..4] == "svg")
    ensures StripSvgAsWritten(s) == [s[0]] + StripSvgAsWritten(s[1..])
  {
  }

  /** The extension alone is one match. */
  lemma StripSvgOfExtension()
    ensures StripSvgAsWritten(".svg") == []
  {
    var s := ".svg";
    assert s[1..4] == "svg" && s[4..] == [];
  }

  /** Dropping the extension of "n.svg" gives `n`. */
  lemma ExtensionDropped(n: string)
    ensures StripExtension(n + ".svg") == n
  {
    var s := n + ".svg";
    assert s[|s| - 4..] == ".svg" && s[..|s| - 4] == n;
  }

  /** Without an inner "svg", no match starts at the first character of "n.svg". */
  lemma NoMatchAtFirst(n: string)
    requires n != [] && NoInnerSvg(n)
    ensures (n + ".svg")[1..4] != "svg"
  {
    var s := n + ".svg";
    if |n| >= 4 {
      assert s[1..4] == n[1..4];
      assert !OccursAt(n, "svg", 1);
    } else {
      assert s[|n|] == '.';
      assert s[1..4][|n| - 1] == '.';
    }
  }

  /** Without an inner "svg" in `n`, there is none in its tail either. */
  lemma NoInnerSvgTail(n: string)
    requires n != [] && NoInnerSvg(n)
    ensures NoInnerSvg(n[1..])
  {
    var t := n[1..];
    forall k | 1 <= k < |t|
      ensures !OccursAt(t, "svg", k)
    {
      if k + 3 <= |t| {
        assert !OccursAt(n, "svg", k + 1);
        assert t[k..k + 3] == n[k + 1..k + 4];
      }
    }
  }

  /** Where no "svg" follows the first character of a name, the expression as written removes just the extension. */
  lemma {:induction false} StripSvgAgrees(n: string)
    requires NoInnerSvg(n)
    ensures StripSvgAsWritten(n + ".svg") == n == StripExtension(n + ".svg")
    decreases |n|
  {
    ExtensionDropped(n);
    if n == [] {
      assert n + ".svg" == ".svg";
      StripSvgOfExtension();
    } else {
      var s := n + ".svg";
      NoMatchAtFirst(n);
      StripSvgKeepsFirst(s);
      NoInnerSvgTail(n);
      StripSvgAgrees(n[1..]);
      assert s[1..] == n[1..] + ".svg";
      assert n == [n[0]] + n[1..];
    }
  }

  /**
   * The icon text `writeResults` computes for a third segment: every match of `/.svg/g` removed,
   * '/' and ' ' turned into '-', lower-cased.
   */
  function IconText(segment: string): (t: string)
    ensures |t| == |StripSvgAsWritten(segment)|
    ensures forall i :: 0 <= i < |t| ==>
      t[i] == (var c := StripSvgAsWritten(segment)[i]; if c == ' ' || c == '/' then '-' else LowerChar(c))
    ensures forall i :: 0 <= i < |t| ==> t[i] != ' ' && t[i] != '/' && !IsUpper(t[i])
  {
    Lower(ReplaceChar(ReplaceChar(StripSvgAsWritten(segment), '/', '-'), ' ', '-'))
  }

  /**
   * The icon text of a downloaded SVG's last segment, when "svg" does not occur in it after its
   * first character: the segment with spaces turned into '-', lower-cased.
   */
  lemma IconTextOfDownload(segment: string)
    requires '/' !in segment && NoInnerSvg(segment)
    ensures IconText(segment + ".svg") == Lower(ReplaceChar(segment, ' ', '-'))
  {
    StripSvgAgrees(segment);
    var r1 := ReplaceChar(segment, '/', '-');
    assert forall i :: 0 <= i < |segment| ==> r1[i] == segment[i];
    assert r1 == segment;
  }

  /** A last segment of the form "<c>svg" loses all of its text, not just the extension. */
  lemma IconTextLostAsWritten(c: char)
    requires !IsLineTerminator(c)
    ensures IconText([c] + "svg" + ".svg") == []
  {
    StripSvgAsWrittenMangles(c);
  }

  /** The evidently intended icon text: only the ".svg" extension dropped, then the same clean-up. */
  function IntendedIconText(segment: string): (t: string)
    ensures |t| == |StripExtension(segment)|
    ensures forall i :: 0 <= i < |t| ==>
      t[i] == (var c := StripExtension(segment)[i]; if c == ' ' || c == '/' then '-' else LowerChar(c))
    ensures forall i :: 0 <= i < |t| ==> t[i] != ' ' && t[i] != '/' && !IsUpper(t[i])
  {
    Lower(ReplaceChar(ReplaceChar(StripExtension(segment), '/', '-'), ' ', '-'))
  }

  /** With the intended icon text, every downloaded segment is named by its cleaned text, "svg" inside or not. */
  lemma IntendedIconTextOfDownload(segment: string)
    requires '/' !in segment
    ensures IntendedIconText(segment + ".svg") == Lower(ReplaceChar(segment, ' ', '-'))
  {
    assert StripExtension(segment + ".svg") == segment;
    var r1 := ReplaceChar(segment, '/', '-');
    assert forall i :: 0 <= i < |segment| ==> r1[i] == segment[i];
    assert r1 == segment;
  }

  /** Where a name goes in the manifest. */
  datatype Entry = Entry(group: string, style: string, icon: string)

  /** `item.name.split("/")` with exactly three segments gives an entry; other names give none. */
  function EntryOf(name: string): (e: Option<Entry>)
    ensures e.Some? <==> CountChar(name, '/') == 2
    ensures e.Some? ==> '/' !in e.value.group && '/' !in e.value.style
  {
    var paths := Split(name, '/');
    if |paths| == 3 then Some(Entry(paths[0], paths[1], IconText(paths[2]))) else None
  }

  /** The name "group/style/segment" is filed under that group and style. */
  lemma EntryOfJoined(group: string, style: string, segment: string)
    requires '/' !in group && '/' !in style && '/' !in segment
    ensures EntryOf(group + "/" + style + "/" + segment) == Some(Entry(group, style, IconText(segment)))
  {
    var parts := [group, style, segment];
    assert Join(parts[2..], '/') == segment;
    assert Join(parts[1..], '/') == style + "/" + segment;
    assert Join(parts, '/') == group + "/" + style + "/" + segment;
    SplitJoin(parts, '/');
  }

  function EmptyObject<V>(): (o: JsObject<V>)
    ensures WellFormed(o) && o.keys == []
  {
    JsObject([], map[])
  }

  /** `{[k]: v}`: a new object holding the one key `k`. */
  function Single<V>(k: string, v: V): (o: JsObject<V>)
    ensures WellFormed(o) && o.keys == [k] && k in o.values && o.values[k] == v
  {
    JsObject([k], map[k := v])
  }

  /** Setting the one key of a one-key object replaces its value. */
  lemma SetSingle<V>(k: string, a: V, b: V)
    ensures Set(Single(k, a), k, b) == Single(k, b)
  {
    assert map[k := a][k := b] == map[k := b];
  }

  /** Setting a group to a well-formed object keeps the results valid. */
  lemma SetKeepsValid(results: Results, group: string, styles: Styles)
    requires ValidResults(results) && WellFormed(styles)
    ensures ValidResults(Set(results, group, styles))
  {
  }

  /** One step of the `forEach`: the entry's icon text appended under its group and style. */
  function AddIcon(results: Results, name: string): (r: Results)
    requires ValidResults(results)
    ensures ValidResults(r)
  {
    match EntryOf(name)
    case None => results
    case Some(e) =>
      var styles: Styles := if e.group in results.values then results.values[e.group] else EmptyObject();
      var icons := if e.style in styles.values then styles.values[e.style] else [];
      var updated := Set(styles, e.style, icons + [e.icon]);
      SetKeepsValid(results, e.group, updated);
      Set(results, e.group, updated)
  }

  /** A name filed under a group and style both already present extends that style's list. */
  lemma AddToExisting(results: Results, name: string, group: string, style: string, icon: string)
    requires ValidResults(results) && EntryOf(name) == Some(Entry(group, style, icon))
    requires group in results.values && style in results.values[group].values
    ensures AddIcon(results, name) ==
      Set(results, group, Set(results.values[group], style, results.values[group].values[style] + [icon]))
  {
  }

  /** Setting a key twice leaves the second value in the first one's place. */
  lemma SetTwice<V>(o: JsObject<V>, k: string, a: V, b: V)
    requires WellFormed(o)
    ensures Set(Set(o, k, a), k, b) == Set(o, k, b)
  {
    assert o.values[k := a][k := b] == o.values[k := b];
  }

  /** Creating a missing style list and then pushing onto it sets the style to the one-element list. */
  lemma PushOntoNewStyle(r1: Results, group: string, style: string, icon: string)
    requires ValidResults(r1) && group in r1.values && style !in r1.values[group].values
    ensures var r2 := Set(r1, group, Set(r1.values[group], style, []));
            var st := r2.values[group];
            && ValidResults(r2) && style in st.values
            && Set(r2, group, Set(st, style, st.values[style] + [icon])) == Set(r1, group, Set(r1.values[group], style, [icon]))
  {
    var styles := r1.values[group];
    SetTwice(styles, style, [], [icon]);
    assert [] + [icon] == [icon];
    SetTwice(r1, group, Set(styles, style, []), Set(styles, style, [icon]));
  }

  /**
   * The statements of the `forEach` body, creating the group object and the style list when
   * missing and then pushing the icon text, have the effect of `AddIcon`.
   */
  lemma ForEachBody(results: Results, name: string, group: string, style: string, icon: string)
    requires ValidResults(results) && EntryOf(name) == Some(Entry(group, style, icon))
    ensures var r1 := if group in results.values then results else Set(results, group, EmptyObject());
            var r2 := if style in r1.values[group].values then r1 else Set(r1, group, Set(r1.values[group], style, []));
            var st := r2.values[group];
            ValidResults(r2) && style in st.values && Set(r2, group, Set(st, style, st.values[style] + [icon])) == AddIcon(results, name)
  {
    if group in results.values {
      if style !in results.values[group].values {
        PushOntoNewStyle(results, group, style, icon);
        assert [] + [icon] == [icon];
      }
    } else {
      var empty: Styles := EmptyObject();
      var r1 := Set(results, group, empty);
      assert r1.values[group] == empty;
      PushOntoNewStyle(r1, group, style, icon);
      SetTwice(results, group, empty, Set(empty, style, [icon]));
      assert [] + [icon] == [icon];
    }
  }

  /** The `results` object after the `forEach` over `data`. */
  function Collect(data: seq<string>): (r: Results)
    ensures ValidResults(r)
  {
    if data == [] then EmptyObject()
    else AddIcon(Collect(data[..|data| - 1]), data[|data| - 1])
  }

  /** Reference definition: the icon texts of the names filed under `group` and `style`, in input order. */
  function IconsUnder(data: seq<string>, group: string, style: string): seq<string>
  {
    if data == [] then []
    else
      var earlier := IconsUnder(data[..|data| - 1], group, style);
      match EntryOf(data[|data| - 1])
      case Some(e) => if e.group == group && e.style == style then earlier + [e.icon] else earlier
      case None => earlier
  }

  /** Looking up `group` and `style`: the icon list there, or nothing. */
  function Lookup(results: Results, group: string, style: string): Option<seq<string>>
  {
    if group in results.values && style in results.values[group].values
    then Some(results.values[group].values[style])
    else None
  }

  /** One `forEach` step appends the icon text under its own group and style and changes no other list. */
  lemma AddIconLookup(results: Results, name: string, group: string, style: string)
    requires ValidResults(results)
    ensures var r := AddIcon(results, name);
            var e := EntryOf(name);
            && (e.Some? && e.value.group == group && e.value.style == style ==>
                  Lookup(r, group, style) == Some(
                    (if Lookup(results, group, style).Some? then Lookup(results, group, style).value else [])
                    + [e.value.icon]))
            && (!(e.Some? && e.value.group == group && e.value.style == style) ==>
                  Lookup(r, group, style) == Lookup(results, group, style))
  {
  }

  /** One `forEach` step adds the entry's group, if missing, and removes no style from any group. */
  lemma AddIconGroups(results: Results, name: string, group: string)
    requires ValidResults(results)
    ensures var r := AddIcon(results, name);
            && (group in r.values <==> group in results.values || FiledUnder(name, group))
            && (group in results.values ==> |r.values[group].keys| >= |results.values[group].keys|)
            && (FiledUnder(name, group) ==> |r.values[group].keys| > 0)
  {
  }

  /**
   * The collected object holds a list under a group and a style exactly when some name is filed
   * under both, and that list is the icon texts of those names in input order.
   */
  lemma {:induction false} CollectLookup(data: seq<string>, group: string, style: string)
    ensures var l := IconsUnder(data, group, style);
            Lookup(Collect(data), group, style) == if l == [] then None else Some(l)
  {
    if data != [] {
      var init := data[..|data| - 1];
      CollectLookup(init, group, style);
      AddIconLookup(Collect(init), data[|data| - 1], group, style);
    }
  }

  /** Every collected group holds at least one style. */
  lemma {:induction false} CollectGroupsNonEmpty(data: seq<string>, group: string)
    requires group in Collect(data).values
    ensures |Collect(data).values[group].keys| > 0
  {
    var init := data[..|data| - 1];
    AddIconGroups(Collect(init), data[|data| - 1], group);
    if group in Collect(init).values {
      CollectGroupsNonEmpty(init, group);
    }
  }

  /** `name` has an entry, and it is filed under `group`. */
  predicate FiledUnder(name: string, group: string)
  {
    EntryOf(name).Some? && EntryOf(name).value.group == group
  }

  /** The collected object holds exactly the groups some name is filed under. */
  lemma {:induction false} CollectGroups(data: seq<string>, group: string)
    ensures group in Collect(data).values <==> exists k :: 0 <= k < |data| && FiledUnder(data[k], group)
  {
    if group in Collect(data).values {
      CollectedGroupFiled(data, group);
    }
    forall k | 0 <= k < |data| && FiledUnder(data[k], group)
      ensures group in Collect(data).values
    {
      FiledGroupCollected(data, k, group);
    }
  }

  /** A collected group comes from some name filed under it. */
  lemma {:induction false} CollectedGroupFiled(data: seq<string>, group: string)
    requires group in Collect(data).values
    ensures exists k :: 0 <= k < |data| && FiledUnder(data[k], group)
  {
    var init, last := data[..|data| - 1], data[|data| - 1];
    AddIconGroups(Collect(init), last, group);
    if FiledUnder(last, group) {
      assert FiledUnder(data[|data| - 1], group);
    } else {
      CollectedGroupFiled(init, group);
      var k :| 0 <= k < |init| && FiledUnder(init[k], group);
      assert data[k] == init[k];
    }
  }

  /** The group of every name filed under one is collected. */
  lemma {:induction false} FiledGroupCollected(data: seq<string>, k: int, group: string)
    requires 0 <= k < |data| && FiledUnder(data[k], group)
    ensures group in Collect(data).values
  {
    if k < |data| - 1 {
      var init := data[..|data| - 1];
      assert init[k] == data[k];
      FiledGroupCollected(init, k, group);
      CollectKeepsGroup(data, group);
    } else {
      CollectAddsGroup(data, group);
    }
  }

  /** A later name never removes a collected group. */
  lemma CollectKeepsGroup(data: seq<string>, group: string)
    requires data != [] && group in Collect(data[..|data| - 1]).values
    ensures group in Collect(data).values
  {
    AddIconGroups(Collect(data[..|data| - 1]), data[|data| - 1], group);
  }

  /** The last name's group is collected. */
  lemma CollectAddsGroup(data: seq<string>, group: string)
    requires data != [] && FiledUnder(data[|data| - 1], group)
    ensures group in Collect(data).values
  {
    AddIconGroups(Collect(data[..|data| - 1]), data[|data| - 1], group);
  }

  /** The `reduce` over the sorted keys: a new object receiving the groups in that order. */
  function Reorder(results: Results, keys: seq<string>): (r: Results)
    requires ValidResults(results) && Distinct(keys)
    requires forall k :: k in keys ==> k in results.values
    ensures ValidResults(r)
    ensures r.keys == keys
    ensures forall k :: k in r.values ==> r.values[k] == results.values[k]
  {
    if keys == [] then EmptyObject()
    else
      var init := keys[..|keys| - 1];
      var k := keys[|keys| - 1];
      assert keys == init + [k];
      Set(Reorder(results, init), k, results.values[k])
  }

  /** One step of the `reduce`: the next key is set on the object built so far. */
  lemma ReorderStep(results: Results, keys: seq<string>, j: int)
    requires ValidResults(results) && Distinct(keys)
    requires forall k :: k in keys ==> k in results.values
    requires 0 <= j < |keys|
    ensures Distinct(keys[..j]) && Distinct(keys[..j + 1])
    ensures forall k :: k in keys[..j + 1] ==> k in results.values
    ensures Reorder(results, keys[..j + 1]) == Set(Reorder(results, keys[..j]), keys[j], results.values[keys[j]])
  {
    assert keys[..j + 1][..j] == keys[..j];
  }

  /** Every key a well-formed object lists in own-key order is one of its keys. */
  lemma OwnKeysPresent<V>(o: JsObject<V>)
    requires WellFormed(o)
    ensures forall i :: 0 <= i < |JsOwnKeys(o.keys)| ==> JsOwnKeys(o.keys)[i] in o.values
  {
    var ks := JsOwnKeys(o.keys);
    forall i | 0 <= i < |ks|
      ensures ks[i] in o.values
    {
      assert ks[i] in multiset(ks);
    }
  }

  /** A well-formed object lists, in own-key order, each of its keys and nothing else. */
  lemma OwnKeysCover<V>(o: JsObject<V>, k: string)
    requires WellFormed(o)
    ensures (exists i :: 0 <= i < |JsOwnKeys(o.keys)| && JsOwnKeys(o.keys)[i] == k) <==> k in o.values
  {
    var ks := JsOwnKeys(o.keys);
    OwnKeysPresent(o);
    if k in o.values {
      assert k in multiset(ks);
      var i :| 0 <= i < |ks| && ks[i] == k;
    }
  }

  /** `JSON.stringify` of one group's object: its styles in own-key order. */
  function StyleList(styles: Styles): (r: seq<Style>)
    requires WellFormed(styles)
    ensures |r| == |styles.keys|
  {
    var ks := JsOwnKeys(styles.keys);
    OwnKeysPresent(styles);
    seq(|ks|, i requires 0 <= i < |ks| => Style(ks[i], styles.values[ks[i]]))
  }

  /** The j-th serialised style: the j-th key in own-key order, with its icon list. */
  lemma StyleListAt(styles: Styles, j: int)
    requires WellFormed(styles) && 0 <= j < |styles.keys|
    ensures var st := StyleList(styles)[j];
            && st.name == JsOwnKeys(styles.keys)[j]
            && st.name in styles.values
            && st.icons == styles.values[st.name]
  {
    OwnKeysPresent(styles);
  }

  /** `JSON.stringify` of the reordered object: its groups in own-key order. */
  function Serialize(results: Results): (r: seq<Group>)
    requires ValidResults(results)
    ensures |r| == |results.keys|
  {
    var ks := JsOwnKeys(results.keys);
    OwnKeysPresent(results);
    seq(|ks|, i requires 0 <= i < |ks| => Group(ks[i], StyleList(results.values[ks[i]])))
  }

  /** The i-th serialised group: the i-th key in own-key order, with its styles. */
  lemma SerializeAt(results: Results, i: int)
    requires ValidResults(results) && 0 <= i < |results.keys|
    ensures var g := Serialize(results)[i];
            && g.name == JsOwnKeys(results.keys)[i]
            && g.name in results.values
            && g.styles == StyleList(results.values[g.name])
  {
    OwnKeysPresent(results);
  }

  /** The group keys in the order `Object.keys(results).sort()` gives them. */
  function SortedGroups(results: Results): (keys: seq<string>)
    requires ValidResults(results)
    ensures Distinct(keys) && SortedBy(Lexicographic, keys)
    ensures forall k :: k in keys <==> k in results.values
  {
    var keys := SortBy(Lexicographic, results.keys);
    DistinctPermutation(results.keys, keys);
    assert forall k :: k in keys <==> k in multiset(results.keys);
    keys
  }

  /** The manifest `writeResults` writes for the downloaded names `data`. */
  function Manifest(data: seq<string>): seq<Group>
  {
    var results := Collect(data);
    Serialize(Reorder(results, SortedGroups(results)))
  }

  /** The `forEach` of `writeResults`, filling `results` in place name by name. */
  method CollectIcons(data: seq<string>) returns (results: Results)
    ensures results == Collect(data)
  {
    results := EmptyObject();
    for i := 0 to |data|
      invariant results == Collect(data[..i])
    {
      assert data[..i + 1][..i] == data[..i];
      var paths := Split(data[i], '/');
      if |paths| == 3 {
        var group, style, icon := paths[0], paths[1], IconText(paths[2]);
        ForEachBody(results, data[i], group, style, icon);
        if group !in results.values {
          results := Set(results, group, EmptyObject());
        }
        if style !in results.values[group].values {
          results := Set(results, group, Set(results.values[group], style, []));
        }
        var styles := results.values[group];
        results := Set(results, group, Set(styles, style, styles.values[style] + [icon]));
      }
    }
    assert data[..|data|] == data;
  }

  /** The `reduce` of `writeResults`: a new object receiving the groups of `results` in the order of `keys`. */
  method ReorderGroups(results: Results, keys: seq<string>) returns (ordered: Results)
    requires ValidResults(results) && Distinct(keys)
    requires forall k :: k in keys ==> k in results.values
    ensures ordered == Reorder(results, keys)
  {
    ordered := EmptyObject();
    assert keys[..0] == [];
    for j := 0 to |keys|
      invariant ordered == Reorder(results, keys[..j])
    {
      ReorderStep(results, keys, j);
      assert keys[j] in results.values;
      ordered := Set(ordered, keys[j], results.values[keys[j]]);
    }
    assert keys[..|keys|] == keys;
  }

  /**
   * `writeResults` without the file write: the `forEach` filling `results` in place, then the
   * `reduce` over the sorted keys, then the serialisation.
   */
  method WriteResults(data: seq<string>) returns (manifest: seq<Group>)
    ensures manifest == Manifest(data)
  {
    var results := CollectIcons(data);
    var keys := SortedGroups(results);
    var ordered := ReorderGroups(results, keys);
    manifest := Serialize(ordered);
  }

  /** The manifest lists the groups in own-key order of the sorted group keys. */
  lemma ManifestNames(data: seq<string>)
    ensures var results := Collect(data);
            var m := Manifest(data);
            && |m| == |SortedGroups(results)|
            && forall i :: 0 <= i < |m| ==> m[i].name == JsOwnKeys(SortedGroups(results))[i]
  {
    var results := Collect(data);
    var ordered := Reorder(results, SortedGroups(results));
    forall i | 0 <= i < |Manifest(data)|
      ensures Manifest(data)[i].name == JsOwnKeys(SortedGroups(results))[i]
    {
      SerializeAt(ordered, i);
    }
  }

  /**
   * Group order in the manifest: no group twice; groups named by an array index first, in
   * ascending numeric order; every other group after them, in increasing string order.
   */
  lemma ManifestGroupOrder(data: seq<string>)
    ensures var m := Manifest(data);
            && (forall i, j :: 0 <= i < j < |m| ==> m[i].name != m[j].name)
            && (forall i, j :: 0 <= i < j < |m| && IsArrayIndex(m[j].name) ==> IsArrayIndex(m[i].name))
            && (forall i, j :: 0 <= i < j < |m| && IsArrayIndex(m[i].name) && IsArrayIndex(m[j].name) ==>
                  RadixValue(m[i].name, 10) <= RadixValue(m[j].name, 10))
            && (forall i, j :: 0 <= i < j < |m| && !IsArrayIndex(m[i].name) ==> Lt(m[i].name, m[j].name))
  {
    var keys := SortedGroups(Collect(data));
    var ks := JsOwnKeys(keys);
    ManifestNames(data);
    JsOwnKeysOrder(keys);
    OthersKeepOrder(keys);
    JsOwnKeysDistinct(keys);
    forall i, j | 0 <= i < j < |ks| && !IsArrayIndex(ks[i])
      ensures Lt(ks[i], ks[j])
    {
      LtTotal(ks[i], ks[j]);
    }
  }

  /** The manifest holds exactly the groups some name is filed under. */
  lemma ManifestGroups(data: seq<string>, group: string)
    ensures var m := Manifest(data);
            (exists i :: 0 <= i < |m| && m[i].name == group) <==>
            (exists k :: 0 <= k < |data| && FiledUnder(data[k], group))
  {
    var results := Collect(data);
    var keys := SortedGroups(results);
    var ordered := Reorder(results, keys);
    ManifestNames(data);
    OwnKeysCover(ordered, group);
    CollectGroups(data, group);
  }

  /** The serialised styles of a collected group, compared with the names filed under it. */
  lemma GroupStyles(data: seq<string>, group: string)
    requires group in Collect(data).values
    ensures var st := StyleList(Collect(data).values[group]);
            && |st| > 0
            && (forall j, l :: 0 <= j < l < |st| ==> st[j].name != st[l].name)
            && (forall j :: 0 <= j < |st| ==> st[j].icons == IconsUnder(data, group, st[j].name) && st[j].icons != [])
            && (forall style :: IconsUnder(data, group, style) != [] ==> exists j :: 0 <= j < |st| && st[j].name == style)
  {
    var styles := Collect(data).values[group];
    var st := StyleList(styles);
    CollectGroupsNonEmpty(data, group);
    JsOwnKeysDistinct(styles.keys);
    forall j | 0 <= j < |st|
      ensures st[j].name == JsOwnKeys(styles.keys)[j]
      ensures st[j].icons == IconsUnder(data, group, st[j].name) && st[j].icons != []
    {
      StyleListAt(styles, j);
      CollectLookup(data, group, st[j].name);
    }
    forall style | IconsUnder(data, group, style) != []
      ensures exists j :: 0 <= j < |st| && st[j].name == style
    {
      CollectLookup(data, group, style);
      OwnKeysCover(styles, style);
    }
  }

  /**
   * Inside a group of the manifest: at least one style, no style twice, under each style the icon
   * texts of the names filed under that group and style in input order, and every style some name
   * is filed under.
   */
  lemma ManifestStyles(data: seq<string>, i: int)
    requires 0 <= i < |Manifest(data)|
    ensures var g := Manifest(data)[i];
            && |g.styles| > 0
            && (forall j, l :: 0 <= j < l < |g.styles| ==> g.styles[j].name != g.styles[l].name)
            && (forall j :: 0 <= j < |g.styles| ==>
                  g.styles[j].icons == IconsUnder(data, g.name, g.styles[j].name) && g.styles[j].icons != [])
            && (forall style :: IconsUnder(data, g.name, style) != [] ==>
                  exists j :: 0 <= j < |g.styles| && g.styles[j].name == style)
  {
    var results := Collect(data);
    var ordered := Reorder(results, SortedGroups(results));
    SerializeAt(ordered, i);
    var g := Manifest(data)[i];
    assert g.styles == StyleList(results.values[g.name]);
    GroupStyles(data, g.name);
  }
}
