/**
 * The icon and image exports end to end, once the document and the URL map have been fetched:
 * extraction, URL attachment, download planning and, for icons, the manifest of the downloaded names.
 */
module ExportPipeline {
  import opened Wrappers
  import opened Figma
  import opened Strings
  import opened IconSetExtractor
  import opened ImageResolver
  import opened DownloadEngine
  import opened ManifestBuilder
  import opened KeyOrder

  /** What `exportIcons` produces: the downloads, in list order, and the manifest written after them. */
  datatype IconExport = IconExport(downloads: seq<Download>, manifest: seq<Group>)

  /** The reported names of the downloads, which `writeResults` receives. */
  function Names(downloads: seq<Download>): (names: seq<string>)
    ensures |names| == |downloads|
    ensures forall k :: 0 <= k < |downloads| ==> names[k] == downloads[k].name
  {
    seq(|downloads|, k requires 0 <= k < |downloads| => downloads[k].name)
  }

  /** `exportIcons` with the document and the URL map given: a failed extraction stops the run. */
  function ExportIcons(document: Node, config: Config, images: map<string, string>): (r: Result<IconExport, ExtractError>)
    ensures r.Ok? <==> FigmaFileIcons(document, config).Ok?
    ensures r.Err? ==> r.error == FigmaFileIcons(document, config).error
    ensures r.Ok? ==> |r.value.downloads| == |SelectIcons(FigmaFileIcons(document, config).value)|
    ensures r.Ok? ==> r.value.downloads == PlanIconDownloads(WithImages(FigmaFileIcons(document, config).value, images), config)
    ensures r.Ok? ==> r.value.manifest == Manifest(Names(r.value.downloads))
  {
    match FigmaFileIcons(document, config)
    case Err(e) => Err(e)
    case Ok(icons) =>
      var plan := PlanIconDownloads(WithImages(icons, images), config);
      SelectIconsKeepsCount(icons, images);
      Ok(IconExport(plan, Manifest(Names(plan))))
  }

  /** `exportImages` with the document and the URL map given: PNG downloads, no manifest. */
  function ExportImages(document: Node, config: Config, images: map<string, string>): (r: Result<seq<Download>, ExtractError>)
    ensures r.Ok? <==> FigmaFileIcons(document, config).Ok?
    ensures r.Err? ==> r.error == FigmaFileIcons(document, config).error
    ensures r.Ok? ==> r.value == PlanImageDownloads(WithImages(FigmaFileIcons(document, config).value, images), config)
    ensures r.Ok? ==> |r.value| <= |FigmaFileIcons(document, config).value|
  {
    match FigmaFileIcons(document, config)
    case Err(e) => Err(e)
    case Ok(icons) => Ok(PlanImageDownloads(WithImages(icons, images), config))
  }

  /** Attaching URLs does not change which icons the name filter selects. */
  lemma {:induction false} SelectIconsKeepsCount(icons: seq<Icon>, images: map<string, string>)
    ensures |SelectIcons(WithImages(icons, images))| == |SelectIcons(icons)|
  {
    if icons != [] {
      var w := WithImages(icons, images);
      assert w[1..] == WithImages(icons[1..], images);
      SelectIconsKeepsCount(icons[1..], images);
    }
  }

  /** A name of two '/' is its three segments joined by '/'. */
  lemma ThreeSegments(name: string)
    requires CountChar(name, '/') == 2
    ensures var parts := Split(name, '/');
            && |parts| == 3
            && name == parts[0] + "/" + parts[1] + "/" + parts[2]
  {
    JoinSplit(name, '/');
    JoinThree(Split(name, '/'), '/');
  }

  /** The text after the last '/' of a name. */
  function LastSegment(name: string): (seg: string)
    ensures '/' !in seg
    ensures '/' in name ==> name == name[..LastIndexOf(name, '/')] + "/" + seg
  {
    var i := LastIndexOf(name, '/');
    var seg := name[i + 1..];
    assert forall j :: 0 <= j < |seg| ==> seg[j] == name[i + 1 + j];
    assert i >= 0 ==> name == name[..i] + [name[i]] + seg;
    seg
  }

  /** The last segment of a name of three segments is its third. */
  lemma LastSegmentOfThree(name: string)
    requires CountChar(name, '/') == 2
    ensures LastSegment(name) == Split(name, '/')[2]
  {
    ThreeSegments(name);
    var parts := Split(name, '/');
    assert name == (parts[0] + "/" + parts[1]) + ['/'] + parts[2];
    LastIndexOfJoined(parts[0] + "/" + parts[1], '/', parts[2]);
  }

  /** The manifest entry of the reported name "group/style/segment.svg" carries the file's stem. */
  lemma EntryOfDownloadName(name: string, group: string, style: string, segment: string)
    requires '/' !in group && '/' !in style && '/' !in segment
    requires NoInnerSvg(segment)
    requires name == group + "/" + style + "/" + segment
    ensures EntryOf(name + ".svg") == Some(Entry(group, style, FileStem(name)))
  {
    assert name + ".svg" == group + "/" + style + "/" + (segment + ".svg");
    EntryOfJoined(group, style, segment + ".svg");
    IconTextOfDownload(segment);
    assert name == (group + "/" + style) + "/" + segment;
    StemOfLastSegment(group + "/" + style, segment);
  }

  /** The SVG download of `name`: the reported name and the file both end in ".svg". */
  lemma SvgDownload(url: Option<string>, name: string, iconsPath: string)
    ensures var d := DownloadImage(url, name, "svg", iconsPath);
            && d.name == name + ".svg"
            && d.path == iconsPath + "/" + FileStem(name) + ".svg"
  {
    DotSvg(name);
    DotSvg(iconsPath + "/" + FileStem(name));
  }

  /**
   * The manifest names the file that was written: for a name of three segments whose last segment
   * holds no "svg" after its first character, the file of its SVG download is
   * "<iconsPath>/<icon text>.svg", the icon text being the one `writeResults` files the reported
   * name under.
   */
  lemma EntryNamesDownloadedFile(url: Option<string>, name: string, iconsPath: string)
    requires CountChar(name, '/') == 2
    requires NoInnerSvg(LastSegment(name))
    ensures var d := DownloadImage(url, name, "svg", iconsPath);
            && EntryOf(d.name).Some?
            && d.path == iconsPath + "/" + EntryOf(d.name).value.icon + ".svg"
  {
    SvgDownload(url, name, iconsPath);
    ThreeSegments(name);
    LastSegmentOfThree(name);
    var parts := Split(name, '/');
    EntryOfDownloadName(name, parts[0], parts[1], parts[2]);
  }

  /**
   * The link breaks as written: the icon "group/style/<c>svg" is downloaded to a file whose stem
   * has four characters, but the manifest files it with the empty icon text.
   */
  lemma LinkBrokenAsWritten(url: Option<string>, group: string, style: string, c: char, iconsPath: string)
    requires '/' !in group && '/' !in style && c != '/' && !IsLineTerminator(c)
    ensures var name := group + "/" + style + "/" + ([c] + "svg");
            var d := DownloadImage(url, name, "svg", iconsPath);
            && EntryOf(d.name) == Some(Entry(group, style, []))
            && |FileStem(name)| == 4
  {
    var segment := [c] + "svg";
    var name := group + "/" + style + "/" + segment;
    SvgDownload(url, name, iconsPath);
    SvgAppended(group + "/" + style + "/", segment);
    LostSegmentEntry(group, style, c);
    LostSegmentStem(group + "/" + style, c);
  }

  /** "group/style/<c>svg.svg" is filed with the empty icon text. */
  lemma LostSegmentEntry(group: string, style: string, c: char)
    requires '/' !in group && '/' !in style && c != '/' && !IsLineTerminator(c)
    ensures EntryOf(group + "/" + style + "/" + ([c] + "svg" + ".svg")) == Some(Entry(group, style, []))
  {
    var segment := [c] + "svg" + ".svg";
    assert '/' !in segment;
    EntryOfJoined(group, style, segment);
    IconTextLostAsWritten(c);
  }

  /** The file stem of "dir/<c>svg" has four characters. */
  lemma LostSegmentStem(dir: string, c: char)
    requires c != '/'
    ensures |FileStem(dir + "/" + ([c] + "svg"))| == 4
  {
    var segment := [c] + "svg";
    assert '/' !in segment;
    StemOfLastSegment(dir, segment);
  }

  /** The reported name "group/style/segment.svg" has two '/' and the third segment "segment.svg". */
  lemma ThirdOfReportedName(group: string, style: string, segment: string)
    requires '/' !in group && '/' !in style && '/' !in segment
    ensures var n := group + "/" + style + "/" + (segment + ".svg");
            CountChar(n, '/') == 2 && Split(n, '/')[2] == segment + ".svg"
  {
    var parts := [group, style, segment + ".svg"];
    JoinThree(parts, '/');
    SplitJoin(parts, '/');
  }

  /** The name "group/style/segment": its stem is the intended icon text of "segment.svg". */
  lemma IntendedOfDownloadName(name: string, group: string, style: string, segment: string)
    requires '/' !in group && '/' !in style && '/' !in segment
    requires name == group + "/" + style + "/" + segment
    ensures CountChar(name + ".svg", '/') == 2
    ensures Split(name + ".svg", '/')[2] == segment + ".svg"
    ensures FileStem(name) == IntendedIconText(segment + ".svg")
  {
    SvgAppended(group + "/" + style + "/", segment);
    ThirdOfReportedName(group, style, segment);
    IntendedStemOfSegment(group + "/" + style, segment);
  }

  /** Appending ".svg" to "<prefix><segment>" appends it to the segment. */
  lemma SvgAppended(prefix: string, segment: string)
    ensures prefix + segment + ".svg" == prefix + (segment + ".svg")
  {
  }

  /** The stem of "dir/segment" is the intended icon text of "segment.svg". */
  lemma IntendedStemOfSegment(dir: string, segment: string)
    requires '/' !in segment
    ensures FileStem(dir + "/" + segment) == IntendedIconText(segment + ".svg")
  {
    IntendedIconTextOfDownload(segment);
    StemOfLastSegment(dir, segment);
  }

  /**
   * With the intended icon text the link holds for every name of three segments: the file of its
   * SVG download is "<iconsPath>/<intended icon text of the third reported segment>.svg".
   */
  lemma IntendedEntryNamesDownloadedFile(url: Option<string>, name: string, iconsPath: string)
    requires CountChar(name, '/') == 2
    ensures var d := DownloadImage(url, name, "svg", iconsPath);
            && CountChar(d.name, '/') == 2
            && d.path == iconsPath + "/" + IntendedIconText(Split(d.name, '/')[2]) + ".svg"
  {
    SvgDownload(url, name, iconsPath);
    ThreeSegments(name);
    var parts := Split(name, '/');
    IntendedOfDownloadName(name, parts[0], parts[1], parts[2]);
  }

  /** The reported name has two '/' exactly when the name given to the download has. */
  lemma SlashesOfReportedName(name: string, format: string)
    requires '/' !in format
    ensures CountChar(name + "." + format, '/') == CountChar(name, '/')
  {
    assert name + "." + format == name + ("." + format);
    CountCharAppend(name, "." + format, '/');
    CountCharAppend(".", format, '/');
    assert CountChar(".", '/') == 0;
  }

  /**
   * In the icon export, every download the manifest files under a group and style, and whose last
   * segment holds no "svg" after its first character, wrote the file "<iconsPath>/<icon text>.svg"
   * for the icon text the manifest lists.
   */
  lemma ManifestMatchesDownloads(icons: seq<Icon>, config: Config, k: int)
    requires 0 <= k < |PlanIconDownloads(icons, config)|
    requires EntryOf(PlanIconDownloads(icons, config)[k].name).Some?
    requires NoInnerSvg(LastSegment(RemoveFirst(SelectIcons(icons)[k].name, config.removeFromName)))
    ensures var d := PlanIconDownloads(icons, config)[k];
            d.path == config.iconsPath + "/" + EntryOf(d.name).value.icon + ".svg"
  {
    var icon := SelectIcons(icons)[k];
    var name := RemoveFirst(icon.name, config.removeFromName);
    var d := DownloadImage(icon.image, name, "svg", config.iconsPath);
    assert PlanIconDownloads(icons, config)[k] == d;
    SvgDownload(icon.image, name, config.iconsPath);
    SlashesOfSvgName(name);
    EntryNamesDownloadedFile(icon.image, name, config.iconsPath);
  }

  /** The reported SVG name has as many '/' as the name given to the download. */
  lemma SlashesOfSvgName(name: string)
    ensures CountChar(name + ".svg", '/') == CountChar(name, '/')
  {
    SlashesOfReportedName(name, "svg");
    DotSvg(name);
  }

  /** The first name creates its group and style. */
  lemma AddFirstIcon(d1: string, group: string, style: string, t1: string)
    requires EntryOf(d1) == Some(Entry(group, style, t1))
    ensures AddIcon(EmptyObject(), d1) == Single(group, Single(style, [t1]))
  {
    var empty: Results := EmptyObject();
    var st: Styles := EmptyObject();
    assert [] + [t1] == [t1];
    assert AddIcon(empty, d1) == Set(empty, group, Set(st, style, [t1]));
    assert [] + [style] == [style];
    assert Set(st, style, [t1]) == Single(style, [t1]);
    assert [] + [group] == [group];
  }

  /** A second name under the same group and style is appended to the same list. */
  lemma AddSecondIcon(d2: string, group: string, style: string, t1: string, t2: string)
    requires EntryOf(d2) == Some(Entry(group, style, t2))
    ensures AddIcon(Single(group, Single(style, [t1])), d2) == Single(group, Single(style, [t1, t2]))
  {
    var st := Single(style, [t1]);
    AddToExisting(Single(group, st), d2, group, style, t2);
    assert [t1] + [t2] == [t1, t2];
    SetSingle(style, [t1], [t1, t2]);
    SetSingle(group, st, Single(style, [t1, t2]));
  }

  /** The `forEach` over two names filed under one group and style. */
  lemma CollectOfOneStyle(d1: string, d2: string, group: string, style: string, t1: string, t2: string)
    requires EntryOf(d1) == Some(Entry(group, style, t1))
    requires EntryOf(d2) == Some(Entry(group, style, t2))
    ensures Collect([d1, d2]) == Single(group, Single(style, [t1, t2]))
  {
    var data := [d1, d2];
    assert data[..1] == [d1] && [d1][..0] == [];
    AddFirstIcon(d1, group, style, t1);
    AddSecondIcon(d2, group, style, t1, t2);
    assert Collect([d1]) == AddIcon(EmptyObject(), d1);
    assert Collect(data) == AddIcon(Collect([d1]), d2);
  }

  /** An object of one style serialises to that style. */
  lemma StyleListOfOne(style: string, icons: seq<string>)
    ensures StyleList(Single(style, icons)) == [Style(style, icons)]
  {
    var r := StyleList(Single(style, icons));
    JsOwnKeysSingle(style);
    StyleListAt(Single(style, icons), 0);
    assert r == [r[0]];
  }

  /** An object of one group, sorted, reordered and serialised, is that group. */
  lemma SerializeOfOne(group: string, styles: Styles)
    requires WellFormed(styles)
    ensures var results := Single(group, styles);
            && ValidResults(results)
            && SortedGroups(results) == [group]
            && Serialize(Reorder(results, [group])) == [Group(group, StyleList(styles))]
  {
    var results := Single(group, styles);
    assert ValidResults(results);
    var keys := SortedGroups(results);
    assert |keys| == 1 && group in keys;
    assert keys == [group];
    var ordered := Reorder(results, [group]);
    assert ordered.keys == [group] && group in ordered.values;
    assert ordered.values[group] == styles;
    JsOwnKeysSingle(group);
    SerializeAt(ordered, 0);
  }

  /** Two names filed under one group and style give one group, one style and both icon texts in order. */
  lemma ManifestOfOneStyle(d1: string, d2: string, group: string, style: string, t1: string, t2: string)
    requires EntryOf(d1) == Some(Entry(group, style, t1))
    requires EntryOf(d2) == Some(Entry(group, style, t2))
    ensures Manifest([d1, d2]) == [Group(group, [Style(style, [t1, t2])])]
  {
    var styles := Single(style, [t1, t2]);
    CollectOfOneStyle(d1, d2, group, style, t1, t2);
    StyleListOfOne(style, [t1, t2]);
    SerializeOfOne(group, styles);
  }
}
