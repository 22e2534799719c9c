/**
 * Download selection and file naming: the filters of `exportIcons` and `exportImages`, the
 * `removeFromName` rewrite, and the name and path part of `downloadImage`. The downloads
 * themselves are planned as a sequential map over the selected icons.
 */
module DownloadEngine {
  import opened Wrappers
  import opened Figma
  import opened Strings

  /** One planned download: the URL to fetch, the file to write, and the name reported for it. */
  datatype Download = Download(url: Option<string>, path: string, name: string)

  /** `name.split("/").length > 1`: the name has more than one segment. */
  predicate IsIconName(name: string)
  {
    |Split(name, '/')| > 1
  }

  /** The icon filter is a test for a '/' in the name. */
  lemma IconNameHasSlash(name: string)
    ensures IsIconName(name) <==> '/' in name
  {
  }

  /** `!name.includes("_")`: the filter of the image export. */
  predicate IsImageName(name: string)
  {
    '_' !in name
  }

  /** `icons.filter(icon => icon.name.split("/").length > 1)`. */
  function SelectIcons(icons: seq<Icon>): (r: seq<Icon>)
    ensures |r| <= |icons|
    ensures forall x :: x in r <==> x in icons && IsIconName(x.name)
  {
    if icons == [] then []
    else
      assert icons == [icons[0]] + icons[1..];
      (if IsIconName(icons[0].name) then [icons[0]] else []) + SelectIcons(icons[1..])
  }

  /** `icons.filter(icon => !icon.name.includes("_"))`. */
  function SelectImages(icons: seq<Icon>): (r: seq<Icon>)
    ensures |r| <= |icons|
    ensures forall x :: x in r <==> x in icons && IsImageName(x.name)
  {
    if icons == [] then []
    else
      assert icons == [icons[0]] + icons[1..];
      (if IsImageName(icons[0].name) then [icons[0]] else []) + SelectImages(icons[1..])
  }

  /** The icon filter keeps list order: filtering a concatenation concatenates the filtered parts. */
  lemma {:induction false} SelectIconsAppend(a: seq<Icon>, b: seq<Icon>)
    ensures SelectIcons(a + b) == SelectIcons(a) + SelectIcons(b)
  {
    if a == [] {
      assert a + b == b;
    } else {
      assert (a + b)[0] == a[0];
      assert (a + b)[1..] == a[1..] + b;
      SelectIconsAppend(a[1..], b);
    }
  }

  /** The image filter keeps list order too. */
  lemma {:induction false} SelectImagesAppend(a: seq<Icon>, b: seq<Icon>)
    ensures SelectImages(a + b) == SelectImages(a) + SelectImages(b)
  {
    if a == [] {
      assert a + b == b;
    } else {
      assert (a + b)[0] == a[0];
      assert (a + b)[1..] == a[1..] + b;
      SelectImagesAppend(a[1..], b);
    }
  }

  /**
   * The file stem `downloadImage` derives from a name: when the name has a '/', the text after the
   * last '/', with '/' and ' ' turned into '-' and lower-cased; otherwise the name unchanged.
   */
  function FileStem(name: string): (stem: string)
    ensures '/' !in stem
    ensures '/' !in name ==> stem == name
    ensures '/' in name ==>
      var tail := name[LastIndexOf(name, '/') + 1..];
      && |stem| == |tail|
      && forall i :: 0 <= i < |tail| ==> stem[i] == (if tail[i] == ' ' then '-' else LowerChar(tail[i]))
  {
    var idx := LastIndexOf(name, '/');
    if idx != -1 then
      var tail := name[idx + 1..];
      var noSlash := ReplaceChar(tail, '/', '-');
      assert noSlash == tail;
      Lower(ReplaceChar(noSlash, ' ', '-'))
    else name
  }

  /** The stem of a name with a '/' has no space and no upper-case ASCII letter. */
  lemma StemIsSanitized(name: string)
    requires '/' in name
    ensures ' ' !in FileStem(name)
    ensures forall i :: 0 <= i < |FileStem(name)| ==> !IsUpper(FileStem(name)[i])
  {
    var stem := FileStem(name);
    forall i | 0 <= i < |stem|
      ensures stem[i] != ' ' && !IsUpper(stem[i])
    {
    }
  }

  /** The group and style part of a name is discarded: only the text after the last '/' matters. */
  lemma DirectoryDiscarded(a: string, b: string, tail: string)
    requires '/' !in tail
    ensures FileStem(a + "/" + tail) == FileStem(b + "/" + tail)
  {
    var x, y := a + "/" + tail, b + "/" + tail;
    assert x[|a| + 1..] == tail && y[|b| + 1..] == tail;
    LastIndexOfJoined(a, '/', tail);
    LastIndexOfJoined(b, '/', tail);
  }

  /** The stem of "dir/segment" is the segment with spaces turned into '-', lower-cased. */
  lemma StemOfLastSegment(dir: string, segment: string)
    requires '/' !in segment
    ensures FileStem(dir + "/" + segment) == Lower(ReplaceChar(segment, ' ', '-'))
  {
    var name := dir + "/" + segment;
    LastIndexOfJoined(dir, '/', segment);
    assert name[|dir| + 1..] == segment;
    assert name[|dir|] == '/';
  }

  /**
   * A space right after the last '/' is kept as a leading '-': "Nav / Home Icon" gives a stem
   * starting with '-', not "home-icon".
   */
  lemma LeadingSpaceKept(dir: string, segment: string)
    requires '/' !in segment && segment != [] && segment[0] == ' '
    ensures FileStem(dir + "/" + segment) != [] && FileStem(dir + "/" + segment)[0] == '-'
  {
    StemOfLastSegment(dir, segment);
  }

  /** `downloadImage(url, name, format)`: where the file goes and which name is reported for it. */
  function DownloadImage(url: Option<string>, name: string, format: string, iconsPath: string): Download
  {
    Download(url, iconsPath + "/" + FileStem(name) + "." + format, name + "." + format)
  }

  /** The file name "<stem>.<format>" holds no '/' when neither part does. */
  lemma FileOfStem(stem: string, format: string)
    requires '/' !in stem && '/' !in format
    ensures '/' !in stem + "." + format
  {
    assert stem + "." + format == stem + ['.'] + format;
  }

  /** The path "<dir>/<stem>.<format>" is the directory, '/', and the file name. */
  lemma PathOfFile(dir: string, stem: string, format: string)
    ensures dir + "/" + stem + "." + format == dir + ['/'] + (stem + "." + format)
  {
  }

  /** The reported name "<name>.<format>" starts with the name. */
  lemma ReportedName(name: string, format: string)
    ensures var n := name + "." + format;
            n[..|name|] == name && n[|name|..] == "." + format
  {
  }

  /** Appending '.' and then the format "svg" appends ".svg". */
  lemma DotSvg(s: string)
    ensures s + "." + "svg" == s + ".svg"
  {
    assert "." + "svg" == ".svg";
  }

  /**
   * Every file lands directly in the icons directory: the last '/' of its path is the one after
   * the directory; and the reported name is the name given, followed by '.' and the format.
   */
  lemma {:induction false} DownloadLandsInRoot(url: Option<string>, name: string, format: string, iconsPath: string)
    requires '/' !in format
    ensures var d := DownloadImage(url, name, format, iconsPath);
            && LastIndexOf(d.path, '/') == |iconsPath|
            && d.path[..|iconsPath|] == iconsPath
            && d.path[|iconsPath| + 1..] == FileStem(name) + "." + format
            && d.name[..|name|] == name && d.name[|name|..] == "." + format
  {
    var file := FileStem(name) + "." + format;
    FileOfStem(FileStem(name), format);
    PathOfFile(iconsPath, FileStem(name), format);
    LastIndexOfJoined(iconsPath, '/', file);
    ReportedName(name, format);
  }


  /** The downloads of `exportIcons`: each selected icon, its name after `removeFromName`, as SVG. */
  function PlanIconDownloads(icons: seq<Icon>, config: Config): (plan: seq<Download>)
    ensures |plan| == |SelectIcons(icons)|
  {
    var selected := SelectIcons(icons);
    seq(|selected|, k requires 0 <= k < |selected| =>
      DownloadImage(selected[k].image, RemoveFirst(selected[k].name, config.removeFromName), "svg", config.iconsPath))
  }

  /** The downloads of `exportImages`: each selected icon, its name after `removeFromName`, as PNG. */
  function PlanImageDownloads(icons: seq<Icon>, config: Config): (plan: seq<Download>)
    ensures |plan| == |SelectImages(icons)|
  {
    var selected := SelectImages(icons);
    seq(|selected|, k requires 0 <= k < |selected| =>
      DownloadImage(selected[k].image, RemoveFirst(selected[k].name, config.removeFromName), "png", config.iconsPath))
  }

  /**
   * What the icon export downloads: for the k-th selected icon, its URL, a file directly in the
   * icons directory, and the reported name "<name without the configured substring>.svg".
   */
  lemma {:induction false} IconDownloadsPlanned(icons: seq<Icon>, config: Config, k: int)
    requires 0 <= k < |SelectIcons(icons)|
    ensures var icon := SelectIcons(icons)[k];
            var d := PlanIconDownloads(icons, config)[k];
            var name := RemoveFirst(icon.name, config.removeFromName);
            && '/' in icon.name
            && d.url == icon.image
            && d.path == config.iconsPath + "/" + FileStem(name) + ".svg"
            && d.path[..|config.iconsPath|] == config.iconsPath
            && LastIndexOf(d.path, '/') == |config.iconsPath|
            && d.path[|config.iconsPath| + 1..] == FileStem(name) + ".svg"
            && d.name == name + ".svg"
  {
    var icon := SelectIcons(icons)[k];
    var name := RemoveFirst(icon.name, config.removeFromName);
    assert icon in SelectIcons(icons);
    IconNameHasSlash(icon.name);
    assert PlanIconDownloads(icons, config)[k] == DownloadImage(icon.image, name, "svg", config.iconsPath);
    DownloadLandsInRoot(icon.image, name, "svg", config.iconsPath);
    DotSvg(name);
    DotSvg(FileStem(name));
    DotSvg(config.iconsPath + "/" + FileStem(name));
  }

  /**
   * What the image export downloads: for the k-th selected icon, a name without '_', its URL, a
   * file directly in the icons directory, and the reported name "<name without the configured substring>.png".
   */
  lemma ImageDownloadsPlanned(icons: seq<Icon>, config: Config, k: int)
    requires 0 <= k < |SelectImages(icons)|
    ensures var icon := SelectImages(icons)[k];
            var d := PlanImageDownloads(icons, config)[k];
            var name := RemoveFirst(icon.name, config.removeFromName);
            && '_' !in icon.name
            && d.url == icon.image
            && d.path == config.iconsPath + "/" + FileStem(name) + "." + "png"
            && d.path[..|config.iconsPath|] == config.iconsPath
            && LastIndexOf(d.path, '/') == |config.iconsPath|
            && d.path[|config.iconsPath| + 1..] == FileStem(name) + "." + "png"
            && d.name == name + "." + "png"
  {
    var icon := SelectImages(icons)[k];
    var name := RemoveFirst(icon.name, config.removeFromName);
    assert icon in SelectImages(icons);
    assert PlanImageDownloads(icons, config)[k] == DownloadImage(icon.image, name, "png", config.iconsPath);
    DownloadLandsInRoot(icon.image, name, "png", config.iconsPath);
  }
}
