/**
 * Icon extraction (`fetchFrames` and the page loop of `getFigmaFile`): find the page by name,
 * apply the frame filter when the selector asks for one, map the chosen children to icon records
 * and deduplicate their names, page by page; then concatenate the pages in configured order.
 */
module IconSetExtractor {
  import opened Wrappers
  import opened Figma
  import opened Strings
  import opened TreeResolver
  import opened FrameSelector
  import opened NameDeduplicator

  /** Why a page yields no icons: the page is missing, or the selected frame is. */
  datatype ExtractError = PageNotFound(page: string) | FrameNotFound(frame: string)

  /** `frame.split("/").filter(Boolean)`: the non-empty segments of the frame path. */
  function FrameSegments(frame: string): (segs: seq<string>)
    ensures forall k :: 0 <= k < |segs| ==> segs[k] != [] && '/' !in segs[k]
  {
    var parts := Split(frame, '/');
    var segs := NonEmpty(parts);
    forall k | 0 <= k < |segs|
      ensures '/' !in segs[k]
    {
      assert segs[k] in parts;
    }
    segs
  }

  /** The segments of a path built from pieces: the non-empty pieces, in order. */
  lemma FrameSegmentsOfJoin(parts: seq<string>)
    requires |parts| > 0
    requires forall k :: 0 <= k < |parts| ==> '/' !in parts[k]
    ensures FrameSegments(Join(parts, '/')) == NonEmpty(parts)
  {
    SplitJoin(parts, '/');
  }

  /** A path of non-empty segments without '/' gives those segments back, the last one being the frame name. */
  lemma FrameSegmentsOfPath(segs: seq<string>)
    requires |segs| > 0
    requires forall k :: 0 <= k < |segs| ==> segs[k] != [] && '/' !in segs[k]
    ensures FrameSegments(Join(segs, '/')) == segs
  {
    FrameSegmentsOfJoin(segs);
    NonEmptyAll(segs);
  }

  /** Leading, doubled and trailing '/' give empty pieces, which are dropped: "/a//b/" has the segments a and b. */
  lemma EmptyPiecesDropped(a: string, b: string)
    requires a != [] && b != [] && '/' !in a && '/' !in b
    ensures FrameSegments("/" + a + "//" + b + "/") == [a, b]
  {
    var parts: seq<string> := ["", a, "", b, ""];
    assert Join(parts[4..], '/') == "";
    assert Join(parts[3..], '/') == b + "/";
    assert Join(parts[2..], '/') == "/" + b + "/";
    assert Join(parts[1..], '/') == a + "//" + b + "/";
    assert Join(parts, '/') == "/" + a + "//" + b + "/";
    FrameSegmentsOfJoin(parts);
    assert parts == [""] + [a] + [""] + [b] + [""];
    NonEmptyAppend([""] + [a] + [""] + [b], [""]);
    NonEmptyAppend([""] + [a] + [""], [b]);
    NonEmptyAppend([""] + [a], [""]);
    NonEmptyAppend([""], [a]);
  }

  /** `nodes.map(icon => ({id: icon.id, name: icon.name}))`. */
  function ToIcons(nodes: seq<Node>): (r: seq<Icon>)
    ensures |r| == |nodes|
    ensures forall i :: 0 <= i < |nodes| ==> r[i] == Icon(nodes[i].id, nodes[i].name, None)
  {
    if nodes == [] then [] else [Icon(nodes[0].id, nodes[0].name, None)] + ToIcons(nodes[1..])
  }

  /**
   * The node whose children are a page's icons: the page itself when no frame filter applies,
   * otherwise the child named by the last path segment of the node the other segments resolve to.
   */
  function IconParent(document: Node, pageName: string, frame: string): Result<Node, ExtractError>
  {
    match FindChild(document.children, pageName)
    case None => Err(PageNotFound(pageName))
    case Some(p) =>
      var page := document.children[p];
      if !ShouldGetFrame(frame) then Ok(page)
      else
        var segs := FrameSegments(frame);
        if segs == [] then Err(FrameNotFound(frame))
        else
          var frameRoot := Resolve(page, segs[..|segs| - 1]);
          match FindChild(frameRoot.children, segs[|segs| - 1])
          case None => Err(FrameNotFound(frame))
          case Some(f) => Ok(frameRoot.children[f])
  }

  /** What `fetchFrames` returns for one page: the deduplicated icon records, or why there are none. */
  function ExtractPage(document: Node, pageName: string, frame: string): Result<seq<Icon>, ExtractError>
  {
    match IconParent(document, pageName, frame)
    case Err(e) => Err(e)
    case Ok(parent) => Ok(Dedup(ToIcons(parent.children)))
  }

  /** `fetchFrames(pageName, res)` without the timing and console output. */
  method FetchFrames(document: Node, pageName: string, frame: string) returns (r: Result<seq<Icon>, ExtractError>)
    ensures r == ExtractPage(document, pageName, frame)
  {
    var p := FindChild(document.children, pageName);
    if p.None? {
      return Err(PageNotFound(pageName));
    }
    var page := document.children[p.value];
    var shouldGetFrame := ShouldGetFrame(frame);
    var iconsArray := page.children;
    if shouldGetFrame {
      var frameNameArr := FrameSegments(frame);
      if frameNameArr == [] {
        return Err(FrameNotFound(frame));
      }
      var frameName := frameNameArr[|frameNameArr| - 1];
      frameNameArr := frameNameArr[..|frameNameArr| - 1];
      var frameRoot := Resolve(page, frameNameArr);
      var f := FindChild(frameRoot.children, frameName);
      if f.None? {
        return Err(FrameNotFound(frame));
      }
      iconsArray := frameRoot.children[f.value].children;
    }
    var icons := ToIcons(iconsArray);
    icons := FindDuplicates(icons);
    return Ok(icons);
  }

  /**
   * Extraction fails exactly when the page is missing, or a frame filter applies and the last
   * segment of the frame path names no direct child of the node the other segments resolve to.
   */
  lemma ExtractPageFails(document: Node, pageName: string, frame: string)
    ensures ExtractPage(document, pageName, frame).Err? <==>
      || FindChild(document.children, pageName).None?
      || (&& ShouldGetFrame(frame)
          && var page := document.children[FindChild(document.children, pageName).value];
             var segs := FrameSegments(frame);
             segs == [] || FindChild(Resolve(page, segs[..|segs| - 1]).children, segs[|segs| - 1]).None?)
    ensures FindChild(document.children, pageName).None? ==>
      ExtractPage(document, pageName, frame) == Err(PageNotFound(pageName))
  {
  }

  /**
   * A successful extraction lists the parent's children in order: same count, same ids, no image
   * yet, and each name kept or suffixed by the deduplication rule.
   */
  lemma {:induction false} ExtractedShape(document: Node, pageName: string, frame: string)
    requires IconParent(document, pageName, frame).Ok?
    ensures var parent := IconParent(document, pageName, frame).value;
            var icons := ExtractPage(document, pageName, frame).value;
            && |icons| == |parent.children|
            && forall i :: 0 <= i < |icons| ==>
                 && icons[i].id == parent.children[i].id
                 && icons[i].image.None?
                 && icons[i].name ==
                    (if TakenBefore(icons, i, parent.children[i].name)
                     then parent.children[i].name + Suffix
                     else parent.children[i].name)
  {
    var parent := IconParent(document, pageName, frame).value;
    DedupShape(ToIcons(parent.children));
  }

  /** Without a frame filter the icons are the page's direct children. */
  lemma NoFilterTakesPageChildren(document: Node, pageName: string, frame: string)
    requires FindChild(document.children, pageName).Some?
    requires !ShouldGetFrame(frame)
    ensures ExtractPage(document, pageName, frame) ==
      Ok(Dedup(ToIcons(document.children[FindChild(document.children, pageName).value].children)))
  {
  }

  /** When every segment of the frame path is found, the icons are the children of the node at its end. */
  lemma {:induction false} FramePathFollowed(document: Node, pageName: string, frame: string)
    requires FindChild(document.children, pageName).Some?
    requires ShouldGetFrame(frame)
    requires var page := document.children[FindChild(document.children, pageName).value];
             Walk(page, FrameSegments(frame)).Some?
    requires FrameSegments(frame) != []
    ensures var page := document.children[FindChild(document.children, pageName).value];
            ExtractPage(document, pageName, frame) ==
              Ok(Dedup(ToIcons(Walk(page, FrameSegments(frame)).value.children)))
  {
    var page := document.children[FindChild(document.children, pageName).value];
    LastSegmentFound(page, FrameSegments(frame));
    assert IconParent(document, pageName, frame) == Ok(Walk(page, FrameSegments(frame)).value);
  }

  /**
   * `output.flat()` followed by the URL step: the icon lists of all pages, concatenated in order,
   * or the first failure, since a page without icons leaves an `undefined` entry that stops the run.
   */
  function Flatten(results: seq<Result<seq<Icon>, ExtractError>>): Result<seq<Icon>, ExtractError>
  {
    if results == [] then Ok([])
    else
      match results[0]
      case Err(e) => Err(e)
      case Ok(icons) =>
        match Flatten(results[1..])
        case Err(e) => Err(e)
        case Ok(rest) => Ok(icons + rest)
  }

  /** The per-page results, in the configured page order. */
  function PageResults(document: Node, pages: seq<string>, frame: string): (rs: seq<Result<seq<Icon>, ExtractError>>)
    ensures |rs| == |pages|
    ensures forall j :: 0 <= j < |pages| ==> rs[j] == ExtractPage(document, pages[j], frame)
  {
    if pages == [] then [] else [ExtractPage(document, pages[0], frame)] + PageResults(document, pages[1..], frame)
  }

  /** One more page appends that page's result. */
  lemma PageResultsSnoc(document: Node, pages: seq<string>, i: int, frame: string)
    requires 0 <= i < |pages|
    ensures PageResults(document, pages[..i + 1], frame) ==
            PageResults(document, pages[..i], frame) + [ExtractPage(document, pages[i], frame)]
  {
    var a := PageResults(document, pages[..i + 1], frame);
    var b := PageResults(document, pages[..i], frame) + [ExtractPage(document, pages[i], frame)];
    assert |a| == |b|;
    forall j | 0 <= j < |a|
      ensures a[j] == b[j]
    {
      assert pages[..i + 1][j] == pages[j];
    }
  }

  /** What `getFigmaFile` resolves with: the `pages` list when it is non-empty, else the single `page`. */
  function FigmaFileIcons(document: Node, config: Config): Result<seq<Icon>, ExtractError>
  {
    if |config.pages| > 0 then Flatten(PageResults(document, config.pages, config.frame))
    else ExtractPage(document, config.page, config.frame)
  }

  /** `getFigmaFile` after the document has been fetched: the loop that collects each page's result. */
  method GetFigmaFile(document: Node, config: Config) returns (r: Result<seq<Icon>, ExtractError>)
    ensures r == FigmaFileIcons(document, config)
  {
    if |config.pages| > 0 {
      var output: seq<Result<seq<Icon>, ExtractError>> := [];
      for i := 0 to |config.pages|
        invariant output == PageResults(document, config.pages[..i], config.frame)
      {
        var icons := FetchFrames(document, config.pages[i], config.frame);
        PageResultsSnoc(document, config.pages, i, config.frame);
        output := output + [icons];
      }
      assert config.pages[..|config.pages|] == config.pages;
      r := Flatten(output);
    } else {
      r := FetchFrames(document, config.page, config.frame);
    }
  }

  /** The concatenation succeeds exactly when every page does, and then it is the pages' lists in order. */
  lemma {:induction false} FlattenAppend(a: seq<Result<seq<Icon>, ExtractError>>, b: seq<Result<seq<Icon>, ExtractError>>)
    ensures Flatten(a + b).Ok? <==> Flatten(a).Ok? && Flatten(b).Ok?
    ensures Flatten(a + b).Ok? ==> Flatten(a + b).value == Flatten(a).value + Flatten(b).value
  {
    if a != [] {
      assert (a + b)[0] == a[0];
      assert (a + b)[1..] == a[1..] + b;
      FlattenAppend(a[1..], b);
    } else {
      assert a + b == b;
    }
  }

  /** A run over several pages fails exactly when some page fails, and reports the first such page. */
  lemma {:induction false} FlattenOutcome(rs: seq<Result<seq<Icon>, ExtractError>>)
    ensures Flatten(rs).Ok? <==> forall j :: 0 <= j < |rs| ==> rs[j].Ok?
    ensures Flatten(rs).Err? ==>
      exists j :: 0 <= j < |rs| && rs[j] == Err(Flatten(rs).error) &&
                  forall k :: 0 <= k < j ==> rs[k].Ok?
  {
    if rs != [] {
      FlattenOutcome(rs[1..]);
      if rs[0].Ok? && Flatten(rs[1..]).Err? {
        var j :| 0 <= j < |rs[1..]| && rs[1..][j] == Err(Flatten(rs[1..]).error) &&
                 forall k :: 0 <= k < j ==> rs[1..][k].Ok?;
        assert rs[j + 1] == Err(Flatten(rs).error);
        assert forall k :: 0 <= k < j + 1 ==> rs[k].Ok? by {
          forall k | 0 <= k < j + 1 ensures rs[k].Ok? {
            if k > 0 {
              assert rs[1..][k - 1] == rs[k];
            }
          }
        }
      }
      if forall j :: 0 <= j < |rs| ==> rs[j].Ok? {
        assert forall j :: 0 <= j < |rs[1..]| ==> rs[1..][j].Ok? by {
          forall j | 0 <= j < |rs[1..]| ensures rs[1..][j].Ok? {
            assert rs[1..][j] == rs[j + 1];
          }
        }
      }
    }
  }

  /**
   * Deduplication is per page: with two configured pages whose icons are found, the run's list is
   * the first page's deduplicated icons followed by the second page's, each deduplicated on its own.
   */
  lemma PagesDeduplicatedSeparately(document: Node, config: Config, p1: string, p2: string)
    requires config.pages == [p1, p2]
    requires IconParent(document, p1, config.frame).Ok? && IconParent(document, p2, config.frame).Ok?
    ensures FigmaFileIcons(document, config) ==
            Ok(Dedup(ToIcons(IconParent(document, p1, config.frame).value.children)) +
               Dedup(ToIcons(IconParent(document, p2, config.frame).value.children)))
  {
    var ia := Dedup(ToIcons(IconParent(document, p1, config.frame).value.children));
    var ib := Dedup(ToIcons(IconParent(document, p2, config.frame).value.children));
    var rs := PageResults(document, [p1, p2], config.frame);
    assert rs[0] == Ok(ia) && rs[1] == Ok(ib);
    assert rs[1..][1..] == [];
    assert Flatten(rs[1..]) == Ok(ib + []);
    assert ib + [] == ib;
  }

  /**
   * An example of per-page deduplication: two pages that each hold one child with the same name
   * both keep that name in the concatenated list.
   */
  lemma CrossPageNamesNotDeduplicated(document: Node, p1: string, p2: string, frame: string)
    requires !ShouldGetFrame(frame)
    requires FindChild(document.children, p1).Some? && FindChild(document.children, p2).Some?
    requires var a := document.children[FindChild(document.children, p1).value];
             var b := document.children[FindChild(document.children, p2).value];
             |a.children| == 1 && |b.children| == 1 && a.children[0].name == b.children[0].name
    ensures var r := Flatten(PageResults(document, [p1, p2], frame));
            var a := document.children[FindChild(document.children, p1).value];
            r.Ok? && |r.value| == 2 && r.value[0].name == r.value[1].name == a.children[0].name
  {
    var a := document.children[FindChild(document.children, p1).value];
    var b := document.children[FindChild(document.children, p2).value];
    var rs := PageResults(document, [p1, p2], frame);
    var ia := Dedup(ToIcons(a.children));
    var ib := Dedup(ToIcons(b.children));
    DedupShape(ToIcons(a.children));
    DedupShape(ToIcons(b.children));
    assert ia[0].name == a.children[0].name;
    assert ib[0].name == b.children[0].name;
    assert rs[0] == Ok(ia) && rs[1] == Ok(ib);
    assert rs[1..][1..] == [];
    assert Flatten(rs[1..]) == Ok(ib + []);
    assert Flatten(rs) == Ok(ia + (ib + []));
  }
}
