# figma-export icon pipeline, modelled in Dafny

This project models the name and tree handling of the icon-export command line tool
(`cli.js`). The tool fetches a design document and finds the icon nodes on the configured pages.
It deduplicates their names, attaches the image URLs, and downloads one file per icon. Finally it
writes an `icons.json` manifest that groups the downloaded names by group and style. The HTTP
calls, the disk and the terminal are not modelled: the fetched document tree and the id-to-URL
map are inputs, and a download is the planned file path and the name reported for it.

The modules follow the parts of `cli.js`:

- `Figma`: the entities, i.e. a document node `{id, name, children}`, an icon record
  `{id, name, image}` and the configuration fields the core reads.
- `Strings`: the JavaScript string operations used, i.e. `split`, `lastIndexOf`, `indexOf`,
  `replace` with a string pattern, `replace(/x/g, …)` for one character, and ASCII `toLowerCase`.
- `KeyOrder`: the default `Array.prototype.sort` order on strings, and the order in which a plain
  object lists its own keys. Array-index keys come first, in ascending numeric order; the other
  keys follow in creation order.
- `NameDeduplicator`: `findDuplicates`, which is a fold in which a record is renamed when its name
  is already carried by an earlier output record.
- `TreeResolver`: `getPathToFrame`, plus a strict walk used as its reference.
- `FrameSelector`: the `isNaN` / `parseInt(…) === -1` test that decides whether a frame filter
  applies. It covers the whole string-to-number grammar.
- `IconSetExtractor`: `fetchFrames` and the page loop of `getFigmaFile`.
- `ImageResolver`: the URL attachment of `getImages`, done in place on an array.
- `DownloadEngine`: the download filters, `removeFromName`, and the file stem, path and reported
  name of `downloadImage`.
- `ManifestBuilder`: `writeResults`, i.e. the `forEach` that fills the nested object, the
  `reduce` over the sorted keys, and the serialisation order of `JSON.stringify`.
- `ExportPipeline`: `exportIcons` and `exportImages` end to end. It also links every manifest
  entry to the file that was written.

The code that changes things step by step is written as methods. Each method is proved equal to
a specification function, and the properties are proved about those functions:

- `FindByName` and `FindDuplicates` for the fold with `acc.find`;
- `FetchFrames` and `GetFigmaFile` for the page loop;
- `GetImages` for the in-place `forEach` over an array;
- `CollectIcons`, `ReorderGroups` and `WriteResults` for the two loops of `writeResults`.

Where the written behaviour differs from the documented intent of the project, the model follows
the code:

- `frame` is one selector shared by every configured page. It is not a per-page setting.
- Any selector that converts to a number means "no filter": `""`, `" "`, `"1.5"`, `"0x10"` and
  `"-3"` included, not only non-negative integers. Any selector that `parseInt` reads as -1 also
  means "no filter", for example `"-1/Icons"`.
- A missing page or frame makes `fetchFrames` return nothing. The run then stops before any
  download, because `getImages` fails on the missing list. In the model this is an `Err` result.
- The first occurrence of a name is not always kept. A record is renamed when an earlier record
  was renamed into its name, so in `["a", "a", "a-duplicate-name"]` the third record is renamed
  although no earlier record had its incoming name. Names are not unique after deduplication
  either: three records named `"a"` give `"a"` and then `"a-duplicate-name"` twice.
- A space right after the last '/' of a name is kept, as '-'. So `"Nav / Home Icon"` gets a file
  stem starting with '-'.
- The image export skips every name that contains '_' anywhere, not only the names that start
  with '_'.
- The manifest's icon text removes every match of the regular expression `/.svg/g`, as written. A
  match is any character other than a line terminator followed by "svg", not only the ".svg"
  extension. The manifest names the downloaded file when "svg" does not occur in the last segment
  after its first character. Otherwise the link can break. For example, "Folder/Style/esvg" is
  written to "esvg.svg" but filed with the empty icon text. The intended icon text, which drops only the
  extension, is modelled beside it, and the link is proved for it without that condition (see
  "## Findings").

## Model

| member | source | states |
|---|---|---|
| NameDeduplicator.Step | cli.js:148-160 | one step of the reduce: the incoming record, with "-duplicate-name" appended to its name when an earlier output record carries that name; `DedupShape` and `RenamedOrKept` state it per record |
| NameDeduplicator.Dedup | cli.js:147-162 | the reduce: one output record per input record, in order; `DedupPrefix`, `DedupShape`, `RenamedIff` and `ExactlyRepeatsRenamed` state what it computes |
| NameDeduplicator.FindByName | cli.js:149-151 | finds a record exactly when some accumulated record carries the name, and returns the first such record |
| NameDeduplicator.FindDuplicates | cli.js:147-162 | the reduce returns the fold `Dedup`, whose properties the lemmas below state |
| NameDeduplicator.DedupPrefix | cli.js:148-161 | the fold never revisits its output: deduplicating a prefix gives the prefix of the result |
| NameDeduplicator.DedupShape | cli.js:147-162 | same length, order, ids and images; element i gets the suffix exactly when an earlier output element carries its incoming name |
| NameDeduplicator.RenamedOrKept | cli.js:158 | every output name is the incoming name, or that name plus "-duplicate-name", the latter exactly when the name was taken before |
| NameDeduplicator.RepeatIsRenamed | cli.js:148-159 | a record whose incoming name repeats an earlier incoming name is always renamed |
| NameDeduplicator.RenamedIff | cli.js:148-159 | states the renaming rule on incoming names only: a record is renamed iff an earlier record has its name, or was renamed into it |
| NameDeduplicator.ExactlyRepeatsRenamed | cli.js:147-162 | when no name is another name plus the suffix, exactly the second and later occurrences of a name are changed |
| NameDeduplicator.FirstOccurrenceKept | cli.js:147-162 | a record whose name no earlier record had, or was renamed into, is returned unchanged |
| NameDeduplicator.ThreeEqualNamesClash | cli.js:158 | three equal names give two equal renamed names, so the result can hold repeats |
| TreeResolver.FindChild | cli.js:168 | the position of the first child with the name; none exactly when no child has it |
| TreeResolver.Resolve | cli.js:164-171 | `getPathToFrame`: the node reached by following the path while its segments are found; `ResolveStopsAtMissing` and `ResolveFollowsWalk` state which node that is |
| TreeResolver.ResolveStopsAtMissing | cli.js:164-171 | the result is the node reached by the longest fully found prefix of the path, and the next segment names no child of it |
| TreeResolver.ResolveFollowsWalk | cli.js:164-171 | when every segment is found, the result is the node at the end of that chain |
| TreeResolver.WalkSnoc | cli.js:164-171 | following one more segment extends the chain by the first child with that name |
| TreeResolver.LastSegmentFound | cli.js:192-206 | when every segment is found, resolving all but the last segment and looking the last one up reaches the end of the chain |
| FrameSelector.IsNumeric | cli.js:188 | `!isNaN(frame)`: the trimmed selector is empty, a decimal literal or a non-decimal integer literal; `SlashIsNotNumeric` and `IntegerSelectorIsNoFilter` apply it |
| FrameSelector.ParsesToMinusOne | cli.js:188 | `parseInt(frame) === -1`: after leading white space, a '-' and a digit run worth 1; `MinusOnePrefixIsNoFilter` and `ValueOneIsZerosThenOne` characterise it |
| FrameSelector.ShouldGetFrame | cli.js:188 | whether a frame filter applies; `SlashSelectorIsPath`, `IntegerSelectorIsNoFilter`, `MinusOnePrefixIsNoFilter` and `PlainPathIsFilter` decide it for selectors |
| FrameSelector.SlashIsNotNumeric | cli.js:188 | a selector containing '/' never converts to a number |
| FrameSelector.SlashSelectorIsPath | cli.js:188 | a selector containing '/' selects a frame exactly when `parseInt` does not read it as -1 |
| FrameSelector.IntegerSelectorIsNoFilter | cli.js:188 | a digit string, optionally signed, converts to a number, so no frame filter applies |
| FrameSelector.NumberSelectorExamples | cli.js:188 | the selectors "3" and "-1" mean no frame filter |
| FrameSelector.MinusOnePrefixIsNoFilter | cli.js:188 | "-1" followed by anything but a digit parses to -1, so it means no frame filter |
| FrameSelector.ValueOneIsZerosThenOne | cli.js:188 | a digit run is worth 1 exactly when it is zeros followed by a single 1 |
| FrameSelector.PlainPathIsFilter | cli.js:188 | a selector with '/' that starts with neither white space nor '-' is a frame path |
| FrameSelector.PathSelectorExample | cli.js:188 | "Icons/Outline" is a frame path |
| IconSetExtractor.FrameSegments | cli.js:191 | the frame path segments are non-empty and hold no '/'; the lemmas below fix which segments and in what order |
| Strings.NonEmptyAppend | cli.js:191 | `filter(Boolean)` keeps the order of the pieces: it distributes over concatenation |
| Strings.NonEmptyAll | cli.js:191 | pieces that are all non-empty are kept unchanged |
| IconSetExtractor.FrameSegmentsOfJoin | cli.js:191 | the segments of pieces joined by '/' are the non-empty pieces, in order |
| IconSetExtractor.FrameSegmentsOfPath | cli.js:191-193 | a path of non-empty segments gives those segments back, so the last is the frame name and the others the path resolved |
| IconSetExtractor.EmptyPiecesDropped | cli.js:191 | leading, doubled and trailing '/' are ignored: "/a//b/" has the segments a and b |
| IconSetExtractor.ToIcons | cli.js:208-210 | one record per child, in child order, with the child's id and name and no image |
| IconSetExtractor.IconParent | cli.js:181-206 | the node whose children are the icons: the page without a filter, else the child named by the last frame segment under the node `getPathToFrame` reaches; a missing page or frame is an error; `ExtractPageFails`, `NoFilterTakesPageChildren` and `FramePathFollowed` state it |
| IconSetExtractor.ExtractPage | cli.js:173-213 | the deduplicated records of the parent's children, or the page or frame error; `ExtractPageFails` and `ExtractedShape` state it |
| IconSetExtractor.FetchFrames | cli.js:173-213 | the page lookup, frame filter, mapping and deduplication return the page's extraction result |
| IconSetExtractor.ExtractPageFails | cli.js:181-203 | extraction fails exactly when the page is missing, or a filter applies and the last segment names no child of the resolved prefix |
| IconSetExtractor.ExtractedShape | cli.js:204-211 | on success, the icons are the parent's children in order: same count and ids, no image, names kept or suffixed by the deduplication rule |
| IconSetExtractor.NoFilterTakesPageChildren | cli.js:188-189 | without a frame filter, the icons are the page's direct children, deduplicated |
| IconSetExtractor.FramePathFollowed | cli.js:190-206 | when every segment of the frame path is found, the icons are the children of the node at its end |
| IconSetExtractor.PageResults | cli.js:226-229 | one extraction result per configured page, in the configured order |
| IconSetExtractor.GetFigmaFile | cli.js:225-234 | the page loop returns the pages' results concatenated in order when `pages` is non-empty, else the single page's result |
| IconSetExtractor.Flatten | cli.js:226-230 | `output.flat()` and the step that fails on an undefined entry: the lists in order, or the first error; `FlattenAppend` and `FlattenOutcome` state it |
| IconSetExtractor.FigmaFileIcons | cli.js:214-234 | the `pages` list flattened when it is non-empty, else the single page's result; `GetFigmaFile` is proved equal to it |
| IconSetExtractor.FlattenAppend | cli.js:230 | concatenating results succeeds iff both parts do, and then gives both icon lists in order |
| IconSetExtractor.FlattenOutcome | cli.js:230 | a multi-page run fails iff some page fails, and reports the first failing page |
| IconSetExtractor.PagesDeduplicatedSeparately | cli.js:226-230 | with two pages whose icons are found, the run's list is each page's own deduplicated list, concatenated in page order |
| IconSetExtractor.CrossPageNamesNotDeduplicated | cli.js:225-230 | an example of per-page deduplication: two pages that each hold one child, both with the same name, keep that name twice |
| ImageResolver.ImageFor | cli.js:265 | `images[icon.id]`: the URL the map gives for the id, absent when it gives none; `WithImages` applies it |
| ImageResolver.WithImages | cli.js:264-266 | same count, order, ids and names; each image is the map's entry for the icon's id, absent when there is none |
| ImageResolver.GetImages | cli.js:263-266 | the in-place `forEach` leaves the array equal to the icons with their images attached |
| ImageResolver.WithImagesAppend | cli.js:264-266 | attaching URLs to concatenated page lists is attaching them page by page |
| Strings.RemoveFirst | cli.js:360-362 | deletes the first occurrence of the configured substring, and leaves the name unchanged when it does not occur |
| Strings.RemoveEmpty | cli.js:360-362 | removing the empty substring leaves every name unchanged |
| Strings.JoinSplit | cli.js:435-436 | splitting on '/' and joining back gives the name again |
| Strings.Split | cli.js:435-436 | `split("/")`: one more piece than there are separators, none holding the separator; `JoinSplit` and `SplitJoin` make it the inverse of `Join` |
| Strings.SplitJoin | cli.js:436-438 | splitting segments joined by '/' gives the segments back when none holds '/' |
| Strings.LastIndexOf | cli.js:280 | the last position of '/', or -1 exactly when there is none |
| DownloadEngine.IconNameHasSlash | cli.js:378 | the icon filter `split("/").length > 1` keeps exactly the names containing '/' |
| DownloadEngine.IsIconName | cli.js:378 | `name.split("/").length > 1`; `IconNameHasSlash` proves it holds exactly for names containing '/' |
| DownloadEngine.SelectIcons | cli.js:371-379 | keeps exactly the icons whose name has more than one segment |
| DownloadEngine.SelectIconsAppend | cli.js:371-379 | the icon filter keeps list order |
| DownloadEngine.IsImageName | cli.js:411 | `!name.includes("_")`: the name holds no '_' |
| DownloadEngine.SelectImages | cli.js:410-411 | keeps exactly the icons whose name has no '_' |
| DownloadEngine.SelectImagesAppend | cli.js:410-411 | the image filter keeps list order |
| DownloadEngine.FileStem | cli.js:278-288 | with a '/', the stem is the text after the last '/' with ' ' turned into '-' and lower-cased; without one, the name unchanged; never a '/' |
| DownloadEngine.StemIsSanitized | cli.js:284-288 | the stem of a name with '/' has no space and no upper-case letter |
| DownloadEngine.DirectoryDiscarded | cli.js:280-288 | the group and style part of a name does not affect the stem |
| DownloadEngine.StemOfLastSegment | cli.js:280-288 | the stem of "dir/segment" is the segment with spaces turned into '-', lower-cased |
| DownloadEngine.LeadingSpaceKept | cli.js:284-287 | a space right after the last '/' becomes a leading '-' of the stem |
| DownloadEngine.DownloadLandsInRoot | cli.js:276-326 | every file is written directly in the icons directory as "stem.format"; the reported name is the name plus ".format" |
| DownloadEngine.DownloadImage | cli.js:276-326 | the path "iconsPath/stem.format" and the reported name "name.format"; `DownloadLandsInRoot` states it |
| DownloadEngine.PlanIconDownloads | cli.js:371-385 | one SVG download per icon the filter keeps, in list order; `IconDownloadsPlanned` states each one |
| DownloadEngine.PlanImageDownloads | cli.js:410-418 | one PNG download per icon the filter keeps, in list order; `ImageDownloadsPlanned` states each one |
| DownloadEngine.IconDownloadsPlanned | cli.js:371-385 | the k-th icon download fetches the icon's URL into "iconsPath/stem.svg" (the path starts with the icons directory, and its last '/' is the one right after it) and reports its name, after `removeFromName`, plus ".svg" |
| DownloadEngine.ImageDownloadsPlanned | cli.js:410-418 | the k-th image download has a name without '_', fetches its URL into "iconsPath/stem.png" (the path starts with the icons directory, and its last '/' is the one right after it) and reports the name plus ".png" |
| KeyOrder.LtIrreflexive | cli.js:455 | no string sorts before itself |
| KeyOrder.LtTransitive | cli.js:455 | the string order of `sort()` is transitive |
| KeyOrder.LtTotal | cli.js:455 | any two different strings are ordered one way or the other |
| KeyOrder.SortBy | cli.js:455 | `sort()` returns its input sorted and as a permutation |
| KeyOrder.JsOwnKeys | cli.js:463 | the own-key order is a permutation of the creation order |
| KeyOrder.JsOwnKeysOrder | cli.js:463 | array-index keys come before all other keys, in ascending numeric order |
| KeyOrder.KeysWhere | cli.js:463 | the keys of one kind, array indices or not, in creation order, never more than there are keys; `KeysWhereMembers`, `KeysWhereAppend` and `KeysWhereSplits` state it |
| KeyOrder.KeysWhereAppend | cli.js:463 | taking the keys of one kind keeps their relative order: it distributes over concatenation |
| KeyOrder.KeysWhereMembers | cli.js:463 | the keys taken for one kind are exactly the keys of that kind |
| KeyOrder.KeysWhereDistinct | cli.js:463 | distinct keys stay distinct when one kind is taken |
| KeyOrder.JsOwnKeysAppendOther | cli.js:463 | creating a key that is not an array index lists it after every key created before it: such keys keep their creation order |
| KeyOrder.OthersKeepOrder | cli.js:463 | when the keys were created in sorted string order, the keys that are not array indices are listed in sorted string order |
| KeyOrder.NoIndexKeysKeepOrder | cli.js:463 | without array-index keys, the own-key order is the creation order |
| KeyOrder.JsOwnKeysDistinct | cli.js:463 | own-key order lists no key twice |
| ManifestBuilder.Set | cli.js:444-451 | assigning a key adds a new key at the end of the creation order, and keeps the place of an existing key |
| ManifestBuilder.StripSvgAsWritten | cli.js:440 | `replace(/.svg/g, "")` as written: never longer than its input; `StripSvgAgrees` and `StripSvgAsWrittenMangles` state where it removes just the extension and where it removes more |
| ManifestBuilder.StripSvgAsWrittenMangles | cli.js:440 | the regular expression as written turns "esvg.svg" into "" where the intended result is "esvg" |
| ManifestBuilder.StripExtension | cli.js:440 | drops a trailing ".svg", and nothing otherwise |
| ManifestBuilder.StripSvgAgrees | cli.js:440 | where "svg" occurs nowhere after the first character of a name, the expression as written equals dropping the extension |
| ManifestBuilder.IconText | cli.js:439-443 | the icon text as written: the segment with every `/.svg/g` match removed, then each ' ' and '/' turned into '-' and each letter lower-cased, character by character; so no space, no '/' and no upper-case letter |
| ManifestBuilder.IconTextOfDownload | cli.js:439-443 | when "svg" does not occur in the segment after its first character, the icon text of "segment.svg" is the segment with spaces turned into '-', lower-cased |
| ManifestBuilder.IconTextLostAsWritten | cli.js:440 | the segment "<c>svg.svg" gets the empty icon text |
| ManifestBuilder.IntendedIconText | cli.js:439-443 | the intended icon text: the segment without its ".svg" extension, then each ' ' and '/' turned into '-' and each letter lower-cased, character by character; so no space, no '/' and no upper-case letter |
| ManifestBuilder.IntendedIconTextOfDownload | cli.js:439-443 | with the intended icon text, every "segment.svg" gives the segment with spaces turned into '-', lower-cased |
| ManifestBuilder.EntryOf | cli.js:435-438 | a name is filed exactly when it has two '/', under its first and second segments |
| ManifestBuilder.EntryOfJoined | cli.js:435-443 | "group/style/segment" is filed under that group and style with the segment's icon text |
| ManifestBuilder.ForEachBody | cli.js:444-451 | creating the group and style when missing, then pushing the icon text, has the effect of one `AddIcon` step |
| ManifestBuilder.AddIconLookup | cli.js:444-451 | one step appends the icon text under its own group and style and changes no other list |
| ManifestBuilder.AddIconGroups | cli.js:444-451 | one step adds the entry's group when missing and removes no group or style |
| ManifestBuilder.AddIcon | cli.js:444-451 | one name filed: its group and style created when missing, its icon text pushed; the object stays well formed; `AddIconLookup` and `AddIconGroups` state the change |
| ManifestBuilder.Collect | cli.js:434-452 | the object the `forEach` builds, always well formed; `CollectLookup`, `CollectGroups` and `CollectGroupsNonEmpty` state its contents |
| ManifestBuilder.CollectIcons | cli.js:434-452 | the `forEach` fills the object that `Collect` describes, filing each name under its group, style and as-written icon text |
| ManifestBuilder.CollectLookup | cli.js:435-452 | a group and style hold a list exactly when some name is filed under both, and it lists those names' icon texts in input order |
| ManifestBuilder.CollectGroups | cli.js:435-452 | the object holds exactly the groups some name is filed under |
| ManifestBuilder.CollectGroupsNonEmpty | cli.js:444-451 | every collected group holds at least one style |
| ManifestBuilder.Reorder | cli.js:456-459 | the reduce creates the groups in the order of the keys, each with its original value |
| ManifestBuilder.ReorderGroups | cli.js:454-459 | the reduce loop builds the reordered object |
| ManifestBuilder.SortedGroups | cli.js:454-455 | the group keys, sorted and without repeats, and exactly the object's keys |
| ManifestBuilder.OwnKeysCover | cli.js:463 | the serialisation lists every key of an object and no other |
| ManifestBuilder.StyleListAt | cli.js:463 | the j-th serialised style is the j-th own key with its icon list |
| ManifestBuilder.SerializeAt | cli.js:463 | the i-th serialised group is the i-th own key with its styles |
| ManifestBuilder.StyleList | cli.js:463 | `JSON.stringify` of one group: one entry per style key; `StyleListAt` states each entry |
| ManifestBuilder.Serialize | cli.js:463 | `JSON.stringify` of the reordered object: one entry per group key; `SerializeAt` states each entry |
| ManifestBuilder.Manifest | cli.js:433-463 | what `writeResults` writes for the downloaded names; `ManifestNames`, `ManifestGroupOrder`, `ManifestGroups`, `GroupStyles` and `ManifestStyles` state it |
| ManifestBuilder.WriteResults | cli.js:433-463 | the method writes the manifest that `Manifest` describes, with the as-written icon text, whose properties the lemmas below state |
| ManifestBuilder.ManifestNames | cli.js:454-463 | the manifest lists the groups in own-key order of the sorted group keys |
| ManifestBuilder.ManifestGroupOrder | cli.js:454-463 | no group twice; array-index groups first, ascending; every other group after them in increasing string order |
| ManifestBuilder.ManifestGroups | cli.js:433-463 | the manifest holds exactly the groups some three-segment name is filed under |
| ManifestBuilder.GroupStyles | cli.js:444-463 | a group's styles are distinct and non-empty, each lists its names' icon texts in input order, and every filed style appears |
| ManifestBuilder.ManifestStyles | cli.js:433-463 | each manifest group has at least one style, no style twice, each style's icon texts in input order, and every style filed under it |
| ExportPipeline.Names | cli.js:387-392 | the names `Promise.all` reports, one per download, in order, which `writeResults` receives |
| ExportPipeline.ExportIcons | cli.js:363-392 | succeeds iff extraction does, with the same error otherwise; the downloads are those planned for the extracted icons with their URLs, one per selected icon, and the manifest is the one for their reported names |
| ExportPipeline.ExportImages | cli.js:403-418 | succeeds iff extraction does, with the same error otherwise; the downloads are the PNG downloads planned for the extracted icons with their URLs, at most one per icon |
| ExportPipeline.SelectIconsKeepsCount | cli.js:371-379 | attaching URLs does not change how many icons the filter keeps |
| ExportPipeline.ThreeSegments | cli.js:435-436 | a name with two '/' has three segments and is their join |
| ExportPipeline.SlashesOfReportedName | cli.js:324 | the reported name has as many '/' as the name given to the download |
| ExportPipeline.SvgDownload | cli.js:299-326 | the SVG download's path and reported name both end in ".svg" |
| ExportPipeline.LastSegment | cli.js:280-285 | the text after the last '/', without '/', and the name is what comes before it, '/', and this text |
| ExportPipeline.EntryNamesDownloadedFile | cli.js:433-443 | for a three-segment name whose last segment holds no "svg" after its first character, the manifest's icon text names the file that was written: "iconsPath/icon.svg" |
| ExportPipeline.LinkBrokenAsWritten | cli.js:433-443 | "group/style/<c>svg" is written to a file with a four-character stem, but the manifest files it with the empty icon text |
| ExportPipeline.IntendedEntryNamesDownloadedFile | cli.js:433-443 | with the intended icon text, every three-segment name's download is "iconsPath/<intended icon text of its third reported segment>.svg" |
| ExportPipeline.ManifestMatchesDownloads | cli.js:371-392 | every icon download that the manifest files, and whose last segment holds no "svg" after its first character, wrote "iconsPath/icon text.svg" |
| ExportPipeline.AddFirstIcon | cli.js:444-451 | the first name creates its group and style with a one-element list |
| ExportPipeline.AddSecondIcon | cli.js:444-451 | a second name under the same group and style is appended to the same list |
| ExportPipeline.CollectOfOneStyle | cli.js:435-452 | two names under one group and style give one group, one style, both icon texts in order |
| ExportPipeline.StyleListOfOne | cli.js:463 | an object of one style serialises to that style |
| ExportPipeline.SerializeOfOne | cli.js:454-463 | an object of one group sorts, reorders and serialises to that group |
| ExportPipeline.ManifestOfOneStyle | cli.js:433-463 | two names filed under one group and style, such as "Folder/Style/plus.svg" and "Folder/Style/plus-duplicate-name.svg", give one group holding one style with both icon texts in order |

## Left out

- The Figma HTTP requests (document and image URLs) are not modelled. The fetched document and the id-to-URL map are inputs, so the malformed query string of the URL request is outside the model.
- Downloading is not modelled: the axios stream, the file write, `fs.statSync` sizes and the `size` field of a result. A download is its URL, path and reported name. A missing URL is kept as an absent value; what the fetch then does is not modelled.
- The filesystem is not modelled: `createOutputDirectory`, `mkdirp`, `deleteIcon`, `deleteDirectory`, `deleteIcons`, and the `icons.json` write. The manifest is modelled as the value serialised, not as JSON text.
- `path.resolve` normalisation of the file path is not modelled. The path is "iconsPath/stem.format" as a string.
- Configuration loading, prompts, `.gitignore` handling, the command dispatch and every `process.exit` are not modelled. Configuration values are assumed to be strings.
- Spinner, chalk, console output, `makeResultsTable` and `formatSize` are not modelled; `formatSize` uses floating point.
- The concurrency of `Promise.all` is not modelled. Downloads are a sequential map over the filtered list, in list order, which is the order `Promise.all` reports them in.
- `findDuplicates` renames the record object in place; the model returns renamed copies. Records carry only `id`, `name` and `image`.
- `toLowerCase` is modelled for ASCII letters only, and string order compares characters rather than UTF-16 code units.
- The regular expression `.` matches one UTF-16 code unit; the model matches one character, so the two differ for characters outside the Basic Multilingual Plane.
- Keys inherited from `Object.prototype` (for example a group named "constructor") are not modelled. The model treats `results` as having no keys but its own.
- Document nodes without a `children` list are modelled as nodes with no children. In the source, a frame path whose last segment names such a leaf sets `iconsArray` to `undefined`, so `iconsArray.map` throws and the run stops with no download and no manifest; a leaf in the middle of the path throws in `getPathToFrame`. The model instead extracts an empty icon list there, so that crash is not modelled.
- `removeFromName` is modelled with a string pattern only; a non-string configuration value is not modelled.
- ManifestBuilder.GroupStyles: does not state the order of the styles inside a group, which is the own-key order of their first appearance; only membership, distinctness and the icon lists are proved.
- ManifestBuilder.ManifestStyles: does not state the order of the styles inside a group, for the same reason.

## Findings

| source | as written | input that shows it | evidently intended | confidence | as-written member | corrected member |
|---|---|---|---|---|---|---|
| cli.js:440 | `replace(/.svg/g, "")` removes every character that is not a line terminator when "svg" follows it | the download name "Folder/Style/esvg" is reported as "Folder/Style/esvg.svg"; its icon text becomes "" instead of "esvg" | drop only the trailing ".svg" that the download appended | high, not executed | ExportPipeline.LinkBrokenAsWritten | ManifestBuilder.IntendedIconText |
