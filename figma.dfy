/** The entities the export pipeline works on: the fetched document tree, the icon records and the run configuration. */
module Figma {
  import opened Wrappers

  /** A node of the fetched design document: the document itself, a page, a frame, a group or a leaf. */
  datatype Node = Node(id: string, name: string, children: seq<Node>)

  /** An icon record `{id, name, image}`; `image` is absent until the URL lookup has run. */
  datatype Icon = Icon(id: string, name: string, image: Option<string>)

  /**
   * The part of the configuration file the core reads.
   * `pages` takes precedence over `page` when it is non-empty; `frame` is one selector shared by every page.
   */
  datatype Config = Config(
    page: string,
    pages: seq<string>,
    frame: string,
    iconsPath: string,
    removeFromName: string)
}
