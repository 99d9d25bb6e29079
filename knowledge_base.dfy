/**
 * The knowledge base as the matching engine sees it. Every Black Duck
 * request is replaced by an oracle: a name search that yields the component
 * URLs of the hits on the first result page, and a component fetch that
 * yields the component's name, source URL and version list. A failed request
 * and an empty result page are both an empty hit list; a failed component or
 * version-list request is `None`.
 */
module KnowledgeBase {

  datatype Option<T> = None | Some(value: T)

  /** One entry of a component's version list: `versionName` and `_meta.href`. */
  datatype KBVersion = KBVersion(versionName: string, url: string)

  /** A component: its `name`, its source `url` and its version list, in KB order. */
  datatype Component = Component(name: string, sourceUrl: string, versions: seq<KBVersion>)

  datatype Oracle = Oracle(search: string -> seq<string>, fetch: string -> Option<Component>)
}
