/** The document as the engine sees it: element references and the four lookup primitives. */
module Dom {

  /** An element reference. `Null` is the `null` that an id lookup returns for an absent id;
      `Node(id)` is an element, compared by identity (`===`), i.e. by `id`. */
  datatype Elem = Null | Node(id: nat)

  /** A snapshot of the document's lookup primitives at one moment.
      `byId` answers `Null` for an absent id; `hasClassLookup` says whether
      `getElementsByClassName` exists in the host. */
  datatype Document = Document(
    byTag: string -> seq<Elem>,
    byClass: string -> seq<Elem>,
    byId: string -> Elem,
    query: string -> seq<Elem>,
    hasClassLookup: bool)
}
