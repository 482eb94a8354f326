/** What a normalizer hands back: its extracted fields or the reason it
    rejected the locator. */
module Results {

  datatype Option<T> = None | Some(value: T)

  /** The columns a normalizer fills in. A column a normalizer does not
      produce stays empty, exactly as the output row's blank default is left
      untouched when the source merges a smaller dictionary into it. */
  datatype Fields = Fields(
    normalized: string,  // source_locator_normalized
    key: string,         // canonical_key
    fileKey: string,     // file_key (figma)
    nodeId: string,      // node_id (figma)
    pageId: string,      // page_id (notion)
    path: string,        // path (code)
    line: string         // line (code)
  )

  /** `(True, fields, "")` or `(False, {}, reason)`. */
  datatype Outcome = Ok(fields: Fields) | Err(reason: string)

  /** Fields of a normalizer that fills only the display form and the key. */
  function KeyFields(normalized: string, key: string): Fields
  {
    Fields(normalized, key, "", "", "", "", "")
  }
}
