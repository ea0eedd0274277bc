/**
 The paste document of server/models/Paste.js: four schema fields with their
 defaults. Dates are integer milliseconds since the epoch; `null` is `None`.
 */
module PasteSchema {
  import opened Wrappers

  /** The store-assigned identifier (`_id`), abstracted to a number. */
  type Id = nat

  datatype Paste = Paste(
    content: string,           // required String
    maxViews: Option<int>,     // Number, default null (unlimited)
    currentViews: nat,         // Number, default 0, only ever incremented
    expiresAt: Option<int>     // Date, default null (no time limit)
  )

  /** Schema validation failure: the required `content` is missing. */
  datatype SchemaError = ContentRequired

  /** Mongoose's `required` check for a String: present and not the empty string. */
  predicate HasContent(content: Option<string>)
  {
    content.Some? && content.value != ""
  }

  /**
   Builds the document `Paste.create` stores: validation of the required field,
   then the defaults for `currentViews`; absent optional fields stay `null`.
   */
  function NewPaste(content: Option<string>, maxViews: Option<int>, expiresAt: Option<int>): (r: Result<Paste, SchemaError>)
    ensures r.Success? <==> HasContent(content)
    ensures r.Success? ==>
              && r.value.content == content.value
              && r.value.maxViews == maxViews
              && r.value.expiresAt == expiresAt
              && r.value.currentViews == 0
  {
    if !HasContent(content) then Failure(ContentRequired)
    else Success(Paste(content.value, maxViews, 0, expiresAt))
  }
}
