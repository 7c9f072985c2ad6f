/**
 * The part of the cJSON library the bridge uses, kept abstract: the parse
 * tree type `J`, `cJSON_Parse` and `cJSON_GetObjectItem` are supplied by
 * the caller, so the model fixes nothing about how JSON text is parsed or
 * how keys are matched.
 */
module Json {
  import opened Wrappers
  import opened CStrings

  /** A node that `cJSON_GetObjectItem` found: a string node with its `valuestring`, or a node of any other type. */
  datatype Item = StringItem(valuestring: CString) | NonStringItem

  /**
   * `parse` is `cJSON_Parse` (None for a NULL result) and `getObjectItem`
   * is `cJSON_GetObjectItem` (None for a NULL result, a missing key).
   */
  datatype JsonLibrary<!J> = JsonLibrary(
    parse: CString -> Option<J>,
    getObjectItem: (J, string) -> Option<Item>)

  /** `cJSON_IsString`: false for a NULL item and for every non-string node. */
  predicate IsString(item: Option<Item>) {
    item.Some? && item.value.StringItem?
  }
}
