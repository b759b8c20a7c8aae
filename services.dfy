/** The local services override file `<siteDir>/services.local.yml` and
    what `updateServicesFile` makes of it. The YAML text itself is not
    modelled: a document is the top-level mapping the YAML parser returns,
    and its values are an abstract YAML value. */
module Services {

  /** A parsed YAML value. */
  datatype Value =
    | Null
    | Bool(b: bool)
    | Int(i: int)
    | Str(s: string)
    | List(items: seq<Value>)
    | Mapping(entries: map<string, Value>)

  /** A services document: its top-level keys and their values. */
  type Document = map<string, Value>

  /** The fixed debug fragment: response cacheability headers on, Twig
      debugging on and caching off, and a null cache backend service. */
  function DebugFragment(): (d: Document)
    ensures d.Keys == {"parameters", "services"}
  {
    map[
      "parameters" := Mapping(map[
        "http.response.debug_cacheability_headers" := Bool(true),
        "twig.config" := Mapping(map[
          "cache" := Bool(false),
          "debug" := Bool(true),
          "auto_reload" := Bool(true)])]),
      "services" := Mapping(map[
        "cache.backend.null" := Mapping(map[
          "class" := Str("Drupal\\Core\\Cache\\NullBackendFactory")])])
    ]
  }

  /** PHP array union `left + right`: every key of either operand, with
      the left operand's value wherever both have the key. Only the top
      level is merged; values are never combined. */
  function Union(left: Document, right: Document): (r: Document)
    ensures r.Keys == left.Keys + right.Keys
    ensures forall k :: k in left ==> r[k] == left[k]
    ensures forall k :: k in right && k !in left ==> r[k] == right[k]
  {
    right + left
  }

  /** The document `updateServicesFile` writes: the fragment united with
      what the file held (nothing when it did not exist). */
  function ServicesAfterUpdate(present: bool, existing: Document): Document
  {
    Union(DebugFragment(), if present then existing else map[])
  }

  // ---------------------------------------------------------------- lemmas

  /** The written document has the fragment's two keys with the fragment's
      values, whatever the file held under them, and keeps every other
      top-level key of the file unchanged; it has no other keys. */
  lemma UpdateMergesTopLevel(present: bool, existing: Document)
    ensures var r := ServicesAfterUpdate(present, existing);
      && r.Keys == {"parameters", "services"} + (if present then existing.Keys else {})
      && r["parameters"] == DebugFragment()["parameters"]
      && r["services"] == DebugFragment()["services"]
      && (present ==> forall k :: k in existing && k !in DebugFragment() ==> r[k] == existing[k])
  {
  }

  /** The merge is shallow: parameters of the file that the fragment does
      not list are lost, not merged in. */
  lemma UpdateIsShallow(existing: Document, name: string)
    requires "parameters" in existing && existing["parameters"].Mapping?
    requires name in existing["parameters"].entries
    requires name !in DebugFragment()["parameters"].entries
    ensures var r := ServicesAfterUpdate(true, existing);
      r["parameters"].Mapping? && name !in r["parameters"].entries
  {
  }

  /** Updating an already updated file changes nothing. */
  lemma UpdateIsIdempotent(present: bool, existing: Document)
    ensures ServicesAfterUpdate(true, ServicesAfterUpdate(present, existing))
            == ServicesAfterUpdate(present, existing)
  {
  }

  /** An unrelated key survives next to the fragment: a file holding only
      `foo: bar` becomes `foo: bar` plus the fragment's two keys. */
  lemma UpdateKeepsUnrelatedKey()
    ensures ServicesAfterUpdate(true, map["foo" := Str("bar")])
            == DebugFragment()["foo" := Str("bar")]
  {
  }
}
