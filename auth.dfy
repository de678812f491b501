/**
 * `validateApiKey` of src/lib/auth.ts: the X-API-Key gate in front of the
 * protected handlers. The configured key (the API_KEY environment variable)
 * and the header are both inputs.
 */
module Auth {
  import opened Wrappers

  const KeyRequired := "Unauthorized: API key is required. Provide X-API-Key header."
  const KeyInvalid := "Unauthorized: Invalid API key."

  /** `None` lets the request through; `Some(message)` is the 401 it gets. */
  function ValidateApiKey(header: Option<string>, configured: Option<string>): Option<string> {
    if configured.None? || configured.value == [] then None
    else if header.None? || header.value == [] then Some(KeyRequired)
    else if header.value != configured.value then Some(KeyInvalid)
    else None
  }

  /** Who may pass: anyone when no key is configured, otherwise only a header
      equal to the key character for character (case included). */
  predicate Allowed(header: Option<string>, configured: Option<string>) {
    configured.None? || configured.value == [] || header == configured
  }

  /** The gate lets through exactly the allowed requests; a refusal names a
      missing key when the header is absent or empty and an invalid key
      otherwise. */
  lemma ValidateApiKeySpec(header: Option<string>, configured: Option<string>)
    ensures ValidateApiKey(header, configured).None? <==> Allowed(header, configured)
    ensures ValidateApiKey(header, configured) == Some(KeyRequired) <==>
      !Allowed(header, configured) && (header.None? || header.value == [])
    ensures ValidateApiKey(header, configured) == Some(KeyInvalid) <==>
      !Allowed(header, configured) && header.Some? && header.value != []
  {
  }
}
