/** The API-key gates of backend/app/dependencies.py, as decisions over the optional request
    header and the configured settings `require_api_key` and `api_key`. */
module Dependencies {
  import opened Wrappers
  import opened Schemas

  /** Python truthiness of an optional header value: absent and empty are both false. */
  predicate Present(header: Option<string>) {
    header.Some? && header.value != ""
  }

  /** `get_api_key`: None when no key is required; otherwise the header itself when it equals
      the configured key. */
  function GetApiKey(requireApiKey: bool, apiKey: Option<string>, header: Option<string>)
    : Result<Option<string>, HttpError>
  {
    if !requireApiKey then Success(None)
    else if !Present(header) then Failure(HttpError(Unauthorized, "API key required"))
    else if apiKey != Some(header.value) then Failure(HttpError(Unauthorized, "Invalid API key"))
    else Success(header)
  }

  /** `settings.api_key or "admin-secret-key"`. */
  function ExpectedAdminKey(apiKey: Option<string>): string {
    if apiKey.Some? && apiKey.value != "" then apiKey.value else "admin-secret-key"
  }

  /** `require_admin_key`. */
  function RequireAdminKey(apiKey: Option<string>, header: Option<string>): Result<string, HttpError> {
    var adminKey := ExpectedAdminKey(apiKey);
    if !Present(header) then Failure(HttpError(Unauthorized, "Admin API key required"))
    else if header.value != adminKey then Failure(HttpError(Forbidden, "Invalid admin API key"))
    else Success(header.value)
  }

  /** When no key is required, every request passes with no key, whatever its header. */
  lemma ApiKeyNotRequired(apiKey: Option<string>, header: Option<string>)
    ensures GetApiKey(false, apiKey, header) == Success(None)
  {
  }

  /** When a key is required: a missing or empty header is 401 "API key required"; any other
      header that differs from the configured key is 401 "Invalid API key"; an equal header is
      returned unchanged. With no key configured, every request is refused. */
  lemma ApiKeyRequired(apiKey: Option<string>, header: Option<string>)
    ensures !Present(header) ==> GetApiKey(true, apiKey, header) == Failure(HttpError(401, "API key required"))
    ensures Present(header) && apiKey != header ==>
      GetApiKey(true, apiKey, header) == Failure(HttpError(401, "Invalid API key"))
    ensures GetApiKey(true, apiKey, header).Success? <==> Present(header) && apiKey == header
    ensures GetApiKey(true, apiKey, header).Success? ==> GetApiKey(true, apiKey, header).value == header
    ensures apiKey.None? ==> GetApiKey(true, apiKey, header).Failure?
  {
  }

  /** The admin gate: a missing header is 401, a wrong one 403, and only the expected key (the
      configured one, or "admin-secret-key" when none or an empty one is configured) passes,
      returned unchanged. */
  lemma AdminKeyDecision(apiKey: Option<string>, header: Option<string>)
    ensures !Present(header) ==> RequireAdminKey(apiKey, header).Failure? && RequireAdminKey(apiKey, header).error.status == 401
    ensures Present(header) && header.value != ExpectedAdminKey(apiKey) ==>
      RequireAdminKey(apiKey, header).Failure? && RequireAdminKey(apiKey, header).error.status == 403
    ensures RequireAdminKey(apiKey, header).Success? <==> header == Some(ExpectedAdminKey(apiKey))
    ensures RequireAdminKey(apiKey, header).Success? ==> Some(RequireAdminKey(apiKey, header).value) == header
    ensures (apiKey.None? || apiKey == Some("")) ==> ExpectedAdminKey(apiKey) == "admin-secret-key"
  {
  }
}
