/**
 * Model of the field validators of `Settings` in src/config.py. Each one
 * either hands back the value it was given or rejects it with the message the
 * `ValueError` carries.
 */
module Config {
  import opened Wrappers

  const DefaultBaseUrl: string := "https://open.bigmodel.cn/api/paas/v4"
  const DefaultFromEmail: string := "test@example.com"
  const DefaultIndexKind: string := "basic"

  const AllowedKinds: seq<string> := ["basic", "advanced"]

  /** `v.startswith(("http://", "https://"))`. */
  predicate HasWebScheme(v: string) {
    "http://" <= v || "https://" <= v
  }

  /** `validate_base_url`. */
  function ValidateBaseUrl(v: string): (r: Result<string, string>)
    ensures r.Ok? <==> (|v| >= 7 && v[..7] == "http://") || (|v| >= 8 && v[..8] == "https://")
    ensures r.Ok? ==> r.value == v
  {
    if !HasWebScheme(v) then Err("GLM base URL must start with http:// or https://") else Ok(v)
  }

  /** `validate_email`: both characters must occur somewhere, in either order. */
  function ValidateEmail(v: string): (r: Result<string, string>)
    ensures r.Ok? <==> (exists i | 0 <= i < |v| :: v[i] == '@') && (exists j | 0 <= j < |v| :: v[j] == '.')
    ensures r.Ok? ==> r.value == v
  {
    if '@' !in v || '.' !in v then Err("Invalid email format") else Ok(v)
  }

  /** `validate_index_kind`. */
  function ValidateIndexKind(v: string): (r: Result<string, string>)
    ensures r.Ok? <==> v == "basic" || v == "advanced"
    ensures r.Ok? ==> r.value == v
  {
    if v !in AllowedKinds then Err("Index kind must be one of ['basic', 'advanced']") else Ok(v)
  }

  /** The default values pass their validators. */
  lemma DefaultsValid()
    ensures ValidateBaseUrl(DefaultBaseUrl) == Ok(DefaultBaseUrl)
    ensures ValidateEmail(DefaultFromEmail) == Ok(DefaultFromEmail)
    ensures ValidateIndexKind(DefaultIndexKind) == Ok(DefaultIndexKind)
  {
    assert "https://" <= DefaultBaseUrl;
    assert DefaultFromEmail[4] == '@' && DefaultFromEmail[12] == '.';
  }

  /** The email check does not look at order: a dot before the at sign passes. */
  lemma EmailOrderUnchecked()
    ensures ValidateEmail(".@").Ok?
  {
    assert ".@"[1] == '@';
  }
}
