/** `mask_email` and `sanitize_dict` of backend/app/utils/helpers.py. */
module Helpers {
  import opened Wrappers
  import opened Text
  import opened Schemas

  // ================================================================ mask_email

  /** The masked form of the part before '@'. */
  function MaskUsername(username: string): string {
    if |username| <= 3 then Repeat('*', |username|)
    else username[..2] + Repeat('*', |username| - 3) + [username[|username| - 1]]
  }

  /** `mask_email`. */
  function MaskEmail(email: string): string {
    var parts := Split(email, '@');
    if |parts| != 2 then "***"
    else MaskUsername(parts[0]) + "@" + parts[1]
  }

  /** An address without exactly one '@' is masked as "***". */
  lemma MaskEmailMalformed(email: string)
    requires CountChar(email, '@') != 1
    ensures MaskEmail(email) == "***"
  {
    SplitJoin(email, '@');
  }

  /** With exactly one '@', the username is masked and the domain kept verbatim: a short username
      (at most three characters) becomes as many stars; a longer one keeps its first two and its
      last character with stars between; and the result is exactly as long as the input. */
  lemma MaskEmailWellFormed(email: string, username: string, domain: string)
    requires email == username + "@" + domain && CountChar(username, '@') == 0 && CountChar(domain, '@') == 0
    ensures MaskEmail(email) == MaskUsername(username) + "@" + domain
    ensures |MaskEmail(email)| == |email|
    ensures |username| <= 3 ==> MaskEmail(email)[..|username|] == Repeat('*', |username|)
    ensures |username| > 3 ==>
      MaskEmail(email)[..2] == username[..2] &&
      (forall i :: 2 <= i < |username| - 1 ==> MaskEmail(email)[i] == '*') &&
      MaskEmail(email)[|username| - 1] == username[|username| - 1]
    ensures MaskEmail(email)[|username| + 1..] == domain
  {
    SplitJoin(email, '@');
    var parts := Split(email, '@');
    CountCharAppend(username, "@", '@');
    CountCharAppend(username + "@", domain, '@');
    assert |parts| == 2;
    SplitOfSingleSeparator(email, username, domain);
  }

  /** With one separator, splitting gives back the two sides. */
  lemma SplitOfSingleSeparator(email: string, username: string, domain: string)
    requires email == username + "@" + domain && CountChar(username, '@') == 0 && CountChar(domain, '@') == 0
    ensures Split(email, '@') == [username, domain]
  {
    SplitJoin(email, '@');
    CountCharAppend(username, "@", '@');
    CountCharAppend(username + "@", domain, '@');
    var parts := Split(email, '@');
    assert parts[0] + "@" + parts[1] == email by {
      assert Join(parts, '@') == parts[0] + ['@'] + Join(parts[1..], '@');
    }
    NoSeparatorPrefix(parts[0], parts[1], username, domain);
  }

  /** Two ways of writing one string around a single separator agree. */
  lemma NoSeparatorPrefix(a: string, b: string, u: string, d: string)
    requires a + "@" + b == u + "@" + d
    requires CountChar(a, '@') == 0 && CountChar(u, '@') == 0
    ensures a == u && b == d
  {
    var s := a + "@" + b;
    assert s[|a|] == '@' && s[|u|] == '@';
    if |a| < |u| {
      assert u[|a|] == '@';
      CharCounted(u, |a|);
    } else if |u| < |a| {
      assert a[|u|] == '@';
      CharCounted(a, |u|);
    } else {
      assert a == s[..|a|] == u;
      assert b == s[|a| + 1..] == d;
    }
  }

  lemma {:induction false} CharCounted(s: string, i: nat)
    requires i < |s|
    ensures CountChar(s, s[i]) > 0
    decreases i
  {
    if i > 0 {
      CharCounted(s[1..], i - 1);
    }
  }

  // ================================================================ sanitize_dict

  const Redacted: string := "***REDACTED***"

  /** The default `sensitive_keys`. */
  const DefaultSensitiveKeys: seq<string> := ["password", "token", "secret", "api_key"]

  /** `any(sensitive in key.lower() for sensitive in sensitive_keys)`. */
  predicate IsSensitive(key: string, sensitiveKeys: seq<string>) {
    exists i :: 0 <= i < |sensitiveKeys| && Contains(Lower(key), sensitiveKeys[i])
  }

  /** The specification of `sanitize_dict`: the value each key maps to afterwards. */
  function SanitizedEntry(key: string, value: JsonValue, sensitiveKeys: seq<string>): JsonValue
    decreases value, 1
  {
    if IsSensitive(key, sensitiveKeys) then Text(Redacted)
    else if value.Object? then Object(Sanitized(value, sensitiveKeys))
    else value
  }

  /** The specification of `sanitize_dict` on a dictionary. */
  function Sanitized(dict: JsonValue, sensitiveKeys: seq<string>): map<string, JsonValue>
    requires dict.Object?
    decreases dict, 0
  {
    map k | k in dict.fields :: SanitizedEntry(k, dict.fields[k], sensitiveKeys)
  }

  /** `sanitize_dict`: builds a fresh dictionary item by item, recursing into nested dictionaries
      under non-sensitive keys. */
  method SanitizeDict(data: map<string, JsonValue>, sensitiveKeys: Option<seq<string>>)
    returns (sanitized: map<string, JsonValue>)
    ensures sanitized == Sanitized(Object(data), sensitiveKeys.GetOr(DefaultSensitiveKeys))
    decreases Object(data)
  {
    var keys := sensitiveKeys.GetOr(DefaultSensitiveKeys);
    sanitized := map[];
    var remaining := data.Keys;
    while remaining != {}
      invariant remaining <= data.Keys
      invariant sanitized.Keys == data.Keys - remaining
      invariant forall k :: k in sanitized ==> sanitized[k] == SanitizedEntry(k, data[k], keys)
      decreases remaining
    {
      var key :| key in remaining;
      var value := data[key];
      var sensitive := IsSensitiveCheck(key, keys);
      if sensitive {
        sanitized := sanitized[key := Text(Redacted)];
      } else if value.Object? {
        assert value in Object(data).fields.Values;
        var nested := SanitizeDict(value.fields, Some(keys));
        sanitized := sanitized[key := Object(nested)];
      } else {
        sanitized := sanitized[key := value];
      }
      remaining := remaining - {key};
    }
  }

  /** The `any(...)` generator of `sanitize_dict`, scanning the sensitive keys in order. */
  method IsSensitiveCheck(key: string, sensitiveKeys: seq<string>) returns (found: bool)
    ensures found == IsSensitive(key, sensitiveKeys)
  {
    var lowered := Lower(key);
    var i := 0;
    found := false;
    while i < |sensitiveKeys| && !found
      invariant 0 <= i <= |sensitiveKeys|
      invariant found ==> IsSensitive(key, sensitiveKeys)
      invariant !found ==> forall j :: 0 <= j < i ==> !Contains(lowered, sensitiveKeys[j])
    {
      found := Contains(lowered, sensitiveKeys[i]);
      i := i + 1;
    }
  }

  /** Sanitizing keeps exactly the same keys; sensitive keys map to the redaction marker whatever
      their value; other non-dictionary values pass through unchanged; nested dictionaries under
      other keys are sanitized in turn. */
  lemma SanitizedShape(dict: JsonValue, sensitiveKeys: seq<string>)
    requires dict.Object?
    ensures Sanitized(dict, sensitiveKeys).Keys == dict.fields.Keys
    ensures forall k :: k in dict.fields && IsSensitive(k, sensitiveKeys) ==>
      Sanitized(dict, sensitiveKeys)[k] == Text(Redacted)
    ensures forall k :: k in dict.fields && !IsSensitive(k, sensitiveKeys) && !dict.fields[k].Object? ==>
      Sanitized(dict, sensitiveKeys)[k] == dict.fields[k]
    ensures forall k :: k in dict.fields && !IsSensitive(k, sensitiveKeys) && dict.fields[k].Object? ==>
      Sanitized(dict, sensitiveKeys)[k] == Object(Sanitized(dict.fields[k], sensitiveKeys))
  {
  }

  /** With the default list, a key such as "User_Password" or "api_key_hash" is redacted. */
  lemma DefaultKeysRedactByLowercaseSubstring(key: string)
    requires Contains(Lower(key), "password")
    ensures IsSensitive(key, DefaultSensitiveKeys)
  {
    assert DefaultSensitiveKeys[0] == "password";
  }

  /** Sanitizing twice gives the same dictionary as sanitizing once. */
  lemma {:induction false} SanitizedIdempotent(dict: JsonValue, sensitiveKeys: seq<string>)
    requires dict.Object?
    ensures Sanitized(Object(Sanitized(dict, sensitiveKeys)), sensitiveKeys) == Sanitized(dict, sensitiveKeys)
    decreases dict
  {
    var once := Sanitized(dict, sensitiveKeys);
    var twice := Sanitized(Object(once), sensitiveKeys);
    forall k | k in once
      ensures twice[k] == once[k]
    {
      var v := dict.fields[k];
      assert once[k] == SanitizedEntry(k, v, sensitiveKeys);
      assert twice[k] == SanitizedEntry(k, once[k], sensitiveKeys);
      if !IsSensitive(k, sensitiveKeys) && v.Object? {
        assert v in dict.fields.Values;
        SanitizedIdempotent(v, sensitiveKeys);
        assert once[k] == Object(Sanitized(v, sensitiveKeys));
      }
    }
  }
}
