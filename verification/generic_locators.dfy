/** The normalizers for `doc`/`api` locators (`normalize_generic_url`) and
    for free-form `other` locators (`normalize_other`). */
module GenericLocators {
  import opened Strings
  import opened Results
  import opened Urls

  /** `normalize_generic_url`: a locator that canonicalizes is keyed by its
      canonical text; one without a scheme or a host is rejected. */
  function NormalizeGenericUrl(env: Env, locator: string): (r: Outcome)
    ensures r.Err? <==> !IsAbsolute(env.parse(Strip(locator)))
    ensures r.Err? ==> r.reason == "URL normalization failed"
    ensures r.Ok? ==> Some(r.fields.normalized) == NormalizeUrl(env, locator)
    ensures r.Ok? ==> r.fields == KeyFields(r.fields.normalized, "url:" + r.fields.normalized)
  {
    match NormalizeUrl(env, locator)
    case None => Err("URL normalization failed")
    case Some(u) => Ok(KeyFields(u, "url:" + u))
  }

  /** Two accepted URL locators share a key exactly when their canonical
      texts agree. */
  lemma GenericKeyMeansSameUrl(env: Env, a: string, b: string)
    requires NormalizeGenericUrl(env, a).Ok? && NormalizeGenericUrl(env, b).Ok?
    ensures NormalizeGenericUrl(env, a).fields.key == NormalizeGenericUrl(env, b).fields.key
        <==> NormalizeUrl(env, a) == NormalizeUrl(env, b)
  {
    var na, nb := NormalizeGenericUrl(env, a).fields.normalized, NormalizeGenericUrl(env, b).fields.normalized;
    if "url:" + na == "url:" + nb {
      assert na == ("url:" + na)[4..] && nb == ("url:" + nb)[4..];
    }
  }

  /** URL locators that differ only in scheme or host case, parameter order
      or fragment deduplicate. */
  lemma GenericUrlIgnoresCosmetics(env: Env, a: string, b: string)
    requires Equivalent(env.parse(Strip(a)), env.parse(Strip(b)))
    ensures NormalizeGenericUrl(env, a) == NormalizeGenericUrl(env, b)
  {
    NormalizeUrlIgnoresCosmetics(env, a, b);
  }

  /** Python's `s[:n]`: at most the first `n` characters. */
  function Prefix(s: string, n: nat): (r: string)
    ensures |r| <= n && r <= s
    ensures |s| >= n ==> |r| == n
    ensures |s| < n ==> r == s
  {
    if |s| <= n then s else s[..n]
  }

  /** `normalize_other`: any non-blank text is accepted, displayed stripped
      and keyed by the first 16 hex digits of the SHA-256 digest of its
      lower-cased form. */
  function NormalizeOther(env: Env, locator: string): (r: Outcome)
    ensures r.Err? <==> Strip(locator) == ""
    ensures r.Err? ==> r.reason == "other locator is empty"
    ensures r.Ok? ==>
      && r.fields.normalized == Strip(locator)
      && r.fields == KeyFields(r.fields.normalized, r.fields.key)
      && r.fields.key == "other:" + Prefix(env.sha256Hex(Lower(Strip(locator))), 16)
  {
    var value := Strip(locator);
    if value == "" then Err("other locator is empty")
    else Ok(KeyFields(value, "other:" + Prefix(env.sha256Hex(Lower(value)), 16)))
  }

  /** Free-form locators that differ only in ASCII letter case or in
      surrounding white space share a key. */
  lemma OtherKeyIgnoresCaseAndSpace(env: Env, a: string, b: string)
    requires Strip(a) != "" && Lower(Strip(a)) == Lower(Strip(b))
    ensures NormalizeOther(env, a).Ok? && NormalizeOther(env, b).Ok?
    ensures NormalizeOther(env, a).fields.key == NormalizeOther(env, b).fields.key
  {
    assert |Strip(b)| == |Lower(Strip(b))|;
  }
}
