/** Choosing the normalizer for a row (`normalize_row`) from its source
    type. */
module Dispatch {
  import opened Strings
  import opened Results
  import opened Urls
  import opened CodeLocators
  import opened FigmaLocators
  import opened NotionLocators
  import opened GenericLocators

  datatype SourceType = Code | Figma | Notion | Doc | Api | Other

  /** The spelling of a source type in the registry. */
  function TypeName(t: SourceType): string
  {
    match t
    case Code => "code"
    case Figma => "figma"
    case Notion => "notion"
    case Doc => "doc"
    case Api => "api"
    case Other => "other"
  }

  /** SUPPORTED_SOURCE_TYPES. */
  const SupportedTypes: set<string> := {"code", "figma", "notion", "doc", "api", "other"}

  /** The source type a normalized type name spells, if it is supported. */
  function ParseSourceType(s: string): (r: Option<SourceType>)
    ensures r.None? <==> s !in SupportedTypes
    ensures r.Some? ==> TypeName(r.value) == s
  {
    if s == "code" then Some(Code)
    else if s == "figma" then Some(Figma)
    else if s == "notion" then Some(Notion)
    else if s == "doc" then Some(Doc)
    else if s == "api" then Some(Api)
    else if s == "other" then Some(Other)
    else None
  }

  /** Every source type is supported and parses back from its name. */
  lemma ParseTypeName(t: SourceType)
    ensures TypeName(t) in SupportedTypes
    ensures ParseSourceType(TypeName(t)) == Some(t)
  {
  }

  /** Every reason a supported type's normalizer can give. */
  const NormalizerReasons: set<string> :=
    FigmaReasons + CodeReasons + NotionReasons + {"URL normalization failed", "other locator is empty"}

  /** The prefix of every key a type's normalizer produces: a name and a
      colon. `doc` and `api` share theirs. */
  function KeyPrefix(t: SourceType): (r: string)
    ensures |r| >= 2 && r[|r| - 1] == ':' && ':' !in r[..|r| - 1]
  {
    PrefixOf(NormalizerOf(t))
  }

  /** The normalizer functions `normalize_row` chooses between. */
  datatype Normalizer = FigmaLinks | CodePaths | NotionPages | GenericUrls | OtherText

  /** The branch of `normalize_row` a supported type takes: `doc` and `api`
      share the generic URL normalizer. */
  function NormalizerOf(t: SourceType): Normalizer
  {
    match t
    case Figma => FigmaLinks
    case Code => CodePaths
    case Notion => NotionPages
    case Doc | Api => GenericUrls
    case Other => OtherText
  }

  /** The prefix of the keys one normalizer produces. */
  function PrefixOf(n: Normalizer): (r: string)
    ensures |r| >= 2 && r[|r| - 1] == ':' && ':' !in r[..|r| - 1]
  {
    match n
    case CodePaths => "code:"
    case FigmaLinks => "figma:"
    case NotionPages => "notion:"
    case GenericUrls => "url:"
    case OtherText => "other:"
  }

  /** A normalizer's outcome stays within its kind: a fixed rejection
      message, or a key that starts with the kind's prefix. */
  predicate WithinKind(r: Outcome, prefix: string)
  {
    && (r.Err? ==> r.reason in NormalizerReasons)
    && (r.Ok? ==> prefix <= r.fields.key)
  }

  lemma PrefixOfJoin(p: string, rest: string)
    ensures p <= p + rest
  {
    assert (p + rest)[..|p|] == p;
  }

  /** A key of the form `<prefix><a>:<b>` starts with its prefix. */
  lemma PrefixOfKey(p: string, a: string, b: string, key: string)
    requires key == p + a + ":" + b
    ensures p <= key
  {
    PrefixOfJoin(p, a + ":" + b);
    assert key == p + (a + ":" + b);
  }

  lemma FigmaWithinKind(env: Env, locator: string)
    ensures WithinKind(NormalizeFigma(env, locator), "figma:")
  {
    var r := NormalizeFigma(env, locator);
    if r.Ok? {
      var f := r.fields;
      PrefixOfKey("figma:", f.fileKey, f.nodeId, f.key);
    }
  }

  lemma CodeWithinKind(locator: string)
    ensures WithinKind(NormalizeCode(locator), "code:")
  {
    var r := NormalizeCode(locator);
    if r.Ok? {
      var f := r.fields;
      PrefixOfKey("code:", f.path, f.line, f.key);
    }
  }

  lemma NotionWithinKind(env: Env, locator: string)
    ensures WithinKind(NormalizeNotion(env, locator), "notion:")
  {
    var r := NormalizeNotion(env, locator);
    if r.Ok? {
      var f := r.fields;
      PrefixOfKey("notion:", f.pageId, Section(env.parse(Strip(locator))), f.key);
    }
  }

  lemma GenericWithinKind(env: Env, locator: string)
    ensures WithinKind(NormalizeGenericUrl(env, locator), "url:")
  {
    var r := NormalizeGenericUrl(env, locator);
    if r.Ok? {
      PrefixOfJoin("url:", r.fields.normalized);
    }
  }

  lemma OtherWithinKind(env: Env, locator: string)
    ensures WithinKind(NormalizeOther(env, locator), "other:")
  {
    var r := NormalizeOther(env, locator);
    if r.Ok? {
      PrefixOfJoin("other:", Prefix(env.sha256Hex(Lower(Strip(locator))), 16));
    }
  }

  /** The normalizer of a supported type. Its reason for a rejection is one
      of the fixed messages, and an accepted locator's key carries the
      type's prefix. */
  function Normalize(env: Env, t: SourceType, locator: string): (r: Outcome)
    ensures WithinKind(r, KeyPrefix(t))
  {
    Run(env, NormalizerOf(t), locator)
  }

  /** One normalizer applied to a locator. */
  function Run(env: Env, n: Normalizer, locator: string): (r: Outcome)
    ensures WithinKind(r, PrefixOf(n))
  {
    match n
    case FigmaLinks => FigmaWithinKind(env, locator); NormalizeFigma(env, locator)
    case CodePaths => CodeWithinKind(locator); NormalizeCode(locator)
    case NotionPages => NotionWithinKind(env, locator); NormalizeNotion(env, locator)
    case GenericUrls => GenericWithinKind(env, locator); NormalizeGenericUrl(env, locator)
    case OtherText => OtherWithinKind(env, locator); NormalizeOther(env, locator)
  }

  /** `normalize_row`: the type is lower-cased and stripped, a supported
      type goes to its normalizer, and any other type is rejected with a
      message quoting the type as given. */
  function NormalizeRow(env: Env, sourceType: string, locator: string): (r: Outcome)
    ensures Strip(Lower(sourceType)) !in SupportedTypes <==>
      r == Err("unsupported source_type: " + sourceType)
    ensures forall t :: ParseSourceType(Strip(Lower(sourceType))) == Some(t) ==>
      r == Normalize(env, t, locator)
    ensures r.Err? ==> r.reason != ""
  {
    var stype := Strip(Lower(sourceType));
    UnsupportedIsNoReason(sourceType);
    NoBlankReason();
    match ParseSourceType(stype)
    case None => Err("unsupported source_type: " + sourceType)
    case Some(t) => Normalize(env, t, locator)
  }

  /** Every rejection message says something. */
  lemma NoBlankReason()
    ensures "" !in NormalizerReasons
  {
  }

  /** The unsupported-type message is never one a normalizer gives. */
  lemma UnsupportedIsNoReason(sourceType: string)
    ensures "unsupported source_type: " + sourceType !in NormalizerReasons
  {
    var m := "unsupported source_type: " + sourceType;
    assert m[0] == 'u' && m[1] == 'n';
  }

  /** Keys from normalizers with different prefixes never collide, so rows
      of different kinds never duplicate one another; `doc` and `api` rows
      that name the same URL do. */
  lemma KindsKeepKeysApart(env: Env, s: SourceType, t: SourceType, a: string, b: string)
    requires Normalize(env, s, a).Ok? && Normalize(env, t, b).Ok?
    requires KeyPrefix(s) != KeyPrefix(t)
    ensures Normalize(env, s, a).fields.key != Normalize(env, t, b).fields.key
  {
    var ra, rb := Normalize(env, s, a), Normalize(env, t, b);
    var p, q := KeyPrefix(s), KeyPrefix(t);
    assert p <= ra.fields.key && q <= rb.fields.key;
    if ra.fields.key == rb.fields.key {
      PrefixesOfOneKey(p, q, ra.fields.key);
    }
  }

  /** Two name-and-colon prefixes of one string are the same prefix. */
  lemma PrefixesOfOneKey(p: string, q: string, k: string)
    requires |p| >= 2 && p[|p| - 1] == ':' && ':' !in p[..|p| - 1]
    requires |q| >= 2 && q[|q| - 1] == ':' && ':' !in q[..|q| - 1]
    requires p <= k && q <= k
    ensures p == q
  {
    forall i | 0 <= i < |p| - 1
      ensures k[i] != ':'
    {
      assert k[i] == p[..|p| - 1][i];
    }
    forall i | 0 <= i < |q| - 1
      ensures k[i] != ':'
    {
      assert k[i] == q[..|q| - 1][i];
    }
    assert k[|p| - 1] == ':' && k[|q| - 1] == ':';
    assert p == k[..|p|] && q == k[..|q|];
  }

  /** `doc` and `api` locators are normalized alike. */
  lemma DocAndApiAgree(env: Env, locator: string)
    ensures Normalize(env, Doc, locator) == Normalize(env, Api, locator)
    ensures KeyPrefix(Doc) == KeyPrefix(Api)
  {
    GenericBranch();
    var n := NormalizerOf(Doc);
    assert Normalize(env, Doc, locator) == Run(env, n, locator);
    assert Normalize(env, Api, locator) == Run(env, n, locator);
  }

  lemma GenericBranch()
    ensures NormalizerOf(Doc) == NormalizerOf(Api) == GenericUrls
    ensures KeyPrefix(Doc) == KeyPrefix(Api) == "url:"
  {
  }
}
