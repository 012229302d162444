/** The module's location configuration: how a location's directives are
    merged with the enclosing location's, which merged configurations nginx
    refuses to start with, and the tests on a response's content type and
    URI that decide which branch of the body filter handles it. */
module AlpacaConf {
  import opened Base
  import opened Strings

  // ---------------------------------------------------------------------
  // Directives

  /** A directive as parsed: absent (nginx's `NGX_CONF_UNSET`, or a null
      string) or given. */
  datatype Setting<T> = Unset | Given(v: T)

  /** The directives of one location, before merging. */
  datatype LocConf = LocConf(
    probEnabled: Setting<bool>,
    deterEnabled: Setting<bool>,
    objNum: Setting<nat>,
    objSize: Setting<nat>,
    maxObjSize: Setting<nat>,
    distHtmlSize: Setting<string>,
    distObjNum: Setting<string>,
    distObjSize: Setting<string>,
    useTotalObjSize: Setting<bool>,
    objInliningEnabled: Setting<bool>,
    cssInliningEnabled: Setting<bool>)

  /** A merged configuration: every directive has a value. */
  datatype Conf = Conf(
    probEnabled: bool,
    deterEnabled: bool,
    objNum: nat,
    objSize: nat,
    maxObjSize: nat,
    distHtmlSize: string,
    distObjNum: string,
    distObjSize: string,
    useTotalObjSize: bool,
    objInliningEnabled: bool,
    cssInliningEnabled: bool)

  /** A location with no directive at all (`ngx_http_alpaca_create_loc_conf`). */
  const NoDirectives: LocConf :=
    LocConf(Unset, Unset, Unset, Unset, Unset, Unset, Unset, Unset, Unset, Unset, Unset)

  /** `ngx_conf_merge_value` and its `uint` and `str` variants: the child's
      own value, else the parent's, else the default. */
  function MergeSetting<T>(conf: Setting<T>, prev: Setting<T>, default: T): (r: T)
    ensures conf.Given? ==> r == conf.v
    ensures conf.Unset? && prev.Given? ==> r == prev.v
    ensures conf.Unset? && prev.Unset? ==> r == default
  {
    match conf
    case Given(v) => v
    case Unset =>
      match prev
      case Given(v) => v
      case Unset => default
  }

  /** The merged directives, with defaults `off`, 0 and the empty string. */
  function Merged(prev: LocConf, conf: LocConf): Conf {
    Conf(
      MergeSetting(conf.probEnabled, prev.probEnabled, false),
      MergeSetting(conf.deterEnabled, prev.deterEnabled, false),
      MergeSetting(conf.objNum, prev.objNum, 0),
      MergeSetting(conf.objSize, prev.objSize, 0),
      MergeSetting(conf.maxObjSize, prev.maxObjSize, 0),
      MergeSetting(conf.distHtmlSize, prev.distHtmlSize, ""),
      MergeSetting(conf.distObjNum, prev.distObjNum, ""),
      MergeSetting(conf.distObjSize, prev.distObjSize, ""),
      MergeSetting(conf.useTotalObjSize, prev.useTotalObjSize, false),
      MergeSetting(conf.objInliningEnabled, prev.objInliningEnabled, false),
      MergeSetting(conf.cssInliningEnabled, prev.cssInliningEnabled, false))
  }

  /** A merged configuration written back as a location's directives. */
  function AsDirectives(c: Conf): LocConf {
    LocConf(Given(c.probEnabled), Given(c.deterEnabled), Given(c.objNum), Given(c.objSize),
            Given(c.maxObjSize), Given(c.distHtmlSize), Given(c.distObjNum), Given(c.distObjSize),
            Given(c.useTotalObjSize), Given(c.objInliningEnabled), Given(c.cssInliningEnabled))
  }

  /** The configurations the module accepts, stated as one condition. */
  predicate Acceptable(c: Conf) {
    !(c.probEnabled && c.deterEnabled) &&
    (c.probEnabled ==> |c.distObjSize| > 0) &&
    (c.deterEnabled ==> 0 < c.objSize <= c.maxObjSize && c.maxObjSize % c.objSize == 0)
  }

  const BOTH_MODES := "Both probabilistic and deterministic ALPaCA are enabled."
  const NO_OBJ_SIZE_DIST := "dist_obj_size is needed in probabilistic mode"
  const NON_POSITIVE := "You can't provide non-positive values or no values at all for deterministic ALPaCA."
  const OBJ_OVER_MAX := "Object size cannot be greater than max object size for deterministic ALPaCA."
  const MAX_NOT_MULTIPLE := "Max object size has to be a multiple of object size for deterministic ALPaCA."

  /** `ngx_http_alpaca_merge_loc_conf`: merge, then check the merged values
      in order; the first failed check is the error nginx reports. */
  function MergeLocConf(prev: LocConf, conf: LocConf): (r: Outcome<Conf>)
    ensures !r.Panic?
    ensures r.Ok? <==> Acceptable(Merged(prev, conf))
    ensures r.Ok? ==> r.value == Merged(prev, conf)
    ensures var c := Merged(prev, conf);
      (r == Err(BOTH_MODES) <==> c.probEnabled && c.deterEnabled) &&
      (r == Err(NO_OBJ_SIZE_DIST) <==> c.probEnabled && !c.deterEnabled && |c.distObjSize| == 0) &&
      (r == Err(NON_POSITIVE) <==> c.deterEnabled && !c.probEnabled && (c.objSize == 0 || c.maxObjSize == 0))
    ensures var c := Merged(prev, conf);
      (r == Err(OBJ_OVER_MAX) <==>
         c.deterEnabled && !c.probEnabled && c.objSize > 0 && c.maxObjSize > 0 && c.maxObjSize < c.objSize) &&
      (r == Err(MAX_NOT_MULTIPLE) <==>
         c.deterEnabled && !c.probEnabled && 0 < c.objSize <= c.maxObjSize && c.maxObjSize % c.objSize != 0)
  {
    var c := Merged(prev, conf);
    if c.probEnabled && c.deterEnabled then Err(BOTH_MODES)
    else if c.probEnabled && |c.distObjSize| == 0 then Err(NO_OBJ_SIZE_DIST)
    else if c.deterEnabled && (c.objSize == 0 || c.maxObjSize == 0) then Err(NON_POSITIVE)
    else if c.deterEnabled && c.maxObjSize < c.objSize then Err(OBJ_OVER_MAX)
    else if c.deterEnabled && c.maxObjSize % c.objSize != 0 then Err(MAX_NOT_MULTIPLE)
    else Ok(c)
  }

  /** A location without directives under a parent without directives gets
      ALPaCA switched off, and that configuration is accepted. */
  lemma NothingConfiguredIsOff()
    ensures MergeLocConf(NoDirectives, NoDirectives) ==
      Ok(Conf(false, false, 0, 0, 0, "", "", "", false, false, false))
  {
  }

  /** A location that sets every directive keeps its own values, whatever
      the parent says; merging an already merged configuration again
      changes nothing. */
  lemma MergeKeepsOwnValues(prev: LocConf, c: Conf)
    ensures Merged(prev, AsDirectives(c)) == c
    ensures MergeLocConf(prev, AsDirectives(c)).Ok? <==> Acceptable(c)
  {
  }

  /** In an accepted deterministic configuration the maximum object size
      is a whole, non-zero number of object sizes, so the object-size
      multiples the deterministic morphing rounds to are well defined. */
  lemma DeterministicSizesAreMultiples(c: Conf)
    requires Acceptable(c) && c.deterEnabled
    ensures c.objSize >= 1 && c.maxObjSize == (c.maxObjSize / c.objSize) * c.objSize
    ensures c.maxObjSize / c.objSize >= 1
  {
  }

  // ---------------------------------------------------------------------
  // Content-type and URI tests

  /** The byte at `i` of an nginx string read as a C string: past its
      length it is taken as the terminator. */
  function CharAt(s: string, i: nat): char {
    if i < |s| then s[i] else '\0'
  }

  /** `strncmp(a, b, n) == 0` from index `i` on: the strings agree up to
      `n` characters or up to a terminator they share. */
  function StrNEqFrom(a: string, b: string, n: nat, i: nat): bool
    decreases n - i
  {
    if i >= n then true
    else if CharAt(a, i) != CharAt(b, i) then false
    else if CharAt(a, i) == '\0' then true
    else StrNEqFrom(a, b, n, i + 1)
  }

  predicate StrNEq(a: string, b: string, n: nat) {
    StrNEqFrom(a, b, n, 0)
  }

  predicate NoNul(s: string) {
    '\0' !in s
  }

  /** The first `n` characters of `s`, or all of it when it is shorter. */
  function Take(s: string, n: nat): (r: string)
    ensures |r| <= n && |r| <= |s| && (|r| == n || |r| == |s|)
  {
    if n <= |s| then s[..n] else s
  }

  lemma {:induction false} StrNEqFromTake(a: string, b: string, n: nat, i: nat)
    requires NoNul(a) && NoNul(b) && i <= n
    requires i <= |a| && i <= |b| && a[..i] == b[..i]
    ensures StrNEqFrom(a, b, n, i) <==> Take(a, n) == Take(b, n)
    decreases n - i
  {
    if i < n {
      if i < |a| && i < |b| && a[i] == b[i] {
        assert a[..i + 1] == a[..i] + [a[i]] && b[..i + 1] == b[..i] + [b[i]];
        StrNEqFromTake(a, b, n, i + 1);
      } else if i < |a| && i < |b| {
        assert Take(a, n)[i] != Take(b, n)[i];
      } else if i == |a| && i == |b| {
        assert a == a[..i] && b == b[..i];
      } else if i == |a| {
        assert CharAt(b, i) == b[i] && b[i] != '\0';
        assert |Take(a, n)| == i < |Take(b, n)|;
      } else {
        assert CharAt(a, i) == a[i] && a[i] != '\0';
        assert |Take(b, n)| == i < |Take(a, n)|;
      }
    } else {
      assert Take(a, n) == a[..i] && Take(b, n) == b[..i];
    }
  }

  /** For strings without a terminator inside, `strncmp(a, b, n) == 0`
      says exactly that their first `n` characters agree. */
  lemma StrNEqIsTakeEq(a: string, b: string, n: nat)
    requires NoNul(a) && NoNul(b)
    ensures StrNEq(a, b, n) <==> Take(a, n) == Take(b, n)
  {
    StrNEqFromTake(a, b, n, 0);
  }

  const FAKE_IMAGE_PATH := "/__alpaca_fake_image.png"

  /** `is_fake_image`: the URI begins with the padding image's path. */
  predicate IsFakeImage(uri: string) {
    StrNEq(uri, FAKE_IMAGE_PATH, 24)
  }

  /** `is_html`: a prefix test, so a charset parameter is allowed. */
  predicate IsHtml(contentType: string) {
    StrNEq(contentType, "text/html", 9)
  }

  /** `is_css`. */
  predicate IsCss(contentType: string) {
    StrNEq(contentType, "text/css", 8)
  }

  /** `is_paddable`: an image type, or a content type that is a prefix of
      `application/javascript` or of `text/css` (the comparison runs over
      the content type's own length). */
  predicate IsPaddable(contentType: string) {
    (|contentType| >= 6 && StrNEq(contentType, "image/", 6)) ||
    StrNEq(contentType, "application/javascript", |contentType|) ||
    StrNEq(contentType, "text/css", |contentType|)
  }

  lemma PrefixTest(s: string, p: string)
    requires NoNul(s) && NoNul(p)
    ensures StrNEq(s, p, |p|) <==> StartsWith(s, p)
  {
    StrNEqIsTakeEq(s, p, |p|);
  }

  /** The three prefix tests on a content type. */
  lemma ContentTypeTests(ct: string)
    requires NoNul(ct)
    ensures IsHtml(ct) <==> StartsWith(ct, "text/html")
    ensures IsCss(ct) <==> StartsWith(ct, "text/css")
    ensures IsFakeImage(ct) <==> StartsWith(ct, FAKE_IMAGE_PATH)
  {
    PrefixTest(ct, "text/html");
    PrefixTest(ct, "text/css");
    PrefixTest(ct, FAKE_IMAGE_PATH);
  }

  /** `is_paddable` in plain terms. */
  lemma PaddableTypes(ct: string)
    requires NoNul(ct)
    ensures IsPaddable(ct) <==>
      StartsWith(ct, "image/") || StartsWith("application/javascript", ct) || StartsWith("text/css", ct)
  {
    PrefixTest(ct, "image/");
    StrNEqIsTakeEq(ct, "application/javascript", |ct|);
    StrNEqIsTakeEq(ct, "text/css", |ct|);
  }

  /** Consequences of comparing over the content type's own length: an
      empty content type counts as paddable, and a stylesheet whose type
      carries a charset parameter does not, although `is_css` accepts it. */
  lemma PaddableEdgeCases()
    ensures IsPaddable("")
    ensures !IsPaddable("text/css; charset=utf-8") && IsCss("text/css; charset=utf-8")
  {
    PaddableTypes("");
    PaddableTypes("text/css; charset=utf-8");
    PrefixTest("text/css; charset=utf-8", "text/css");
  }

  /** The types the module pads, spelled exactly. */
  lemma PaddableCommonTypes()
    ensures IsPaddable("image/png") && IsPaddable("text/css")
  {
    PaddableTypes("image/png");
    assert "image/png"[..6] == "image/";
    PaddableTypes("text/css");
    assert "text/css"[..8] == "text/css";
  }

  /** An HTML page is not padded. */
  lemma HtmlNotPaddable()
    ensures !IsPaddable("text/html")
  {
    PaddableTypes("text/html");
    assert "text/html"[..6][0] == 't';
  }
}
