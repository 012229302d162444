/** Reference and query parsing (`libalpaca/src/parse.rs`): the padding
    parameter of a request, the kind of a MIME type, the `url(...)` paths of
    a style sheet, and the walks over a page that list, collect and inline
    the objects it references. Pages are element sequences (module Dom); the
    routine `utils::remove_whitespace`, whose body is not part of this
    model, is the parameter `rw`. */
module Parse {
  import opened Base
  import opened Strings
  import opened Dom

  // ---------------------------------------------------------------------
  // parse_target_size

  /** The query parameter that carries an object's target size. */
  const PADDING_PARAM: string := "alpaca-padding="

  /** `parse_target_size`: the text after the last `alpaca-padding=` up to
      the first `&`, read as a `usize`; 0 when that text is not one. */
  function ParseTargetSize(query: string): (n: nat)
    ensures n <= USIZE_MAX
  {
    var afterParam := Last(SplitOn(query, PADDING_PARAM));
    match ParseUsize(SplitOn(afterParam, "&")[0])
    case Some(v) => v
    case None => 0
  }

  /** Text without an `a` cannot hold the parameter name. */
  lemma NoParamWithoutA(t: string)
    requires 'a' !in t
    ensures !Contains(t, PADDING_PARAM)
  {
    assert PADDING_PARAM[0] == 'a';
    forall i: nat
      ensures !OccursAt(t, PADDING_PARAM, i)
    {
      if i + |PADDING_PARAM| <= |t| {
        assert t[i..i + |PADDING_PARAM|][0] == t[i];
        assert t[i] in t;
      }
    }
  }

  /** Splitting on the parameter name, the last piece is whatever follows a
      final occurrence when that text holds no further one. Only the last
      character of the name is `=`, so no occurrence in `x` can reach into
      the one placed after it. */
  lemma {:induction false} LastPieceAfterParam(x: string, t: string)
    requires !Contains(t, PADDING_PARAM)
    ensures Last(SplitOn(x + PADDING_PARAM + t, PADDING_PARAM)) == t
    decreases |x|
  {
    var p := PADDING_PARAM;
    var s := x + p + t;
    assert s[|x|..|x| + |p|] == p;
    assert OccursAt(s, p, |x|);
    var i := IndexOf(s, p).value;
    assert i <= |x|;
    LastPieceFollows(s, p, i);
    if i == |x| {
      assert s[i + |p|..] == t;
      assert SplitOn(t, p) == [t];
    } else {
      ParamWithinPrefix(x, t, i);
      var rest := x[i + |p|..];
      assert s[i + |p|..] == rest + p + t;
      LastPieceAfterParam(rest, t);
    }
  }

  /** An occurrence of the parameter name starting inside `x` ends inside
      `x`: its `=` cannot fall on the first characters of the name placed
      after `x`. */
  lemma ParamWithinPrefix(x: string, t: string, i: nat)
    requires i < |x| && OccursAt(x + PADDING_PARAM + t, PADDING_PARAM, i)
    ensures i + |PADDING_PARAM| <= |x|
  {
    var p := PADDING_PARAM;
    var s := x + p + t;
    var e := i + |p| - 1;
    assert s[e] == s[i..i + |p|][|p| - 1] == '=';
    forall k | 0 <= k < |p| - 1 ensures p[k] != '=' {
      assert p[..|p| - 1] == "alpaca-padding";
      assert p[k] == p[..|p| - 1][k];
    }
  }

  /** Digits followed by nothing or by `&...`: the first `&`-piece is the
      digits. */
  lemma FirstPieceBeforeAmp(d: string, y: string)
    requires AllDigits(d)
    requires y == [] || y[0] == '&'
    ensures SplitOn(d + y, "&")[0] == d
  {
    var s := d + y;
    forall j | 0 <= j < |d|
      ensures !OccursAt(s, "&", j)
    {
      assert IsDigit(d[j]) && d[j] != '&';
      assert s[j..j + 1] == [d[j]];
      assert [d[j]][0] != "&"[0];
    }
    if y != [] {
      assert s[|d|..|d| + 1] == "&";
      assert OccursAt(s, "&", |d|);
      var idx := IndexOf(s, "&");
      assert idx.Some?;
      assert idx.value == |d|;
      assert s[..|d|] == d;
    } else {
      assert s == d;
      assert IndexOf(s, "&").None?;
    }
  }

  /** The round trip `append_ref` and `add_padding_objects` rely on: a size
      written after the last `alpaca-padding=` and before the next `&` (or
      the end) is the size read back, whatever precedes it. */
  lemma TargetSizeRoundTrip(x: string, n: nat, y: string)
    requires n <= USIZE_MAX
    requires y == [] || y[0] == '&'
    requires 'a' !in y
    ensures ParseTargetSize(x + PADDING_PARAM + NatToDecimal(n) + y) == n
  {
    var d := NatToDecimal(n);
    assert 'a' !in d by {
      forall j | 0 <= j < |d| ensures d[j] != 'a' {
        assert IsDigit(d[j]);
      }
    }
    NoParamWithoutA(d + y);
    assert x + PADDING_PARAM + d + y == x + PADDING_PARAM + (d + y);
    LastPieceAfterParam(x, d + y);
    FirstPieceBeforeAmp(d, y);
    DecimalRoundTrip(n);
  }

  // ---------------------------------------------------------------------
  // parse_object_kind

  lemma TextTypesAreNotImages()
    ensures !StartsWith("text/html", "image/") && !StartsWith("text/css", "image/")
  {
    assert "text/html"[..6][0] == 't';
    assert "text/css"[..6][0] == 't';
  }

  /** `parse_object_kind`: an exact match for the two text types, a prefix
      test for images, Unknown for the rest. */
  function ParseObjectKind(mime: string): (k: ObjectKind)
    ensures k == HTML <==> mime == "text/html"
    ensures k == CSS <==> mime == "text/css"
    ensures k == IMG <==> StartsWith(mime, "image/")
    ensures k == Unknown <==> mime != "text/html" && mime != "text/css" && !StartsWith(mime, "image/")
  {
    TextTypesAreNotImages();
    if mime == "text/html" then HTML
    else if mime == "text/css" then CSS
    else if StartsWith(mime, "image/") then IMG
    else Unknown
  }

  // ---------------------------------------------------------------------
  // parse_css_images

  /** None of the characters `parse_css_images` strips from a path (single
      quotes were turned into double quotes before the split). */
  predicate Stripped(p: string) {
    '"' !in p && '\'' !in p && '(' !in p && ')' !in p && ';' !in p
  }

  /** The chain of removals applied to the piece after `url`. */
  function CleanPath(piece: string): string {
    ReplaceAll(ReplaceAll(ReplaceAll(ReplaceAll(ReplaceAll(piece, "\"", ""), "(", ""), ")", ""), ")", ""), ";", "")
  }

  lemma CleanPathStripped(piece: string)
    requires '\'' !in piece
    ensures Stripped(CleanPath(piece))
  {
    var a := ReplaceAll(piece, "\"", "");
    RemoveChar(piece, '"');
    var b := ReplaceAll(a, "(", "");
    RemoveChar(a, '(');
    var c := ReplaceAll(b, ")", "");
    RemoveChar(b, ')');
    var d := ReplaceAll(c, ")", "");
    RemoveChar(c, ')');
    RemoveChar(d, ';');
  }

  /** What one line contributes: the cleaned piece after the first `url`,
      unless it holds a comment end. */
  function LinePath(line: string, rw: string -> string): (r: Option<string>)
    ensures r.Some? ==> Stripped(r.value) && !Contains(r.value, "*/")
  {
    var t := rw(line);
    if !Contains(t, "url") then None
    else
      var quoted := ReplaceAll(t, "'", "\"");
      var pieces := SplitOn(quoted, "url");
      if |pieces| < 2 then None
      else
        ReplaceOneChar(t, '\'', "\"");
        SubstCharRemoves(t, '\'', "\"", '\'');
        SplitOnPiecesLack(quoted, "url", '\'');
        CleanPathStripped(pieces[1]);
        var path := CleanPath(pieces[1]);
        if Contains(path, "*/") then None else Some(path)
  }

  function AsSeq<T>(o: Option<T>): (r: seq<T>)
    ensures |r| <= 1 && (o.Some? ==> r == [o.value])
  {
    match o
    case None => []
    case Some(v) => [v]
  }

  /** The paths of a sequence of lines, one at most per line. */
  function LinesPaths(lines: seq<string>, rw: string -> string): (r: seq<string>)
    ensures |r| <= |lines|
    ensures forall k :: 0 <= k < |r| ==> Stripped(r[k]) && !Contains(r[k], "*/")
    decreases |lines|
  {
    if |lines| == 0 then []
    else LinesPaths(lines[..|lines| - 1], rw) + AsSeq(LinePath(Last(lines), rw))
  }

  /** The paths `parse_css_images` finds in a style sheet. */
  function CssImages(css: string, rw: string -> string): (r: seq<string>)
    ensures !Contains(css, "url") ==> r == []
    ensures |r| <= |SplitOn(css, "\n")|
    ensures forall k :: 0 <= k < |r| ==> Stripped(r[k]) && !Contains(r[k], "*/")
  {
    if Contains(css, "url") then LinesPaths(SplitOn(css, "\n"), rw) else []
  }

  /** `parse_css_images`, line by line. */
  method ParseCssImages(css: string, rw: string -> string) returns (paths: seq<string>)
    ensures paths == CssImages(css, rw)
  {
    paths := [];
    if Contains(css, "url") {
      var lines := SplitOn(css, "\n");
      var k := 0;
      while k < |lines|
        invariant k <= |lines|
        invariant paths == LinesPaths(lines[..k], rw)
      {
        var path := LineImage(lines[k], rw);
        LinesUnfold(lines, k, rw);
        if path.Some? {
          paths := paths + [path.value];
        }
        k := k + 1;
      }
      assert lines[..k] == lines;
    }
  }

  /** The paths of one more line. */
  lemma LinesUnfold(lines: seq<string>, k: nat, rw: string -> string)
    requires k < |lines|
    ensures LinesPaths(lines[..k + 1], rw) == LinesPaths(lines[..k], rw) + AsSeq(LinePath(lines[k], rw))
  {
    assert lines[..k + 1][..k] == lines[..k];
  }

  /** The body of the line loop: the pieces after the first `url` are
      visited with the `found` flag, and the first of them is cleaned. */
  method LineImage(line: string, rw: string -> string) returns (r: Option<string>)
    ensures r == LinePath(line, rw)
  {
    r := None;
    var item := rw(line);
    if Contains(item, "url") {
      var quoted := ReplaceAll(item, "'", "\"");
      var spl := SplitOn(quoted, "url");
      var found := false;
      var j := 0;
      while j < |spl|
        invariant j <= |spl| && j <= 1
        invariant found <==> j == 1
        invariant r == None
      {
        if found {
          var path := CleanPath(spl[j]);
          if !Contains(path, "*/") {
            r := Some(path);
          }
          break;
        }
        found := true;
        j := j + 1;
      }
    }
  }

  // ---------------------------------------------------------------------
  // Reference walks: parse_css_names, parse_object_names, parse_objects

  /** The elements `parse_css_names` selects. */
  const LINK_TAGS: set<string> := {"link"}

  /** The elements `parse_object_names` and `parse_objects` select. */
  const OBJECT_TAGS: set<string> := {"img", "link", "script"}

  /** A link names its object in `href`, everything else in `src`. */
  function PathAttribute(tag: string): string {
    if tag == "link" then "href" else "src"
  }

  /** The accepted path of an element, if it has one. */
  function RefPath(e: Element): Option<string> {
    AcceptPath(GetAttribute(e, PathAttribute(e.tag)))
  }

  /** `rel`, or the empty string when absent (`unwrap_or_default`). */
  function Rel(e: Element): string {
    if "rel" in e.attrs then e.attrs["rel"] else ""
  }

  predicate IsIconLink(e: Element) {
    e.tag == "link" && (Rel(e) == "shortcut icon" || Rel(e) == "icon")
  }

  /** Selected by a walk over `tags` and carrying an accepted path. */
  predicate Referenced(e: Element, tags: set<string>) {
    e.tag in tags && RefPath(e).Some?
  }

  /** Every name starts with `/`. */
  predicate Slashed(names: seq<string>) {
    forall k :: 0 <= k < |names| ==> |names[k]| > 0 && names[k][0] == '/'
  }

  lemma SlashedAppend(a: seq<string>, b: seq<string>)
    requires Slashed(a) && Slashed(b)
    ensures Slashed(a + b)
  {
    forall k | 0 <= k < |a + b|
      ensures |(a + b)[k]| > 0 && (a + b)[k][0] == '/'
    {
      if k < |a| {
        assert (a + b)[k] == a[k];
      } else {
        assert (a + b)[k] == b[k - |a|];
      }
    }
  }

  /** The names a walk over `tags` lists: each accepted path with a `/` in
      front, in document order. */
  function RefNames(doc: Document, tags: set<string>): (r: seq<string>)
    ensures |r| <= |doc|
    ensures Slashed(r)
    decreases |doc|
  {
    if |doc| == 0 then []
    else
      var e := Last(doc);
      var pre := RefNames(doc[..|doc| - 1], tags);
      var more := if Referenced(e, tags) then ["/" + RefPath(e).value] else [];
      SlashedAppend(pre, more);
      pre + more
  }

  /** Some selected element with an accepted path is an icon link. */
  predicate HasIcon(doc: Document, tags: set<string>)
    decreases |doc|
  {
    |doc| > 0 && (HasIcon(doc[..|doc| - 1], tags) || (Referenced(Last(doc), tags) && IsIconLink(Last(doc))))
  }

  /** The page after the favicon check every walk ends with. */
  function WithFavicon(doc: Document, tags: set<string>): Document {
    if HasIcon(doc, tags) then doc else InsertEmptyFavicon(doc)
  }

  lemma {:induction false} RefNamesMembers(doc: Document, tags: set<string>, n: string)
    ensures n in RefNames(doc, tags) <==>
      exists i :: 0 <= i < |doc| && Referenced(doc[i], tags) && n == "/" + RefPath(doc[i]).value
    decreases |doc|
  {
    if |doc| > 0 {
      var pre := doc[..|doc| - 1];
      RefNamesMembers(pre, tags, n);
      if exists i :: 0 <= i < |pre| && Referenced(pre[i], tags) && n == "/" + RefPath(pre[i]).value {
        var i :| 0 <= i < |pre| && Referenced(pre[i], tags) && n == "/" + RefPath(pre[i]).value;
        assert doc[i] == pre[i];
      }
      if exists i :: 0 <= i < |doc| && Referenced(doc[i], tags) && n == "/" + RefPath(doc[i]).value {
        var i :| 0 <= i < |doc| && Referenced(doc[i], tags) && n == "/" + RefPath(doc[i]).value;
        if i < |pre| {
          assert pre[i] == doc[i];
        }
      }
    }
  }

  lemma {:induction false} HasIconIff(doc: Document, tags: set<string>)
    ensures HasIcon(doc, tags) <==> exists i :: 0 <= i < |doc| && Referenced(doc[i], tags) && IsIconLink(doc[i])
    decreases |doc|
  {
    if |doc| > 0 {
      var pre := doc[..|doc| - 1];
      HasIconIff(pre, tags);
      if HasIcon(pre, tags) {
        var i :| 0 <= i < |pre| && Referenced(pre[i], tags) && IsIconLink(pre[i]);
        assert doc[i] == pre[i];
      }
      if exists i :: 0 <= i < |doc| && Referenced(doc[i], tags) && IsIconLink(doc[i]) {
        var i :| 0 <= i < |doc| && Referenced(doc[i], tags) && IsIconLink(doc[i]);
        if i < |pre| {
          assert pre[i] == doc[i];
        }
      }
    }
  }

  /** Every `<link>` with an accepted `href` is listed, whatever its `rel`,
      and nothing else is. */
  lemma CssNamesListEveryLink(doc: Document, n: string)
    ensures n in RefNames(doc, LINK_TAGS) <==>
      exists i :: 0 <= i < |doc| && doc[i].tag == "link" && RefPath(doc[i]).Some? && n == "/" + RefPath(doc[i]).value
  {
    RefNamesMembers(doc, LINK_TAGS, n);
  }

  /** The empty favicon is added exactly when no selected link with an
      accepted path is an icon; the rest of the page is unchanged. */
  lemma FaviconInsertedIff(doc: Document, tags: set<string>)
    ensures |WithFavicon(doc, tags)| == |doc| + 1 <==>
      forall i :: 0 <= i < |doc| && Referenced(doc[i], tags) ==> !IsIconLink(doc[i])
    ensures WithFavicon(doc, tags)[..|doc|] == doc
  {
    HasIconIff(doc, tags);
  }

  /** The common loop of the three walks: every selected element with an
      accepted path, and whether one of them is an icon link. */
  method ScanReferences(doc: Document, tags: set<string>) returns (names: seq<string>, foundFavicon: bool)
    ensures names == RefNames(doc, tags)
    ensures foundFavicon == HasIcon(doc, tags)
  {
    names := [];
    foundFavicon := false;
    var k := 0;
    while k < |doc|
      invariant k <= |doc|
      invariant names == RefNames(doc[..k], tags)
      invariant foundFavicon == HasIcon(doc[..k], tags)
    {
      var e := doc[k];
      if e.tag in tags {
        var path := AcceptPath(GetAttribute(e, PathAttribute(e.tag)));
        if path.Some? {
          names := names + ["/" + path.value];
          if IsIconLink(e) {
            foundFavicon := true;
          }
        }
      }
      assert doc[..k + 1][..k] == doc[..k];
      k := k + 1;
    }
    assert doc[..k] == doc;
  }

  /** `parse_css_names`: the names of the page's links, and the page with an
      empty favicon added when it has no icon link. */
  method ParseCssNames(doc: Document) returns (names: seq<string>, page: Document)
    ensures names == RefNames(doc, LINK_TAGS)
    ensures page == WithFavicon(doc, LINK_TAGS)
  {
    var found;
    names, found := ScanReferences(doc, LINK_TAGS);
    if !found {
      page := InsertEmptyFavicon(doc);
    } else {
      page := doc;
    }
  }

  /** Each path with a `/` in front. */
  function Prefixed(paths: seq<string>): (r: seq<string>)
    ensures |r| == |paths|
    ensures forall k :: 0 <= k < |r| ==> r[k] == "/" + paths[k]
    ensures Slashed(r)
  {
    seq(|paths|, k requires 0 <= k < |paths| => "/" + paths[k])
  }

  /** The names of the images the page's `<style>` elements use; None when
      a `<style>` has no text as its last child, where the library's
      `unwrap` panics. */
  function StyleImageNames(doc: Document, rw: string -> string): (r: Option<seq<string>>)
    ensures r.Some? <==> forall i :: 0 <= i < |doc| && doc[i].tag == "style" ==> doc[i].lastText.Some?
    ensures r.Some? ==> Slashed(r.value)
    decreases |doc|
  {
    if |doc| == 0 then Some([])
    else
      var pre := doc[..|doc| - 1];
      var e := Last(doc);
      assert forall i :: 0 <= i < |pre| ==> pre[i] == doc[i];
      match StyleImageNames(pre, rw)
      case None => None
      case Some(names) =>
        if e.tag != "style" then Some(names)
        else match e.lastText
          case None => None
          case Some(text) =>
            SlashedAppend(names, Prefixed(CssImages(text, rw)));
            Some(names + Prefixed(CssImages(text, rw)))
  }

  /** The inner loop of the style walk: push each path with a `/` in front. */
  method PushPrefixed(names: seq<string>, paths: seq<string>) returns (r: seq<string>)
    ensures r == names + Prefixed(paths)
  {
    r := names;
    var j := 0;
    while j < |paths|
      invariant j <= |paths|
      invariant r == names + Prefixed(paths[..j])
    {
      r := r + ["/" + paths[j]];
      j := j + 1;
      assert Prefixed(paths[..j]) == Prefixed(paths[..j - 1]) + ["/" + paths[j - 1]];
    }
    assert paths[..j] == paths;
  }

  /** What `parse_object_names` returns and leaves behind. */
  function ObjectNames(doc: Document, rw: string -> string): (r: Outcome<(seq<string>, Document)>)
    ensures !r.Err?
    ensures r.Ok? <==> forall i :: 0 <= i < |doc| && doc[i].tag == "style" ==> doc[i].lastText.Some?
    ensures r.Ok? ==> Slashed(r.value.0)
    ensures r.Ok? ==> |RefNames(doc, OBJECT_TAGS)| <= |r.value.0|
    ensures r.Ok? ==> r.value.0[..|RefNames(doc, OBJECT_TAGS)|] == RefNames(doc, OBJECT_TAGS)
    ensures r.Ok? ==> r.value.1 == WithFavicon(doc, OBJECT_TAGS)
  {
    match StyleImageNames(doc, rw)
    case None => Panic("style element without a text child")
    case Some(styleNames) =>
      var refs := RefNames(doc, OBJECT_TAGS);
      SlashedAppend(refs, styleNames);
      assert (refs + styleNames)[..|refs|] == refs;
      Ok((refs + styleNames, WithFavicon(doc, OBJECT_TAGS)))
  }

  /** `parse_object_names`: the references of images, links and scripts,
      then the images of every `<style>`. */
  method ParseObjectNames(doc: Document, rw: string -> string) returns (r: Outcome<(seq<string>, Document)>)
    ensures r == ObjectNames(doc, rw)
  {
    var names, found := ScanReferences(doc, OBJECT_TAGS);
    var styleNames := StyleNames(doc, rw);
    if styleNames.None? {
      return Panic("style element without a text child");
    }
    var page := if found then doc else InsertEmptyFavicon(doc);
    r := Ok((names + styleNames.value, page));
  }

  /** The second loop of `parse_object_names`: the images of each `<style>`
      in turn; None at the first `<style>` without text. */
  method StyleNames(doc: Document, rw: string -> string) returns (r: Option<seq<string>>)
    ensures r == StyleImageNames(doc, rw)
  {
    var styleNames: seq<string> := [];
    var k := 0;
    while k < |doc|
      invariant k <= |doc|
      invariant StyleImageNames(doc[..k], rw) == Some(styleNames)
    {
      var e := doc[k];
      StyleNamesUnfold(doc, k, rw, styleNames);
      if e.tag == "style" {
        if e.lastText.None? {
          StylePanicStays(doc, rw, k + 1);
          return None;
        }
        var images := ParseCssImages(e.lastText.value, rw);
        styleNames := PushPrefixed(styleNames, images);
      }
      k := k + 1;
    }
    assert doc[..k] == doc;
    return Some(styleNames);
  }

  /** The names of one more element, from those of the elements before it. */
  lemma StyleNamesUnfold(doc: Document, k: nat, rw: string -> string, names: seq<string>)
    requires k < |doc| && StyleImageNames(doc[..k], rw) == Some(names)
    ensures StyleImageNames(doc[..k + 1], rw) ==
      (if doc[k].tag != "style" then Some(names)
       else if doc[k].lastText.None? then None
       else Some(names + Prefixed(CssImages(doc[k].lastText.value, rw))))
  {
    var next := doc[..k + 1];
    assert next[..k] == doc[..k] && Last(next) == doc[k];
  }

  /** A `<style>` without text in a prefix makes the whole walk fail. */
  lemma StylePanicStays(doc: Document, rw: string -> string, k: nat)
    requires k <= |doc| && StyleImageNames(doc[..k], rw).None?
    ensures StyleImageNames(doc, rw).None?
  {
    var i :| 0 <= i < k && doc[..k][i].tag == "style" && doc[..k][i].lastText.None?;
    assert doc[i] == doc[..k][i];
  }

  // ---------------------------------------------------------------------
  // parse_objects

  /** The kind `parse_objects` gives a selected element with an accepted
      path, from its tag and `rel`; None for a link it does not collect. */
  function ObjectKindOf(e: Element): Option<ObjectKind> {
    if e.tag == "link" then
      if Rel(e) == "stylesheet" then Some(CSS)
      else if Rel(e) == "shortcut icon" || Rel(e) == "icon" then Some(IMG)
      else None
    else if e.tag == "script" then Some(JS)
    else if e.tag == "img" then Some(IMG)
    else None
  }

  /** The cache key of a path: `/` and the part before the first `?`. */
  function CacheKey(path: string): (key: string)
    ensures |key| > 0 && key[0] == '/' && '?' !in key
  {
    var head := SplitOn(path, "?")[0];
    assert '?' !in head by {
      if IndexOf(path, "?").Some? {
        var i := IndexOf(path, "?").value;
        forall j | 0 <= j < i ensures path[j] != '?' {
          assert !OccursAt(path, "?", j);
          assert path[j..j + 1][0] == path[j];
        }
      } else {
        forall j | 0 <= j < |path| ensures path[j] != '?' {
          assert !OccursAt(path, "?", j);
          assert path[j..j + 1][0] == path[j];
        }
      }
    }
    "/" + head
  }

  /** An element the first walk of `parse_objects` collects. */
  predicate Collected(e: Element) {
    Referenced(e, OBJECT_TAGS) && ObjectKindOf(e).Some?
  }

  /** `o` is the object the first walk builds for the element it points at. */
  predicate FromReference(doc: Document, cache: Cache, o: Object) {
    o.node.Some? && o.node.value < |doc| && Collected(doc[o.node.value]) &&
    o.uri == RefPath(doc[o.node.value]).value && Some(o.kind) == ObjectKindOf(doc[o.node.value]) &&
    CacheKey(o.uri) in cache && o.content == cache[CacheKey(o.uri)] && o.targetSize.None?
  }

  /** `o` is an object the style walk builds for an image of the `<style>`
      it points at. */
  predicate FromStyle(doc: Document, cache: Cache, rw: string -> string, o: Object) {
    o.node.Some? && o.node.value < |doc| && doc[o.node.value].tag == "style" &&
    doc[o.node.value].lastText.Some? && o.uri in CssImages(doc[o.node.value].lastText.value, rw) &&
    o.kind == CSS && CacheKey(o.uri) in cache && o.content == cache[CacheKey(o.uri)] && o.targetSize.None?
  }

  /** Each object stands for a later element than the one before it. */
  predicate NodesIncrease(objs: seq<Object>) {
    forall a, b :: 0 <= a < b < |objs| ==>
      objs[a].node.Some? && objs[b].node.Some? && objs[a].node.value < objs[b].node.value
  }

  /** Some object stands for element `node` with path `uri`. */
  predicate HasObject(objs: seq<Object>, node: nat, uri: string) {
    exists k :: 0 <= k < |objs| && objs[k].node == Some(node) && objs[k].uri == uri
  }

  /** Every collected element has an object for its path. */
  predicate RefsCovered(doc: Document, objs: seq<Object>) {
    forall i :: 0 <= i < |doc| && Collected(doc[i]) ==> HasObject(objs, i, RefPath(doc[i]).value)
  }

  /** Every image path of every `<style>` has an object standing for that
      `<style>`. */
  predicate StylesCovered(doc: Document, rw: string -> string, objs: seq<Object>) {
    forall i :: 0 <= i < |doc| ==> StyleCoveredAt(doc[i], i, rw, objs)
  }

  /** Every image path of `e`, element `node` of the page, has an object. */
  predicate StyleCoveredAt(e: Element, node: nat, rw: string -> string, objs: seq<Object>) {
    var paths := StyleImagesOf(e, rw);
    forall j :: 0 <= j < |paths| ==> HasObject(objs, node, paths[j])
  }

  /** The image paths of a `<style>` with text; none for other elements. */
  function StyleImagesOf(e: Element, rw: string -> string): seq<string> {
    if e.tag == "style" && e.lastText.Some? then CssImages(e.lastText.value, rw) else []
  }

  /** An element the style walk gets past: not a `<style>`, or one with a
      text child each of whose images has a cached body. */
  predicate StyleReady(e: Element, cache: Cache, rw: string -> string) {
    e.tag == "style" ==>
      e.lastText.Some? &&
      var paths := CssImages(e.lastText.value, rw);
      forall k :: 0 <= k < |paths| ==> CacheKey(paths[k]) in cache
  }

  /** The first walk: one object per collected element, in document order;
      a panic when a collected path has no cached body. */
  function RefObjects(doc: Document, cache: Cache): (r: Outcome<seq<Object>>)
    ensures !r.Err?
    ensures r.Ok? <==> forall i :: 0 <= i < |doc| && Collected(doc[i]) ==> CacheKey(RefPath(doc[i]).value) in cache
    ensures r.Ok? ==> |r.value| <= |doc|
    ensures r.Ok? ==> forall k :: 0 <= k < |r.value| ==> FromReference(doc, cache, r.value[k])
    ensures r.Ok? ==> NodesIncrease(r.value) && RefsCovered(doc, r.value)
    decreases |doc|
  {
    if |doc| == 0 then Ok([])
    else
      var i := |doc| - 1;
      var pre := doc[..i];
      var e := doc[i];
      assert forall j :: 0 <= j < i ==> pre[j] == doc[j];
      var rest := RefObjects(pre, cache);
      if !rest.Ok? then rest
      else if !Collected(e) then
        RefCoverStep(doc, cache, rest.value, rest.value);
        rest
      else
        var key := CacheKey(RefPath(e).value);
        if key in cache then
          var out := rest.value + [Existing(cache[key], ObjectKindOf(e).value, RefPath(e).value, i)];
          RefCoverStep(doc, cache, rest.value, out);
          Ok(out)
        else Panic("map_get returned NULL")
  }

  /** One step of the first walk keeps the objects in document order and
      gives the last element its object when it is collected. */
  lemma RefCoverStep(doc: Document, cache: Cache, rest: seq<Object>, out: seq<Object>)
    requires |doc| > 0
    requires forall k :: 0 <= k < |rest| ==> FromReference(doc[..|doc| - 1], cache, rest[k])
    requires NodesIncrease(rest) && RefsCovered(doc[..|doc| - 1], rest)
    requires Collected(Last(doc)) ==>
      |out| == |rest| + 1 && out[..|rest|] == rest &&
      out[|rest|].node == Some(|doc| - 1) && out[|rest|].uri == RefPath(Last(doc)).value
    requires !Collected(Last(doc)) ==> out == rest
    ensures NodesIncrease(out) && RefsCovered(doc, out)
  {
    var n := |doc| - 1;
    var pre := doc[..n];
    forall k | 0 <= k < |rest| ensures rest[k].node.Some? && rest[k].node.value < n {
      assert FromReference(pre, cache, rest[k]);
    }
    forall k | 0 <= k < |rest| ensures out[k] == rest[k] {
      if Collected(Last(doc)) {
        assert out[..|rest|][k] == out[k];
      }
    }
    forall i | 0 <= i < |doc| && Collected(doc[i])
      ensures HasObject(out, i, RefPath(doc[i]).value)
    {
      if i == n {
        assert out[|rest|].node == Some(i);
      } else {
        assert pre[i] == doc[i];
        var k :| 0 <= k < |rest| && rest[k].node == Some(i) && rest[k].uri == RefPath(pre[i]).value;
        assert out[k] == rest[k];
      }
    }
    forall a, b | 0 <= a < b < |out|
      ensures out[a].node.Some? && out[b].node.Some? && out[a].node.value < out[b].node.value
    {
      assert out[a] == rest[a];
      if b < |rest| {
        assert out[b] == rest[b];
      }
    }
  }

  /** The objects of the images one `<style>` uses, in order. */
  function PathObjects(paths: seq<string>, cache: Cache, node: nat): (r: Outcome<seq<Object>>)
    ensures !r.Err?
    ensures r.Ok? <==> forall k :: 0 <= k < |paths| ==> CacheKey(paths[k]) in cache
    ensures r.Ok? ==> |r.value| == |paths|
    ensures r.Ok? ==> forall k :: 0 <= k < |paths| ==>
      r.value[k] == Existing(cache[CacheKey(paths[k])], CSS, paths[k], node)
    decreases |paths|
  {
    if |paths| == 0 then Ok([])
    else
      var pre := paths[..|paths| - 1];
      var p := Last(paths);
      var rest := PathObjects(pre, cache, node);
      if !rest.Ok? then rest
      else if CacheKey(p) in cache then Ok(rest.value + [Existing(cache[CacheKey(p)], CSS, p, node)])
      else Panic("map_get returned NULL")
  }

  /** The style walk: for every `<style>`, the objects of the images its
      text uses. */
  function StyleObjects(doc: Document, cache: Cache, rw: string -> string): (r: Outcome<seq<Object>>)
    ensures !r.Err?
    ensures r.Ok? ==> forall i :: 0 <= i < |doc| && doc[i].tag == "style" ==> doc[i].lastText.Some?
    ensures r.Ok? ==> forall k :: 0 <= k < |r.value| ==> FromStyle(doc, cache, rw, r.value[k])
    decreases |doc|
  {
    if |doc| == 0 then Ok([])
    else
      var i := |doc| - 1;
      var e := doc[i];
      var rest := StyleObjects(doc[..i], cache, rw);
      if !rest.Ok? then rest
      else if e.tag == "style" && e.lastText.None? then Panic("style element without a text child")
      else
        var own := if e.tag != "style" then Ok([]) else PathObjects(CssImages(e.lastText.value, rw), cache, i);
        if !own.Ok? then own
        else
          StyleStep(doc, doc[..i], cache, rw, rest.value, own.value);
          Ok(rest.value + own.value)
  }

  /** The style walk succeeds exactly when every `<style>` has a text child
      and every image it uses has a cached body, and then every image of
      every `<style>` has its object. */
  lemma {:induction false} StyleObjectsCover(doc: Document, cache: Cache, rw: string -> string)
    ensures StyleObjects(doc, cache, rw).Ok? <==> forall i :: 0 <= i < |doc| ==> StyleReady(doc[i], cache, rw)
    ensures StyleObjects(doc, cache, rw).Ok? ==> StylesCovered(doc, rw, StyleObjects(doc, cache, rw).value)
    decreases |doc|
  {
    if |doc| > 0 {
      var i := |doc| - 1;
      var e := doc[i];
      var pre := doc[..i];
      ReadyAppend(doc, pre, cache, rw);
      StyleObjectsCover(pre, cache, rw);
      var rest := StyleObjects(pre, cache, rw);
      if !rest.Ok? {
        assert StyleObjects(doc, cache, rw) == rest;
      } else if e.tag == "style" && e.lastText.None? {
        assert !StyleReady(e, cache, rw);
      } else {
        var own := if e.tag != "style" then Ok([]) else PathObjects(CssImages(e.lastText.value, rw), cache, i);
        assert own.Ok? <==> StyleReady(e, cache, rw);
        if own.Ok? {
          assert StyleObjects(doc, cache, rw) == Ok(rest.value + own.value);
          PathObjectsCover(e, rw, cache, i, own.value);
          StyleCoverStep(doc, pre, rw, rest.value, own.value);
        } else {
          assert StyleObjects(doc, cache, rw) == own;
        }
      }
    }
  }

  /** Every element of a page is ready iff every element before the last
      one is and the last one is. */
  lemma ReadyAppend(doc: Document, pre: Document, cache: Cache, rw: string -> string)
    requires |doc| > 0 && pre == doc[..|doc| - 1]
    ensures (forall i :: 0 <= i < |doc| ==> StyleReady(doc[i], cache, rw)) <==>
      (forall i :: 0 <= i < |pre| ==> StyleReady(pre[i], cache, rw)) && StyleReady(Last(doc), cache, rw)
  {
    assert forall j :: 0 <= j < |pre| ==> pre[j] == doc[j];
  }


  /** One step of the style walk keeps what it promises: the objects of the
      prefix and those of the last element's images all come from a style
      of the whole page. */
  lemma StyleStep(doc: Document, pre: Document, cache: Cache, rw: string -> string, rest: seq<Object>, own: seq<Object>)
    requires |doc| > 0 && pre == doc[..|doc| - 1]
    requires forall i :: 0 <= i < |pre| && pre[i].tag == "style" ==> pre[i].lastText.Some?
    requires forall k :: 0 <= k < |rest| ==> FromStyle(pre, cache, rw, rest[k])
    requires Last(doc).tag == "style" ==>
      (Last(doc).lastText.Some? && PathObjects(CssImages(Last(doc).lastText.value, rw), cache, |pre|) == Ok(own))
    requires Last(doc).tag != "style" ==> own == []
    ensures forall i :: 0 <= i < |doc| && doc[i].tag == "style" ==> doc[i].lastText.Some?
    ensures forall k :: 0 <= k < |rest + own| ==> FromStyle(doc, cache, rw, (rest + own)[k])
  {
    var n := |pre|;
    forall i | 0 <= i < n ensures pre[i] == doc[i] { }
    forall k | 0 <= k < |rest + own| ensures FromStyle(doc, cache, rw, (rest + own)[k]) {
      if k < |rest| {
        assert (rest + own)[k] == rest[k];
        assert pre[rest[k].node.value] == doc[rest[k].node.value];
      } else {
        assert (rest + own)[k] == own[k - |rest|];
      }
    }
  }

  /** One step of the style walk gives every image of the last element, when
      it is a `<style>`, its object, and keeps those of the prefix. */
  lemma StyleCoverStep(doc: Document, pre: Document, rw: string -> string, rest: seq<Object>, own: seq<Object>)
    requires |doc| > 0 && pre == doc[..|doc| - 1]
    requires StylesCovered(pre, rw, rest)
    requires StyleCoveredAt(Last(doc), |pre|, rw, own)
    ensures StylesCovered(doc, rw, rest + own)
  {
    forall i | 0 <= i < |doc| ensures StyleCoveredAt(doc[i], i, rw, rest + own) {
      if i == |pre| {
        CoveredAtAppend(doc[i], i, rw, rest, own);
      } else {
        assert pre[i] == doc[i];
        CoveredAtAppend(doc[i], i, rw, rest, own);
      }
    }
  }

  /** What either part covers of one element, both together cover. */
  lemma CoveredAtAppend(e: Element, node: nat, rw: string -> string, a: seq<Object>, b: seq<Object>)
    requires StyleCoveredAt(e, node, rw, a) || StyleCoveredAt(e, node, rw, b)
    ensures StyleCoveredAt(e, node, rw, a + b)
  {
    var paths := StyleImagesOf(e, rw);
    forall j | 0 <= j < |paths| ensures HasObject(a + b, node, paths[j]) {
      HasObjectAppend(a, b, node, paths[j]);
    }
  }

  /** The objects of one `<style>`'s images stand for every image. */
  lemma PathObjectsCover(e: Element, rw: string -> string, cache: Cache, node: nat, own: seq<Object>)
    requires e.tag == "style" ==> e.lastText.Some? && PathObjects(CssImages(e.lastText.value, rw), cache, node) == Ok(own)
    ensures StyleCoveredAt(e, node, rw, own)
  {
    var paths := StyleImagesOf(e, rw);
    forall j | 0 <= j < |paths| ensures HasObject(own, node, paths[j]) {
      assert own[j].node == Some(node) && own[j].uri == paths[j];
    }
  }

  /** An object of either part is an object of both together. */
  lemma HasObjectAppend(a: seq<Object>, b: seq<Object>, node: nat, uri: string)
    requires HasObject(a, node, uri) || HasObject(b, node, uri)
    ensures HasObject(a + b, node, uri)
  {
    if HasObject(a, node, uri) {
      var k :| 0 <= k < |a| && a[k].node == Some(node) && a[k].uri == uri;
      assert (a + b)[k] == a[k];
    } else {
      var k :| 0 <= k < |b| && b[k].node == Some(node) && b[k].uri == uri;
      assert (a + b)[|a| + k] == b[k];
    }
  }

  /** Objects sorted by content length, larger first. */
  predicate SortedBySize(s: seq<Object>) {
    forall i, j :: 0 <= i < j < |s| ==> |s[i].content| >= |s[j].content|
  }

  function InsertBySize(o: Object, s: seq<Object>): (r: seq<Object>)
    requires SortedBySize(s)
    ensures SortedBySize(r)
    ensures |r| == |s| + 1 && (r[0] == o || (|s| > 0 && r[0] == s[0]))
    ensures multiset(r) == multiset(s) + multiset{o}
    decreases |s|
  {
    if |s| == 0 then [o]
    else if |o.content| >= |s[0].content| then
      ConsSorted(o, s);
      [o] + s
    else
      var tail := InsertBySize(o, s[1..]);
      assert s == [s[0]] + s[1..];
      ConsSorted(s[0], tail);
      [s[0]] + tail
  }

  /** An object no smaller than the head of a sorted list may go before it. */
  lemma ConsSorted(x: Object, s: seq<Object>)
    requires SortedBySize(s) && (|s| > 0 ==> |x.content| >= |s[0].content|)
    ensures SortedBySize([x] + s)
  {
    var r := [x] + s;
    forall i, j | 0 <= i < j < |r| ensures |r[i].content| >= |r[j].content| {
      if i == 0 {
        assert r[j] == s[j - 1];
        if j > 1 {
          assert |s[0].content| >= |s[j - 1].content|;
        }
      } else {
        assert r[i] == s[i - 1] && r[j] == s[j - 1];
      }
    }
  }

  /** The order `sort_unstable_by` puts the objects in. */
  function SortBySize(s: seq<Object>): (r: seq<Object>)
    ensures SortedBySize(r)
    ensures multiset(r) == multiset(s)
    decreases |s|
  {
    if |s| == 0 then []
    else
      assert s == [s[0]] + s[1..];
      InsertBySize(s[0], SortBySize(s[1..]))
  }

  /** An object either walk of `parse_objects` can build. */
  predicate FromPage(doc: Document, cache: Cache, rw: string -> string, o: Object) {
    FromReference(doc, cache, o) || FromStyle(doc, cache, rw, o)
  }

  lemma FromPageAppend(doc: Document, cache: Cache, rw: string -> string, a: seq<Object>, b: seq<Object>)
    requires forall k :: 0 <= k < |a| ==> FromReference(doc, cache, a[k])
    requires forall k :: 0 <= k < |b| ==> FromStyle(doc, cache, rw, b[k])
    ensures forall k :: 0 <= k < |a + b| ==> FromPage(doc, cache, rw, (a + b)[k])
  {
    forall k | 0 <= k < |a + b|
      ensures FromPage(doc, cache, rw, (a + b)[k])
    {
      if k < |a| {
        assert (a + b)[k] == a[k];
      } else {
        assert (a + b)[k] == b[k - |a|];
      }
    }
  }

  /** Both walks of `parse_objects`, before sorting. */
  function CollectObjects(doc: Document, cache: Cache, rw: string -> string): (r: Outcome<seq<Object>>)
    ensures !r.Err?
    ensures r.Ok? ==> forall k :: 0 <= k < |r.value| ==> FromPage(doc, cache, rw, r.value[k])
    ensures r.Ok? <==>
      (forall i :: 0 <= i < |doc| && Collected(doc[i]) ==> CacheKey(RefPath(doc[i]).value) in cache) &&
      (forall i :: 0 <= i < |doc| ==> StyleReady(doc[i], cache, rw))
    ensures r.Ok? ==> RefsCovered(doc, r.value) && StylesCovered(doc, rw, r.value)
  {
    StyleObjectsCover(doc, cache, rw);
    var refs := RefObjects(doc, cache);
    if !refs.Ok? then refs
    else
      var styles := StyleObjects(doc, cache, rw);
      if !styles.Ok? then styles
      else
        FromPageAppend(doc, cache, rw, refs.value, styles.value);
        CoveredAppend(doc, rw, refs.value, styles.value);
        Ok(refs.value + styles.value)
  }

  /** The objects of both walks together cover what each walk covers. */
  lemma CoveredAppend(doc: Document, rw: string -> string, a: seq<Object>, b: seq<Object>)
    requires RefsCovered(doc, a) && StylesCovered(doc, rw, b)
    ensures RefsCovered(doc, a + b)
    ensures StylesCovered(doc, rw, a + b)
  {
    forall i | 0 <= i < |doc| && Collected(doc[i])
      ensures HasObject(a + b, i, RefPath(doc[i]).value)
    {
      HasObjectAppend(a, b, i, RefPath(doc[i]).value);
    }
    forall i | 0 <= i < |doc| ensures StyleCoveredAt(doc[i], i, rw, a + b) {
      CoveredAtAppend(doc[i], i, rw, a, b);
    }
  }

  /** A permutation of objects covers what they cover. */
  lemma CoveredPermuted(doc: Document, rw: string -> string, all: seq<Object>, sorted: seq<Object>)
    requires multiset(sorted) == multiset(all)
    requires RefsCovered(doc, all) && StylesCovered(doc, rw, all)
    ensures RefsCovered(doc, sorted) && StylesCovered(doc, rw, sorted)
  {
    forall i | 0 <= i < |doc| && Collected(doc[i])
      ensures HasObject(sorted, i, RefPath(doc[i]).value)
    {
      var k :| 0 <= k < |all| && all[k].node == Some(i) && all[k].uri == RefPath(doc[i]).value;
      assert all[k] in multiset(sorted);
      var m :| 0 <= m < |sorted| && sorted[m] == all[k];
    }
    forall i | 0 <= i < |doc| ensures StyleCoveredAt(doc[i], i, rw, sorted) {
      var paths := StyleImagesOf(doc[i], rw);
      forall j | 0 <= j < |paths| ensures HasObject(sorted, i, paths[j]) {
        assert StyleCoveredAt(doc[i], i, rw, all);
        var k :| 0 <= k < |all| && all[k].node == Some(i) && all[k].uri == paths[j];
        assert all[k] in multiset(sorted);
        var m :| 0 <= m < |sorted| && sorted[m] == all[k];
      }
    }
  }

  /** What `parse_objects` returns and leaves behind. */
  function ObjectsOf(doc: Document, cache: Cache, rw: string -> string): (r: Outcome<(seq<Object>, Document)>)
    ensures !r.Err?
    ensures r.Ok? <==> CollectObjects(doc, cache, rw).Ok?
    ensures r.Ok? ==> SortedBySize(r.value.0)
    ensures r.Ok? ==> multiset(r.value.0) == multiset(CollectObjects(doc, cache, rw).value)
    ensures r.Ok? ==> r.value.1 == WithFavicon(doc, OBJECT_TAGS) && NodesIn(r.value.1, r.value.0)
    ensures r.Ok? ==> RefsCovered(doc, r.value.0) && StylesCovered(doc, rw, r.value.0)
  {
    var all := CollectObjects(doc, cache, rw);
    if !all.Ok? then Panic(all.msg)
    else
      var sorted := SortBySize(all.value);
      var page := WithFavicon(doc, OBJECT_TAGS);
      SortedFromPage(doc, cache, rw, all.value, sorted);
      CoveredPermuted(doc, rw, all.value, sorted);
      Ok((sorted, page))
  }

  /** A permutation of objects built from the page is built from the page,
      and points into the page with the favicon check applied. */
  lemma SortedFromPage(doc: Document, cache: Cache, rw: string -> string, all: seq<Object>, sorted: seq<Object>)
    requires forall k :: 0 <= k < |all| ==> FromPage(doc, cache, rw, all[k])
    requires multiset(sorted) == multiset(all)
    ensures forall k :: 0 <= k < |sorted| ==> FromPage(doc, cache, rw, sorted[k])
    ensures NodesIn(WithFavicon(doc, OBJECT_TAGS), sorted)
  {
    forall k | 0 <= k < |sorted| ensures FromPage(doc, cache, rw, sorted[k]) {
      assert sorted[k] in multiset(all);
      var j :| 0 <= j < |all| && all[j] == sorted[k];
    }
    assert |WithFavicon(doc, OBJECT_TAGS)| >= |doc|;
  }

  /** Every object `parse_objects` returns either stands for a collected
      element whose path, with the query dropped, keys its cached body, or
      for a `<style>` one of whose images it is, with that image's body;
      and every collected element and every image of every `<style>` has
      its object. */
  lemma ParsedObjectsFromPage(doc: Document, cache: Cache, rw: string -> string, k: nat)
    requires ObjectsOf(doc, cache, rw).Ok? && k < |ObjectsOf(doc, cache, rw).value.0|
    ensures FromPage(doc, cache, rw, ObjectsOf(doc, cache, rw).value.0[k])
    ensures RefsCovered(doc, ObjectsOf(doc, cache, rw).value.0)
    ensures StylesCovered(doc, rw, ObjectsOf(doc, cache, rw).value.0)
  {
    var objs := ObjectsOf(doc, cache, rw).value.0;
    assert objs[k] in multiset(objs);
  }

  /** The inner loop of the style walk of `parse_objects`. */
  method CollectPathObjects(objects: seq<Object>, paths: seq<string>, cache: Cache, node: nat)
    returns (r: Outcome<seq<Object>>)
    ensures PathObjects(paths, cache, node).Ok? ==> r == Ok(objects + PathObjects(paths, cache, node).value)
    ensures !PathObjects(paths, cache, node).Ok? ==> r.Panic?
  {
    var acc := objects;
    var j := 0;
    while j < |paths|
      invariant j <= |paths|
      invariant PathObjects(paths[..j], cache, node).Ok?
      invariant acc == objects + PathObjects(paths[..j], cache, node).value
    {
      var key := CacheKey(paths[j]);
      if key !in cache {
        assert !PathObjects(paths, cache, node).Ok?;
        return Panic("map_get returned NULL");
      }
      PathObjectsUnfold(paths, j, cache, node);
      acc := acc + [Existing(cache[key], CSS, paths[j], node)];
      j := j + 1;
    }
    assert paths[..j] == paths;
    r := Ok(acc);
  }

  /** The objects of one more path with a cached body. */
  lemma PathObjectsUnfold(paths: seq<string>, j: nat, cache: Cache, node: nat)
    requires j < |paths| && PathObjects(paths[..j], cache, node).Ok? && CacheKey(paths[j]) in cache
    ensures PathObjects(paths[..j + 1], cache, node) ==
      Ok(PathObjects(paths[..j], cache, node).value + [Existing(cache[CacheKey(paths[j])], CSS, paths[j], node)])
  {
    assert paths[..j + 1][..j] == paths[..j];
  }

  /** The first walk of `parse_objects`, with its `found_favicon` flag. */
  method CollectRefObjects(doc: Document, cache: Cache) returns (r: Outcome<(seq<Object>, bool)>)
    ensures r.Ok? <==> RefObjects(doc, cache).Ok?
    ensures r.Ok? ==> r.value == (RefObjects(doc, cache).value, HasIcon(doc, OBJECT_TAGS))
  {
    var objects: seq<Object> := [];
    var foundFavicon := false;
    var k := 0;
    while k < |doc|
      invariant k <= |doc|
      invariant RefObjects(doc[..k], cache) == Ok(objects)
      invariant foundFavicon == HasIcon(doc[..k], OBJECT_TAGS)
    {
      var st := RefStep(doc, cache, k, objects, foundFavicon);
      if st.Panic? {
        return st;
      }
      objects, foundFavicon := st.value.0, st.value.1;
      k := k + 1;
    }
    assert doc[..k] == doc;
    r := Ok((objects, foundFavicon));
  }

  /** One pass of the first walk: element `k` examined. The walk panics
      only at an element whose path has no cached body. */
  method RefStep(doc: Document, cache: Cache, k: nat, objects: seq<Object>, foundFavicon: bool)
    returns (st: Outcome<(seq<Object>, bool)>)
    requires k < |doc| && RefObjects(doc[..k], cache) == Ok(objects)
    requires foundFavicon == HasIcon(doc[..k], OBJECT_TAGS)
    ensures !st.Err?
    ensures st.Panic? ==> Collected(doc[k]) && CacheKey(RefPath(doc[k]).value) !in cache
    ensures st.Ok? ==> RefObjects(doc[..k + 1], cache) == Ok(st.value.0)
    ensures st.Ok? ==> st.value.1 == HasIcon(doc[..k + 1], OBJECT_TAGS)
  {
    var e := doc[k];
    ghost var next := doc[..k + 1];
    assert next[..k] == doc[..k] && Last(next) == e;
    var found := foundFavicon;
    if e.tag in OBJECT_TAGS && AcceptPath(GetAttribute(e, PathAttribute(e.tag))).Some? && ObjectKindOf(e).Some? {
      var path := AcceptPath(GetAttribute(e, PathAttribute(e.tag))).value;
      var kind := ObjectKindOf(e).value;
      if IsIconLink(e) {
        found := true;
      }
      var key := CacheKey(path);
      if key !in cache {
        return Panic("map_get returned NULL");
      }
      assert RefObjects(next, cache) == Ok(objects + [Existing(cache[key], kind, path, k)]);
      st := Ok((objects + [Existing(cache[key], kind, path, k)], found));
    } else {
      assert RefObjects(next, cache) == Ok(objects);
      st := Ok((objects, found));
    }
  }

  /** The style walk of `parse_objects`. */
  method CollectStyleObjects(doc: Document, cache: Cache, rw: string -> string) returns (r: Outcome<seq<Object>>)
    ensures r.Ok? <==> StyleObjects(doc, cache, rw).Ok?
    ensures r.Ok? ==> r == StyleObjects(doc, cache, rw)
  {
    var k := 0;
    var styles: seq<Object> := [];
    while k < |doc|
      invariant k <= |doc|
      invariant StyleObjects(doc[..k], cache, rw) == Ok(styles)
    {
      var e := doc[k];
      StyleUnfold(doc, k, cache, rw, styles);
      if e.tag == "style" {
        if e.lastText.None? {
          StylePanicSpreads(doc, k + 1, cache, rw);
          return Panic("style element without a text child");
        }
        var paths := ParseCssImages(e.lastText.value, rw);
        var more := CollectPathObjects(styles, paths, cache, k);
        if !more.Ok? {
          StylePanicSpreads(doc, k + 1, cache, rw);
          return Panic("map_get returned NULL");
        }
        styles := more.value;
      }
      k := k + 1;
    }
    assert doc[..k] == doc;
    r := Ok(styles);
  }

  /** The style walk over one more element. */
  lemma StyleUnfold(doc: Document, k: nat, cache: Cache, rw: string -> string, styles: seq<Object>)
    requires k < |doc| && StyleObjects(doc[..k], cache, rw) == Ok(styles)
    ensures doc[k].tag != "style" ==> StyleObjects(doc[..k + 1], cache, rw) == Ok(styles)
    ensures doc[k].tag == "style" && doc[k].lastText.None? ==> StyleObjects(doc[..k + 1], cache, rw).Panic?
    ensures doc[k].tag == "style" && doc[k].lastText.Some? ==>
      var own := PathObjects(CssImages(doc[k].lastText.value, rw), cache, k);
      StyleObjects(doc[..k + 1], cache, rw) == (if own.Ok? then Ok(styles + own.value) else own)
  {
    var next := doc[..k + 1];
    assert next[..k] == doc[..k] && Last(next) == doc[k];
    if doc[k].tag != "style" {
      assert styles + [] == styles;
    }
  }

  /** `parse_objects`: collect, look each object up in the cache, add the
      empty favicon if needed, and sort larger first. */
  method ParseObjects(doc: Document, cache: Cache, rw: string -> string) returns (r: Outcome<(seq<Object>, Document)>)
    ensures r.Ok? <==> ObjectsOf(doc, cache, rw).Ok?
    ensures r.Ok? ==> r == ObjectsOf(doc, cache, rw)
  {
    var refs := CollectRefObjects(doc, cache);
    if !refs.Ok? {
      return Panic("map_get returned NULL");
    }
    var styles := CollectStyleObjects(doc, cache, rw);
    if !styles.Ok? {
      return Panic("style walk panicked");
    }
    var objects := refs.value.0 + styles.value;
    var page := if refs.value.1 then doc else InsertEmptyFavicon(doc);
    r := Ok((SortBySize(objects), page));
  }

  /** Once the style walk panics on a prefix it panics on the whole page. */
  lemma {:induction false} StylePanicSpreads(doc: Document, n: nat, cache: Cache, rw: string -> string)
    requires n <= |doc| && !StyleObjects(doc[..n], cache, rw).Ok?
    ensures !StyleObjects(doc, cache, rw).Ok?
    decreases |doc| - n
  {
    if n < |doc| {
      assert doc[..n + 1][..n] == doc[..n];
      StylePanicSpreads(doc, n + 1, cache, rw);
    } else {
      assert doc[..n] == doc;
    }
  }

  // ---------------------------------------------------------------------
  // parse_css_and_inline

  /** A link `parse_css_and_inline` replaces by a `<style>`: an accepted
      `href` that does not mention `favicon.ico`. */
  predicate Inlinable(e: Element) {
    e.tag == "link" && AcceptPath(GetAttribute(e, "href")).Some? &&
    !Contains(AcceptPath(GetAttribute(e, "href")).value, "favicon.ico")
  }

  function Href(e: Element): string
    requires Inlinable(e)
  {
    AcceptPath(GetAttribute(e, "href")).value
  }

  /** A cached body read one byte per character. */
  function BytesToText(b: seq<byte>): (t: string)
    ensures |t| == |b| && forall i :: 0 <= i < |b| ==> t[i] as int == b[i] as int
  {
    seq(|b|, i requires 0 <= i < |b| => ByteToChar(b[i]))
  }

  /** `create_css_node`: a `<style>` whose only child is the text. */
  function StyleElement(css: seq<byte>): (e: Element)
    ensures e.tag == "style" && e.attrs == map[] && e.lastText == Some(BytesToText(css))
  {
    Element("style", map[], Some(BytesToText(css)))
  }

  /** The positions of the inlinable links, in increasing order. */
  function InlinablePositions(doc: Document): (r: seq<nat>)
    ensures forall k :: 0 <= k < |r| ==> r[k] < |doc| && Inlinable(doc[r[k]])
    ensures forall k, l :: 0 <= k < l < |r| ==> r[k] < r[l]
    ensures forall i :: 0 <= i < |doc| && Inlinable(doc[i]) ==> i in r
    decreases |doc|
  {
    if |doc| == 0 then []
    else
      var pre := doc[..|doc| - 1];
      assert forall j :: 0 <= j < |pre| ==> pre[j] == doc[j];
      var rest := InlinablePositions(pre);
      if Inlinable(Last(doc)) then rest + [|doc| - 1] else rest
  }

  /** The `<style>` elements of the first walk, one per inlinable link in
      order, each holding the body cached under `/` and the link's `href`. */
  function InlinedStyles(doc: Document, cache: Cache): (r: Outcome<seq<Element>>)
    ensures !r.Err?
    ensures r.Ok? <==> forall i :: 0 <= i < |doc| && Inlinable(doc[i]) ==> "/" + Href(doc[i]) in cache
    ensures r.Ok? ==> forall k :: 0 <= k < |r.value| ==> r.value[k].tag == "style"
    decreases |doc|
  {
    if |doc| == 0 then Ok([])
    else
      var i := |doc| - 1;
      var pre := doc[..i];
      var e := doc[i];
      assert forall j :: 0 <= j < i ==> pre[j] == doc[j];
      var rest := InlinedStyles(pre, cache);
      if !rest.Ok? then rest
      else if !Inlinable(e) then rest
      else if "/" + Href(e) in cache then Ok(rest.value + [StyleElement(cache["/" + Href(e)])])
      else Panic("map_get returned NULL")
  }
  /** The first walk gives one `<style>` per inlinable link, in document
      order, the k-th holding the body cached for the k-th link. */
  lemma {:induction false} InlinedStylesExact(doc: Document, cache: Cache)
    requires InlinedStyles(doc, cache).Ok?
    ensures |InlinedStyles(doc, cache).value| == |InlinablePositions(doc)|
    ensures forall k :: 0 <= k < |InlinablePositions(doc)| ==>
      "/" + Href(doc[InlinablePositions(doc)[k]]) in cache &&
      InlinedStyles(doc, cache).value[k] == StyleElement(cache["/" + Href(doc[InlinablePositions(doc)[k]])])
    decreases |doc|
  {
    if |doc| > 0 {
      var pre := doc[..|doc| - 1];
      assert forall j :: 0 <= j < |pre| ==> pre[j] == doc[j];
      InlinedStylesExact(pre, cache);
    }
  }


  /** The page without its inlinable links, in order. */
  function WithoutInlinable(doc: Document): (r: Document)
    ensures |r| <= |doc|
    ensures forall k :: 0 <= k < |r| ==> !Inlinable(r[k])
    decreases |doc|
  {
    if |doc| == 0 then []
    else WithoutInlinable(doc[..|doc| - 1]) + (if Inlinable(Last(doc)) then [] else [Last(doc)])
  }

  /** Every element that is not inlined survives, and nothing is added. */
  lemma {:induction false} WithoutMembers(doc: Document)
    ensures forall e :: e in doc && !Inlinable(e) ==> e in WithoutInlinable(doc)
    ensures forall e :: e in WithoutInlinable(doc) ==> e in doc
    decreases |doc|
  {
    if |doc| > 0 {
      var pre := doc[..|doc| - 1];
      WithoutMembers(pre);
      assert doc == pre + [Last(doc)];
    }
  }

  lemma {:induction false} WithoutAppend(a: Document, b: Document)
    ensures WithoutInlinable(a + b) == WithoutInlinable(a) + WithoutInlinable(b)
    decreases |b|
  {
    if |b| > 0 {
      var pre := b[..|b| - 1];
      assert (a + b)[..|a + b| - 1] == a + pre;
      WithoutAppend(a, pre);
    } else {
      assert a + b == a;
    }
  }

  lemma {:induction false} WithoutKeepsClean(s: Document)
    requires forall k :: 0 <= k < |s| ==> !Inlinable(s[k])
    ensures WithoutInlinable(s) == s
    decreases |s|
  {
    if |s| > 0 {
      WithoutKeepsClean(s[..|s| - 1]);
    }
  }

  /** What `parse_css_and_inline` makes of a page: the links it inlines are
      gone and a `<style>` with each one's cached body is added in their
      place at the end. A missing body is a panic. */
  function CssInlined(doc: Document, cache: Cache): (r: Outcome<Document>)
    ensures !r.Err?
    ensures r.Ok? <==> forall i :: 0 <= i < |doc| && Inlinable(doc[i]) ==> "/" + Href(doc[i]) in cache
    ensures r.Ok? ==> forall k :: 0 <= k < |r.value| ==> !Inlinable(r.value[k])
    ensures r.Ok? ==> forall e :: e in doc && !Inlinable(e) ==> e in r.value
    ensures r.Ok? ==> forall i :: 0 <= i < |doc| && Inlinable(doc[i]) ==> StyleElement(cache["/" + Href(doc[i])]) in r.value
    ensures r.Ok? ==> |r.value| == |WithoutInlinable(doc)| + |InlinablePositions(doc)|
    ensures r.Ok? ==> r.value[..|WithoutInlinable(doc)|] == WithoutInlinable(doc)
    ensures r.Ok? ==> forall k :: 0 <= k < |InlinablePositions(doc)| ==>
      r.value[|WithoutInlinable(doc)| + k] == StyleElement(cache["/" + Href(doc[InlinablePositions(doc)[k]])])
  {
    var r := match InlinedStyles(doc, cache)
      case Ok(styles) => Ok(WithoutInlinable(doc) + styles)
      case Panic(m) => Panic(m);
    CssInlinedShape(doc, cache, r);
    r
  }

  /** What CssInlined returns: a panic exactly when a link's body is not cached, otherwise the kept elements followed by one style per link. */
  lemma CssInlinedShape(doc: Document, cache: Cache, r: Outcome<Document>)
    requires !r.Err? && (r.Ok? <==> InlinedStyles(doc, cache).Ok?)
    requires r.Ok? ==> r.value == WithoutInlinable(doc) + InlinedStyles(doc, cache).value
    ensures !r.Err?
    ensures r.Ok? <==> forall i :: 0 <= i < |doc| && Inlinable(doc[i]) ==> "/" + Href(doc[i]) in cache
    ensures r.Ok? ==> forall k :: 0 <= k < |r.value| ==> !Inlinable(r.value[k])
    ensures r.Ok? ==> forall e :: e in doc && !Inlinable(e) ==> e in r.value
    ensures r.Ok? ==> forall i :: 0 <= i < |doc| && Inlinable(doc[i]) ==> StyleElement(cache["/" + Href(doc[i])]) in r.value
    ensures r.Ok? ==> |r.value| == |WithoutInlinable(doc)| + |InlinablePositions(doc)|
    ensures r.Ok? ==> r.value[..|WithoutInlinable(doc)|] == WithoutInlinable(doc)
    ensures r.Ok? ==> forall k :: 0 <= k < |InlinablePositions(doc)| ==>
      r.value[|WithoutInlinable(doc)| + k] == StyleElement(cache["/" + Href(doc[InlinablePositions(doc)[k]])])
  {
    if r.Ok? {
      var styles := InlinedStyles(doc, cache).value;
      var kept := WithoutInlinable(doc);
      WithoutMembers(doc);
      assert forall k :: 0 <= k < |kept + styles| ==> (kept + styles)[k] in kept || (kept + styles)[k] in styles;
      InlinedStylesExact(doc, cache);
      StylesForLinks(doc, cache, styles, kept);
    }
  }

  /** Every inlinable link's `<style>` is among the styles appended. */
  lemma StylesForLinks(doc: Document, cache: Cache, styles: seq<Element>, kept: Document)
    requires InlinedStyles(doc, cache) == Ok(styles)
    requires |styles| == |InlinablePositions(doc)|
    requires forall k :: 0 <= k < |styles| ==>
      "/" + Href(doc[InlinablePositions(doc)[k]]) in cache &&
      styles[k] == StyleElement(cache["/" + Href(doc[InlinablePositions(doc)[k]])])
    ensures forall i :: 0 <= i < |doc| && Inlinable(doc[i]) ==> StyleElement(cache["/" + Href(doc[i])]) in kept + styles
    ensures forall k :: 0 <= k < |styles| ==> (kept + styles)[|kept| + k] == styles[k]
  {
    var pos := InlinablePositions(doc);
    forall i | 0 <= i < |doc| && Inlinable(doc[i])
      ensures StyleElement(cache["/" + Href(doc[i])]) in kept + styles
    {
      var k :| 0 <= k < |pos| && pos[k] == i;
      assert (kept + styles)[|kept| + k] == styles[k];
    }
  }

  /** The first walk: append a `<style>` per inlinable link. */
  method AppendStyles(doc: Document, cache: Cache) returns (r: Outcome<seq<Element>>)
    ensures r.Ok? <==> InlinedStyles(doc, cache).Ok?
    ensures r.Ok? ==> r == InlinedStyles(doc, cache)
  {
    var styles: seq<Element> := [];
    var k := 0;
    while k < |doc|
      invariant k <= |doc|
      invariant InlinedStyles(doc[..k], cache) == Ok(styles)
    {
      var e := doc[k];
      ghost var next := doc[..k + 1];
      assert next[..k] == doc[..k] && Last(next) == e;
      if e.tag == "link" && AcceptPath(GetAttribute(e, "href")).Some? {
        var path := AcceptPath(GetAttribute(e, "href")).value;
        if !Contains(path, "favicon.ico") {
          var key := "/" + path;
          if key !in cache {
            assert doc[k] == e && Inlinable(doc[k]);
            return Panic("map_get returned NULL");
          }
          styles := styles + [StyleElement(cache[key])];
        }
      }
      assert InlinedStyles(next, cache) == Ok(styles);
      k := k + 1;
    }
    assert doc[..k] == doc;
    r := Ok(styles);
  }

  /** The position of the first inlinable link, if there is one. */
  function FirstInlinable(page: Document): (r: Option<nat>)
    ensures r.None? <==> forall k :: 0 <= k < |page| ==> !Inlinable(page[k])
    ensures r.Some? ==> r.value < |page| && Inlinable(page[r.value])
    ensures r.Some? ==> forall j :: 0 <= j < r.value ==> !Inlinable(page[j])
    decreases |page|
  {
    if |page| == 0 then None
    else if Inlinable(page[0]) then Some(0)
    else
      match FirstInlinable(page[1..])
      case None => None
      case Some(k) => Some(k + 1)
  }

  /** The page after one removal pass: the first inlinable link detached.
      The pass walks the links with `select` and detaches the one it stands
      on; the walk goes on from that node, which no longer has a sibling or
      a parent, so the pass ends there. */
  function DetachFirst(page: Document): (r: Document)
  {
    match FirstInlinable(page)
    case None => page
    case Some(k) => page[..k] + page[k + 1..]
  }

  /** A pass that detaches a link leaves a shorter page and the same page
      once every inlinable link is gone, so the passes end where one pass
      over every link would. */
  lemma DetachFirstKeeps(page: Document)
    ensures WithoutInlinable(DetachFirst(page)) == WithoutInlinable(page)
    ensures FirstInlinable(page).Some? ==> |DetachFirst(page)| == |page| - 1
    ensures FirstInlinable(page).None? ==> DetachFirst(page) == page
  {
    match FirstInlinable(page)
    case None =>
    case Some(k) => DetachAtKeeps(page[..k], page[k], page[k + 1..]);
      assert page == page[..k] + [page[k]] + page[k + 1..];
  }

  /** Dropping one inlinable link between two parts changes nothing once
      the inlinable links are removed. */
  lemma DetachAtKeeps(pre: Document, link: Element, post: Document)
    requires Inlinable(link)
    ensures WithoutInlinable(pre + post) == WithoutInlinable(pre + [link] + post)
  {
    WithoutAppend(pre + [link], post);
    WithoutAppend(pre, [link]);
    WithoutAppend(pre, post);
    assert WithoutInlinable([link]) == [] by {
      assert [link][..0] == [];
    }
  }

  /** One pass of the removal loop: the links in document order, skipping
      those that are not inlined, up to the first one, which is detached. */
  method RemovalPass(page: Document) returns (kept: Document, removed: bool)
    ensures kept == DetachFirst(page)
    ensures removed <==> FirstInlinable(page).Some?
  {
    var k := 0;
    while k < |page|
      invariant k <= |page|
      invariant forall j :: 0 <= j < k ==> !Inlinable(page[j])
    {
      if Inlinable(page[k]) {
        assert FirstInlinable(page) == Some(k);
        return page[..k] + page[k + 1..], true;
      }
      k := k + 1;
    }
    return page, false;
  }

  /** `parse_css_and_inline`: append the styles, then repeat removal passes
      until one removes nothing. */
  method ParseCssAndInline(doc: Document, cache: Cache) returns (r: Outcome<Document>)
    ensures r.Ok? <==> CssInlined(doc, cache).Ok?
    ensures r.Ok? ==> r == CssInlined(doc, cache)
  {
    var styles := AppendStyles(doc, cache);
    if !styles.Ok? {
      return Panic("map_get returned NULL");
    }
    var page := doc + styles.value;
    WithoutAppend(doc, styles.value);
    WithoutKeepsClean(styles.value);
    var allRemoved := false;
    while !allRemoved
      invariant WithoutInlinable(page) == WithoutInlinable(doc) + styles.value
      invariant allRemoved ==> forall k :: 0 <= k < |page| ==> !Inlinable(page[k])
      decreases |page| + (if allRemoved then 0 else 1)
    {
      var kept, removed := RemovalPass(page);
      DetachFirstKeeps(page);
      if !removed {
        allRemoved := true;
      }
      page := kept;
    }
    WithoutKeepsClean(page);
    r := Ok(page);
  }
}
