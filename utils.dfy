/** Reference rewriting helpers (`libalpaca/src/utils.rs`): which objects
    are kept, how a reference is given its padding parameter, how padding
    images are numbered, and how an image becomes a `data:` URI. File reads
    and base64 encoding are parameters. */
module Utils {
  import opened Base
  import opened Strings
  import opened Dom
  import opened Parse

  /** The record the C module and the library share (`struct MorphInfo`),
      with the fields the modelled routines read or write. */
  datatype MorphInfo = MorphInfo(
    contentType: string,
    query: string,
    uri: string,
    root: string,
    httpHost: string,
    content: seq<byte>,
    size: nat,
    probabilistic: bool,
    useTotalObjSize: bool,
    maxObjSize: nat,
    objNum: nat,
    objSize: nat,
    objInliningEnabled: bool)

  // ---------------------------------------------------------------------
  // keep_local_objects

  /** An object served by this host: its path names no other scheme. */
  predicate IsLocal(o: Object) {
    !Contains(o.uri, "http:") && !Contains(o.uri, "https:")
  }

  /** `keep_local_objects` (`Vec::retain`). */
  function KeepLocalObjects(objects: seq<Object>): (r: seq<Object>)
    ensures |r| <= |objects|
    decreases |objects|
  {
    if |objects| == 0 then []
    else
      var pre := objects[..|objects| - 1];
      KeepLocalObjects(pre) + (if IsLocal(Last(objects)) then [Last(objects)] else [])
  }

  /** Exactly the local objects are kept. */
  lemma {:induction false} KeepLocalMembers(objects: seq<Object>, o: Object)
    ensures o in KeepLocalObjects(objects) <==> o in objects && IsLocal(o)
    decreases |objects|
  {
    if |objects| > 0 {
      var pre := objects[..|objects| - 1];
      assert objects == pre + [Last(objects)];
      KeepLocalMembers(pre, o);
    }
  }

  /** Filtering commutes with concatenation, so the kept objects stay in
      their original order. */
  lemma {:induction false} KeepLocalAppend(a: seq<Object>, b: seq<Object>)
    ensures KeepLocalObjects(a + b) == KeepLocalObjects(a) + KeepLocalObjects(b)
    decreases |b|
  {
    if |b| == 0 {
      assert a + b == a;
    } else {
      var pre := b[..|b| - 1];
      assert (a + b)[..|a + b| - 1] == a + pre;
      KeepLocalAppend(a, pre);
    }
  }

  /** A list of local objects is left as it is. */
  lemma {:induction false} KeepLocalAllLocal(objects: seq<Object>)
    requires forall k :: 0 <= k < |objects| ==> IsLocal(objects[k])
    ensures KeepLocalObjects(objects) == objects
    decreases |objects|
  {
    if |objects| > 0 {
      KeepLocalAllLocal(objects[..|objects| - 1]);
    }
  }

  // ---------------------------------------------------------------------
  // append_ref

  /** The attribute `append_ref` and `make_objects_inlined` rewrite for an
      element; `style` stands for the element's text. None is their
      "shouldn't happen" panic. */
  function RefAttribute(tag: string): (a: Option<string>)
    ensures a.Some? <==> tag in {"img", "script", "link", "style"}
    ensures a.Some? ==> (a.value == "style" <==> tag == "style")
  {
    if tag == "img" || tag == "script" then Some("src")
    else if tag == "link" then Some("href")
    else if tag == "style" then Some("style")
    else None
  }

  /** The new reference: the object's path, `&` when it already has a
      query and `?` otherwise, then the padding parameter. */
  function PaddedLink(uri: string, target: nat): (link: string)
    ensures |link| > |uri| && link[..|uri|] == uri
    ensures link[|uri|] == (if '?' in uri then '&' else '?')
  {
    uri + [if '?' in uri then '&' else '?'] + PADDING_PARAM + NatToDecimal(target)
  }

  /** The object's server reads back the size the page asked for. */
  lemma PaddedLinkRoundTrip(uri: string, target: nat)
    requires target <= USIZE_MAX
    ensures ParseTargetSize(PaddedLink(uri, target)) == target
  {
    var x := uri + [if '?' in uri then '&' else '?'];
    assert PaddedLink(uri, target) == x + PADDING_PARAM + NatToDecimal(target) + [];
    TargetSizeRoundTrip(x, target, []);
  }

  /** `append_ref`: point the object's element at the padded reference. For
      a `<style>` every occurrence of the path in its text is replaced. */
  function AppendRef(doc: Document, o: Object): (r: Outcome<Document>)
    requires o.node.Some? ==> o.node.value < |doc|
    ensures !r.Err?
    ensures r.Ok? <==> (o.targetSize.Some? && o.node.Some? &&
                        RefAttribute(doc[o.node.value].tag).Some? &&
                        (doc[o.node.value].tag == "style" ==> doc[o.node.value].lastText.Some?))
    ensures r.Ok? ==> |r.value| == |doc|
    ensures r.Ok? ==> forall j :: 0 <= j < |doc| && j != o.node.value ==> r.value[j] == doc[j]
    ensures r.Ok? && doc[o.node.value].tag != "style" ==>
      GetAttribute(r.value[o.node.value], RefAttribute(doc[o.node.value].tag).value) ==
        Some(PaddedLink(o.uri, o.targetSize.value))
    ensures r.Ok? && doc[o.node.value].tag == "style" ==>
      r.value[o.node.value].lastText ==
        Some(ReplaceAll(doc[o.node.value].lastText.value, o.uri, PaddedLink(o.uri, o.targetSize.value)))
  {
    if o.targetSize.None? then Panic("target_size unwrap on None")
    else if o.node.None? then Panic("node unwrap on None")
    else
      var i := o.node.value;
      var link := PaddedLink(o.uri, o.targetSize.value);
      match RefAttribute(doc[i].tag)
      case None => Panic("shouldn't happen")
      case Some(attr) =>
        if attr != "style" then Ok(SetAttribute(doc, i, attr, link))
        else match doc[i].lastText
          case None => Panic("style element without a text child")
          case Some(text) => Ok(SetLastText(doc, i, ReplaceAll(text, o.uri, link)))
  }

  // ---------------------------------------------------------------------
  // insert_objects_refs and add_padding_objects

  /** The path of the `i`-th padding image. */
  function FakeImageSrc(target: nat, i: nat): string {
    "/__alpaca_fake_image.png?" + PADDING_PARAM + NatToDecimal(target) + "&i=" + NatToDecimal(i)
  }

  /** The padding image's server reads back its size, whatever its number. */
  lemma FakeImageRoundTrip(target: nat, i: nat)
    requires target <= USIZE_MAX
    ensures ParseTargetSize(FakeImageSrc(target, i)) == target
  {
    var y := "&i=" + NatToDecimal(i);
    assert 'a' !in y by {
      var d := NatToDecimal(i);
      forall j | 0 <= j < |y| ensures y[j] != 'a' {
        if j >= 3 {
          assert y[j] == d[j - 3] && IsDigit(d[j - 3]);
        }
      }
    }
    assert FakeImageSrc(target, i) == "/__alpaca_fake_image.png?" + PADDING_PARAM + NatToDecimal(target) + y;
    TargetSizeRoundTrip("/__alpaca_fake_image.png?", target, y);
  }

  /** The hidden `<img>` that carries a padding object. */
  function FakeImageElement(target: nat, i: nat): (e: Element)
    ensures e.tag == "img" && GetAttribute(e, "src") == Some(FakeImageSrc(target, i))
    ensures GetAttribute(e, "style") == Some("visibility:hidden") && e.lastText.None?
  {
    Element("img", map["src" := FakeImageSrc(target, i), "style" := "visibility:hidden"], None)
  }

  /** The elements `add_padding_objects` appends for `objects`, numbered
      from `first`; None when one of them has no target size. */
  function PaddingElements(objects: seq<Object>, first: nat): (r: Option<seq<Element>>)
    ensures r.Some? <==> forall k :: 0 <= k < |objects| ==> objects[k].targetSize.Some?
    ensures r.Some? ==> |r.value| == |objects|
    ensures r.Some? ==> forall k :: 0 <= k < |objects| ==>
      r.value[k] == FakeImageElement(objects[k].targetSize.value, first + k)
    decreases |objects|
  {
    if |objects| == 0 then Some([])
    else
      var pre := objects[..|objects| - 1];
      var o := Last(objects);
      assert forall k :: 0 <= k < |pre| ==> pre[k] == objects[k];
      match PaddingElements(pre, first)
      case None => None
      case Some(rest) =>
        if o.targetSize.None? then None
        else Some(rest + [FakeImageElement(o.targetSize.value, first + |pre|)])
  }

  /** `add_padding_objects`: one hidden image per padding object, numbered
      from 1, at the end of the body. A missing target size panics. */
  method AddPaddingObjects(doc: Document, objects: seq<Object>) returns (r: Outcome<Document>)
    ensures r.Ok? <==> PaddingElements(objects, 1).Some?
    ensures r.Ok? ==> r.value == doc + PaddingElements(objects, 1).value
  {
    var page := doc;
    var i := 1;
    var k := 0;
    while k < |objects|
      invariant k <= |objects| && i == k + 1
      invariant PaddingElements(objects[..k], 1).Some?
      invariant page == doc + PaddingElements(objects[..k], 1).value
    {
      assert objects[..k + 1][..k] == objects[..k];
      if objects[k].targetSize.None? {
        assert !PaddingElements(objects, 1).Some?;
        return Panic("target_size unwrap on None");
      }
      page := page + [FakeImageElement(objects[k].targetSize.value, i)];
      i := i + 1;
      k := k + 1;
    }
    assert objects[..k] == objects;
    r := Ok(page);
  }

  /** No object with a target size points at element `j`. */
  predicate Untouched(objects: seq<Object>, j: nat) {
    forall k :: 0 <= k < |objects| && objects[k].targetSize.Some? ==> objects[k].node != Some(j)
  }

  /** The page after `append_ref` on each of `objects` that has a target
      size, in order. */
  function AppendRefs(doc: Document, objects: seq<Object>): (r: Outcome<Document>)
    requires NodesIn(doc, objects)
    ensures !r.Err?
    ensures r.Ok? ==> |r.value| == |doc|
    ensures r.Ok? ==> forall j :: 0 <= j < |doc| && Untouched(objects, j) ==> r.value[j] == doc[j]
    decreases |objects|
  {
    if |objects| == 0 then Ok(doc)
    else
      var pre := objects[..|objects| - 1];
      var o := Last(objects);
      assert forall k :: 0 <= k < |pre| ==> pre[k] == objects[k];
      match AppendRefs(doc, pre)
      case Ok(page) =>
        if o.targetSize.None? then Ok(page) else AppendRef(page, o)
      case Panic(m) => Panic(m)
  }

  /** `insert_objects_refs`: the first `n` objects are the page's own, the
      rest become padding images. */
  method InsertObjectsRefs(doc: Document, objects: seq<Object>, n: nat) returns (r: Outcome<Document>)
    requires NodesIn(doc, objects)
    ensures n > |objects| ==> r.Panic?
    ensures n <= |objects| ==>
      (r.Ok? <==> AppendRefs(doc, objects[..n]).Ok? && PaddingElements(objects[n..], 1).Some?)
    ensures n <= |objects| && r.Ok? ==>
      r.value == AppendRefs(doc, objects[..n]).value + PaddingElements(objects[n..], 1).value
  {
    if n > |objects| {
      return Panic("range end index out of range for slice");
    }
    var init := objects[..n];
    var page := doc;
    var k := 0;
    while k < |init|
      invariant k <= |init|
      invariant AppendRefs(doc, init[..k]).Ok?
      invariant page == AppendRefs(doc, init[..k]).value
    {
      var o := init[k];
      ghost var next := init[..k + 1];
      assert next[..k] == init[..k] && Last(next) == o;
      if o.targetSize.Some? {
        var step := AppendRef(page, o);
        if !step.Ok? {
          assert !AppendRefs(doc, next).Ok?;
          AppendRefsPanicSpreads(doc, init, k + 1);
          return Panic("append_ref panicked");
        }
        page := step.value;
      }
      k := k + 1;
    }
    assert init[..k] == init;
    r := AddPaddingObjects(page, objects[n..]);
  }

  /** Once `append_ref` panics on a prefix, the whole loop panics. */
  lemma {:induction false} AppendRefsPanicSpreads(doc: Document, objects: seq<Object>, k: nat)
    requires NodesIn(doc, objects) && k <= |objects|
    requires !AppendRefs(doc, objects[..k]).Ok?
    ensures !AppendRefs(doc, objects).Ok?
    decreases |objects| - k
  {
    if k < |objects| {
      assert objects[..k + 1][..k] == objects[..k];
      AppendRefsPanicSpreads(doc, objects, k + 1);
    } else {
      assert objects[..k] == objects;
    }
  }

  // ---------------------------------------------------------------------
  // get_file_extension and get_img_format_and_ext

  /** `get_file_extension`: the text after the last `.`, or the whole name
      when it has none. Written as a scan from the end; `FileExtensionIsLastPiece`
      shows it is the last piece of `split('.')`, as the library computes it. */
  function FileExtension(name: string): (ext: string)
    decreases |name|
  {
    if |name| == 0 || Last(name) == '.' then [] else FileExtension(name[..|name| - 1]) + [Last(name)]
  }

  /** The extension has no dot, ends the name, and is the whole name or
      follows its last dot. */
  lemma FileExtensionShape(name: string)
    ensures '.' !in FileExtension(name)
    ensures EndsWith(name, FileExtension(name))
    ensures |FileExtension(name)| < |name| ==> name[|name| - |FileExtension(name)| - 1] == '.'
    ensures '.' !in name ==> FileExtension(name) == name
  {
    ExtensionDotFree(name);
    ExtensionEndsName(name);
    ExtensionFollowsDot(name);
    ExtensionOfDotless(name);
  }

  lemma {:induction false} ExtensionDotFree(name: string)
    ensures '.' !in FileExtension(name)
    decreases |name|
  {
    if |name| > 0 && Last(name) != '.' {
      ExtensionDotFree(name[..|name| - 1]);
    }
  }

  lemma {:induction false} ExtensionEndsName(name: string)
    ensures EndsWith(name, FileExtension(name))
    decreases |name|
  {
    if |name| > 0 && Last(name) != '.' {
      var init := name[..|name| - 1];
      ExtensionEndsName(init);
      assert name == init + [Last(name)];
      EndsWithSnoc(init, FileExtension(init), Last(name));
    }
  }

  lemma EndsWithSnoc(s: string, p: string, x: char)
    requires EndsWith(s, p)
    ensures EndsWith(s + [x], p + [x])
  {
    assert (s + [x])[|s| - |p|..] == s[|s| - |p|..] + [x];
  }

  lemma {:induction false} ExtensionFollowsDot(name: string)
    ensures |FileExtension(name)| < |name| ==> name[|name| - |FileExtension(name)| - 1] == '.'
    decreases |name|
  {
    if |name| > 0 && Last(name) != '.' {
      var init := name[..|name| - 1];
      var e := FileExtension(init);
      ExtensionFollowsDot(init);
      if |e| < |init| {
        assert name[|name| - |e| - 2] == init[|init| - |e| - 1];
      }
    }
  }

  lemma {:induction false} ExtensionOfDotless(name: string)
    ensures '.' !in name ==> FileExtension(name) == name
    decreases |name|
  {
    if |name| > 0 && '.' !in name {
      var init := name[..|name| - 1];
      assert '.' !in init;
      ExtensionOfDotless(init);
      assert name == init + [Last(name)];
    }
  }

  /** Two dot-free suffixes that each are the whole text or follow a dot
      are the same suffix. */
  lemma DotFreeSuffixUnique(s: string, a: string, b: string)
    requires '.' !in a && '.' !in b && EndsWith(s, a) && EndsWith(s, b)
    requires |a| < |s| ==> s[|s| - |a| - 1] == '.'
    requires |b| < |s| ==> s[|s| - |b| - 1] == '.'
    ensures a == b
  {
  }

  /** The scan agrees with `name.split('.').last()`. */
  lemma FileExtensionIsLastPiece(name: string)
    ensures FileExtension(name) == Last(SplitOn(name, "."))
  {
    var e := FileExtension(name);
    var piece := Last(SplitOn(name, "."));
    assert '.' !in piece && EndsWith(name, piece) && (|piece| < |name| ==> name[|name| - |piece| - 1] == '.') by {
      assert "." == ['.'];
      LastPieceShape(name, '.');
    }
    assert '.' !in e && EndsWith(name, e) && (|e| < |name| ==> name[|name| - |e| - 1] == '.') by {
      FileExtensionShape(name);
    }
    DotFreeSuffixUnique(name, e, piece);
  }

  /** The last piece of a split on one character contains no such
      character, ends the text, and is the whole text or follows one. */
  lemma LastPieceShape(s: string, c: char)
    ensures c !in Last(SplitOn(s, [c]))
    ensures EndsWith(s, Last(SplitOn(s, [c])))
    ensures |Last(SplitOn(s, [c]))| < |s| ==> s[|s| - |Last(SplitOn(s, [c]))| - 1] == c
    ensures c !in s ==> Last(SplitOn(s, [c])) == s
  {
    LastPieceSuffix(s, c);
    if c !in s {
      match IndexOf(s, [c])
      case None =>
      case Some(i) =>
        assert s[i..i + 1] == [c];
        assert s[i] in s;
    }
  }

  lemma {:induction false} LastPieceSuffix(s: string, c: char)
    ensures c !in Last(SplitOn(s, [c]))
    ensures EndsWith(s, Last(SplitOn(s, [c])))
    ensures |Last(SplitOn(s, [c]))| < |s| ==> s[|s| - |Last(SplitOn(s, [c]))| - 1] == c
    decreases |s|
  {
    match IndexOf(s, [c])
    case None =>
      CharAbsent(s, c);
    case Some(i) =>
      assert s[i..i + 1] == [c];
      var rest := s[i + 1..];
      LastPieceFollows(s, [c], i);
      LastPieceSuffix(rest, c);
      var piece := Last(SplitOn(rest, [c]));
      EndsWithDrop(s, i + 1, piece);
      if |piece| < |rest| {
        assert s[|s| - |piece| - 1] == rest[|rest| - |piece| - 1];
      }
  }

  /** A character that does not occur as a one-character pattern is not
      in the text. */
  lemma CharAbsent(s: string, c: char)
    requires IndexOf(s, [c]).None?
    ensures c !in s
  {
    forall j | 0 <= j < |s| ensures s[j] != c {
      assert !OccursAt(s, [c], j);
      assert s[j..j + 1] == [s[j]];
    }
  }

  /** The extension map of `get_img_format_and_ext`; None for an extension
      that is not a supported image type, where the library panics. */
  function ImageFormat(ext: string): (f: Option<string>)
    ensures f.Some? <==> ext in {"jpg", "jpeg", "png", "gif"}
    ensures f.Some? ==> f.value in {"jpeg", "png", "gif"}
  {
    if ext == "jpg" || ext == "jpeg" then Some("jpeg")
    else if ext == "png" then Some("png")
    else if ext == "gif" then Some("gif")
    else None
  }

  /** `get_img_format_and_ext`: the file is read first (a failed read
      panics), then the format of the object's name is looked up (an
      unknown one panics), and the result is a base64 `data:` URI. */
  function GetImgFormatAndExt(fullPath: string, fileName: string,
                              read: string -> Option<seq<byte>>,
                              base64: seq<byte> -> string): (r: Outcome<string>)
    ensures !r.Err?
    ensures r.Ok? <==> read(fullPath).Some? && ImageFormat(FileExtension(fileName)).Some?
    ensures r.Ok? ==> r.value == "data:image/" + ImageFormat(FileExtension(fileName)).value +
                                 ";charset=utf-8;base64," + base64(read(fullPath).value)
    ensures r.Ok? ==> StartsWith(r.value, "data:")
  {
    match read(fullPath)
    case None => Panic("Unable to read file")
    case Some(bytes) =>
      match ImageFormat(FileExtension(fileName))
      case None => Panic("unknown image type")
      case Some(ext) =>
        var uri := "data:image/" + ext + ";charset=utf-8;base64," + base64(bytes);
        assert uri[..5] == "data:";
        Ok(uri)
  }

  /** An inlined reference is a `data:` URI, so every later walk skips it. */
  lemma InlinedReferenceSkipped(fullPath: string, fileName: string,
                                read: string -> Option<seq<byte>>, base64: seq<byte> -> string)
    requires GetImgFormatAndExt(fullPath, fileName, read, base64).Ok?
    ensures AcceptPath(Some(GetImgFormatAndExt(fullPath, fileName, read, base64).value)).None?
  {
  }

  // ---------------------------------------------------------------------
  // content_to_c

  /** `content_to_c`: hand the bytes to C and record their length; the
      status is always 1. */
  function ContentToC(content: seq<byte>, info: MorphInfo): (r: (nat, MorphInfo))
    ensures r.0 == 1
    ensures r.1.content == content && r.1.size == |content|
    ensures r.1 == info.(content := content, size := |content|)
  {
    (1, info.(content := content, size := |content|))
  }
}
