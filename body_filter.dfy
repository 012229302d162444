/** The body filter: which responses it handles and how, and the page
    assembly it drives. An HTML page is held back until complete, its
    objects are fetched by subrequests, every subrequest's body is stored
    under its URI, and once the last one arrives either the stylesheet round
    is followed by the object round or the page is morphed and sent.

    The counters the module keeps in function-static variables are the
    explicit `PageState` here, passed to each step and returned changed.
    Where a step is given a body, it is the `size` bytes received once the
    response was complete: the `contents` of the
    `Accumulator.ResponseBuffer`, which is what `get_response` returned
    without its terminator, since the module passes the response on with
    its `size` as the length. */
module BodyFilter {
  import opened Base
  import opened Strings
  import opened Dom
  import opened Parse
  import opened Utils
  import opened Inlining
  import opened Morphing
  import opened AlpacaConf

  /** A request as the body filter sees it: its URI and arguments (the text
      after `?`), the response's content type and status, whether it is the
      client's own request or a subrequest, and the `Host` header and
      document root of its location. */
  datatype Request = Request(
    uri: string,
    args: string,
    contentType: string,
    status: int,
    isMain: bool,
    host: string,
    root: string)

  /** The library entry points the filter calls whose bodies this model does
      not describe: the two file lists (`get_required_css_files`,
      `get_html_required_files`), `morph_html` (None when it returns 0),
      html5ever's parser and serializer, and `get_object_padding`. */
  datatype Library = Library(
    cssFiles: MorphInfo -> seq<string>,
    htmlFiles: MorphInfo -> seq<string>,
    morphHtml: (MorphInfo, Cache) -> Option<MorphInfo>,
    parse: seq<byte> -> Document,
    serialize: Document -> seq<byte>,
    objectPadding: (ObjectKind, nat, nat) -> seq<byte>)

  /** `req_mapper`, `main_info`, `subreq_count` and `subreq_tbd`. */
  datatype PageState = PageState(cache: Cache, mainInfo: Option<MorphInfo>, count: nat, tbd: nat)

  /** What one call of the filter does with the response. */
  datatype Action =
    | PassOn                             // hand the chain, as it now stands, to the next filter
    | Hold                               // return `NGX_OK`: nothing goes out yet
    | Issue(uris: seq<string>)           // one subrequest per URI, in order; nothing of the page goes out
    | Emit(body: seq<byte>)              // the response is this body, in one final buffer
    | AppendPadding(padding: seq<byte>)  // the object goes out followed by this buffer
    | Abort(msg: string)                 // the library panicked

  /** Which branch of the filter handles a response. */
  datatype Branch = NotHandled | FakeImageBranch | PageBranch | ObjectBranch | SubrequestBranch

  // ---------------------------------------------------------------------
  // Dispatch

  /** The tests at the head of each branch of `ngx_http_alpaca_body_filter`. */
  function Route(req: Request, conf: Conf): (b: Branch)
    ensures b == FakeImageBranch <==> IsFakeImage(req.uri) && |req.args| > 0
    ensures !conf.probEnabled && !conf.deterEnabled ==> b == NotHandled || b == FakeImageBranch
    ensures b == PageBranch <==>
      (conf.probEnabled || conf.deterEnabled) && !IsFakeImage(req.uri) &&
      IsHtml(req.contentType) && req.status != 404 && req.isMain
    ensures b == ObjectBranch ==> IsPaddable(req.contentType) && req.isMain && |req.args| > 0
    ensures b == SubrequestBranch <==>
      (conf.probEnabled || conf.deterEnabled) && !IsFakeImage(req.uri) && !req.isMain
  {
    if !IsFakeImage(req.uri) && !conf.probEnabled && !conf.deterEnabled then NotHandled
    else if IsFakeImage(req.uri) then (if |req.args| == 0 then NotHandled else FakeImageBranch)
    else if IsHtml(req.contentType) && req.status != 404 && req.isMain then PageBranch
    else if IsPaddable(req.contentType) && req.isMain then (if |req.args| == 0 then NotHandled else ObjectBranch)
    else if !req.isMain then SubrequestBranch
    else NotHandled
  }

  /** The `MorphInfo` that `pad_object` and the padding-image branch hand
      to `morph_object`: a content type, a query and a current size, every
      other field zero. */
  function ObjectInfo(contentType: string, query: string, size: nat): MorphInfo {
    MorphInfo(contentType, query, "", "", "", [], size, false, false, 0, 0, 0, false)
  }

  /** The padding image's body: padding for an image of size 0 up to the
      size its arguments ask for. */
  function FakeImageBody(args: string, lib: Library): (body: seq<byte>)
    ensures ParseTargetSize(args) == 0 ==> body == []
    ensures ParseTargetSize(args) > 0 ==> body == lib.objectPadding(IMG, 0, ParseTargetSize(args))
  {
    assert ParseObjectKind("image/png") == IMG by {
      assert StartsWith("image/png", "image/");
    }
    MorphObject(ObjectInfo("image/png", args, 0), lib.objectPadding).1.content
  }

  /** `pad_object`: the padding that follows an object of `size` bytes. */
  function PadObject(size: nat, req: Request, lib: Library): (padding: seq<byte>)
    ensures ParseTargetSize(req.args) <= size ==> padding == []
    ensures ParseTargetSize(req.args) > size ==>
      padding == lib.objectPadding(ParseObjectKind(req.contentType), size, ParseTargetSize(req.args))
  {
    MorphObject(ObjectInfo(req.contentType, req.args, size), lib.objectPadding).1.content
  }

  /** `main_info` as `initialize_morph_html_struct` fills it from the page
      and the configuration. The content type and query are left unset by
      the source and are empty here. */
  function PageInfo(req: Request, conf: Conf, body: seq<byte>): MorphInfo {
    MorphInfo("", "", req.uri, req.root, req.host, body, |body|, conf.probEnabled, conf.useTotalObjSize,
              conf.maxObjSize, conf.objNum, conf.objSize, conf.objInliningEnabled)
  }

  // ---------------------------------------------------------------------
  // Discovery

  datatype FileList = CssList | HtmlList

  /** What `execute_subrequests` leaves behind: the new page state, the
      lists asked of the library in order, the URIs issued in order, and
      the value returned. */
  datatype Discovery = Discovery(state: PageState, lists: seq<FileList>, issued: seq<string>, ret: int)

  /** `execute_subrequests`: the stylesheet list is asked for only when CSS
      inlining is on, the object list only when no stylesheet was found,
      one subrequest is issued per listed URI, and 0 is returned exactly
      when there is none. The table of bodies starts empty. */
  function ExecuteSubrequests(st: PageState, info: MorphInfo, cssInlining: bool, lib: Library): (d: Discovery)
    ensures 0 < |d.lists| <= 2 && (d.lists[0] == CssList <==> cssInlining)
    ensures (HtmlList in d.lists) <==> !cssInlining || |lib.cssFiles(info)| == 0
    ensures CssList in d.lists ==> d.lists[0] == CssList
    ensures cssInlining && |lib.cssFiles(info)| > 0 ==> d.issued == lib.cssFiles(info)
    ensures !cssInlining || |lib.cssFiles(info)| == 0 ==> d.issued == lib.htmlFiles(info)
    ensures d.state == PageState(map[], Some(info), st.count, |d.issued|)
    ensures d.ret == 0 <==> |d.issued| == 0
    ensures d.ret == 0 || d.ret == 1
  {
    var css := if cssInlining then lib.cssFiles(info) else [];
    var lists := if cssInlining then [CssList] else [];
    var files := if |css| == 0 then lib.htmlFiles(info) else css;
    var lists' := if |css| == 0 then lists + [HtmlList] else lists;
    Discovery(PageState(map[], Some(info), st.count, |files|), lists', files, if |files| == 0 then 0 else 1)
  }

  /** `simple_html_morph`: the morphed page, or the page as received when
      `morph_html` fails. */
  function SimpleHtmlMorph(info: MorphInfo, cache: Cache, received: seq<byte>, lib: Library): (body: seq<byte>)
    ensures lib.morphHtml(info, cache).None? ==> body == received
    ensures lib.morphHtml(info, cache).Some? ==> body == lib.morphHtml(info, cache).value.content
  {
    match lib.morphHtml(info, cache)
    case Some(morphed) => morphed.content
    case None => received
  }

  /** The page branch once the whole page is in: reset the count, discover
      the objects, and either hold the page back while they are fetched or,
      when there is none, morph it and send it. */
  function PageComplete(st: PageState, req: Request, conf: Conf, body: seq<byte>, lib: Library): (r: (PageState, Action))
    ensures r.0.count == 0 && r.0.cache == map[] && r.0.mainInfo == Some(PageInfo(req, conf, body))
    ensures r.0.tbd > 0 ==> r.1 == Issue(ExecuteSubrequests(st, PageInfo(req, conf, body), conf.cssInliningEnabled, lib).issued)
    ensures r.0.tbd == 0 ==> r.1 == Emit(SimpleHtmlMorph(PageInfo(req, conf, body), map[], body, lib))
  {
    var info := PageInfo(req, conf, body);
    var d := ExecuteSubrequests(st.(count := 0), info, conf.cssInliningEnabled, lib);
    if d.ret != 0 then (d.state, Issue(d.issued))
    else (d.state, Emit(SimpleHtmlMorph(info, d.state.cache, body, lib)))
  }

  /** A page with nothing to fetch goes out at once, morphed, or as
      received when morphing fails. */
  lemma PageWithoutObjectsGoesOut(st: PageState, req: Request, conf: Conf, body: seq<byte>, lib: Library)
    requires var info := PageInfo(req, conf, body);
      (!conf.cssInliningEnabled || |lib.cssFiles(info)| == 0) && |lib.htmlFiles(info)| == 0
    ensures PageComplete(st, req, conf, body, lib).1.Emit?
    ensures lib.morphHtml(PageInfo(req, conf, body), map[]).None? ==>
      PageComplete(st, req, conf, body, lib).1 == Emit(body)
  {
  }

  // ---------------------------------------------------------------------
  // Completion of a subrequest, as the source writes it

  /** `process_html_objects`: the morphed page, or, when `morph_html`
      fails, the page content as it stood before the call. */
  function ProcessHtmlObjects(info: MorphInfo, cache: Cache, lib: Library): (body: seq<byte>)
    ensures lib.morphHtml(info, cache).None? ==> body == info.content
    ensures lib.morphHtml(info, cache).Some? ==> body == lib.morphHtml(info, cache).value.content
  {
    match lib.morphHtml(info, cache)
    case Some(morphed) => morphed.content
    case None => info.content
  }

  /** The stylesheet round's end: inline the stylesheets into the page
      (`inline_css_content`, whose result code is ignored) and ask for the
      object list. */
  function CssRoundEnd(info: MorphInfo, cache: Cache, lib: Library): (r: Outcome<(MorphInfo, seq<string>)>)
    ensures !r.Err?
    ensures r.Ok? <==> CssContentInlined(info, cache, lib.parse, lib.serialize).Ok?
    ensures r.Ok? ==> r.value.0 == CssContentInlined(info, cache, lib.parse, lib.serialize).value.1
    ensures r.Ok? ==> r.value.1 == lib.htmlFiles(r.value.0)
  {
    match CssContentInlined(info, cache, lib.parse, lib.serialize)
    case Ok((_, inlined)) => Ok((inlined, lib.htmlFiles(inlined)))
    case _ => Panic("map_get returned NULL")
  }

  /** The subrequest branch once a subrequest's body is complete, as
      written: count it and store its body under its URI; only when its
      status is not 404 and it is the last one expected, start the object
      round if its own content type is CSS and CSS inlining is on, and
      otherwise morph the page and send it. */
  function SubrequestDoneAsWritten(st: PageState, req: Request, body: seq<byte>, conf: Conf, lib: Library)
    : (r: (PageState, Action))
    requires st.mainInfo.Some?
    ensures r.0.cache == st.cache[req.uri := body]
    ensures req.status == 404 || st.count + 1 != st.tbd ==>
      r == (st.(count := st.count + 1, cache := st.cache[req.uri := body]), PassOn)
    ensures req.status != 404 && st.count + 1 == st.tbd && IsCss(req.contentType) && conf.cssInliningEnabled ==>
      var round := CssRoundEnd(st.mainInfo.value, st.cache[req.uri := body], lib);
      (round.Panic? ==> r.1 == Abort(round.msg)) &&
      (round.Ok? ==> r == (PageState(st.cache[req.uri := body], Some(round.value.0), 0, |round.value.1|),
                           Issue(round.value.1)))
    ensures req.status != 404 && st.count + 1 == st.tbd && !(IsCss(req.contentType) && conf.cssInliningEnabled) ==>
      r == (st.(count := st.count + 1, cache := st.cache[req.uri := body]),
            Emit(ProcessHtmlObjects(st.mainInfo.value, st.cache[req.uri := body], lib)))
  {
    var count := st.count + 1;
    var cache := st.cache[req.uri := body];
    var counted := st.(count := count, cache := cache);
    if req.status == 404 || count != st.tbd then (counted, PassOn)
    else if IsCss(req.contentType) && conf.cssInliningEnabled then
      match CssRoundEnd(st.mainInfo.value, cache, lib)
      case Ok((inlined, files)) => (PageState(cache, Some(inlined), 0, |files|), Issue(files))
      case _ => (counted, Abort("map_get returned NULL"))
    else (counted, Emit(ProcessHtmlObjects(st.mainInfo.value, cache, lib)))
  }

  /** When the last subrequest to complete answered 404, every expected
      body has arrived, yet the filter neither sends the page nor issues
      anything more: the page is never sent. */
  lemma LastNotFoundHangs(st: PageState, req: Request, body: seq<byte>, conf: Conf, lib: Library)
    requires st.mainInfo.Some? && st.count + 1 == st.tbd && req.status == 404
    ensures var r := SubrequestDoneAsWritten(st, req, body, conf, lib);
      r.1 == PassOn && r.0.count == r.0.tbd
    ensures SubrequestDone(Assembly(st, false), req, body, lib).1.Emit?
  {
  }

  /** Which round ends is decided by the content type of the subrequest that
      happens to complete last. A stylesheet round whose last arrival is an
      icon (the stylesheet list holds every `<link>`) sends the page at
      once: stylesheets are not inlined and no object is fetched. An object
      round whose last arrival is a stylesheet runs the stylesheet round's
      end again and issues the object list anew. */
  lemma RoundChosenByLastArrival(st: PageState, req: Request, body: seq<byte>, conf: Conf, lib: Library)
    requires st.mainInfo.Some? && st.count + 1 == st.tbd && req.status != 404 && conf.cssInliningEnabled
    ensures !IsCss(req.contentType) ==>
      SubrequestDoneAsWritten(st, req, body, conf, lib).1 ==
        Emit(ProcessHtmlObjects(st.mainInfo.value, st.cache[req.uri := body], lib))
    ensures IsCss(req.contentType) && CssRoundEnd(st.mainInfo.value, st.cache[req.uri := body], lib).Ok? ==>
      SubrequestDoneAsWritten(st, req, body, conf, lib).1.Issue?
    ensures var r := SubrequestDone(Assembly(st, true), req, body, lib).1;
      !IsCss(req.contentType) ==> !r.Emit? || CssRoundEnd(st.mainInfo.value, st.cache[req.uri := body], lib).Ok?
    ensures IsCss(req.contentType) ==> SubrequestDone(Assembly(st, false), req, body, lib).1.Emit?
  {
  }

  /** A stylesheet round's end that finds no object to fetch issues nothing
      and expects nothing: no later arrival can send the page. */
  lemma EmptyObjectRoundHangs(st: PageState, req: Request, body: seq<byte>, conf: Conf, lib: Library)
    requires st.mainInfo.Some? && st.count + 1 == st.tbd && req.status != 404
    requires IsCss(req.contentType) && conf.cssInliningEnabled
    requires var round := CssRoundEnd(st.mainInfo.value, st.cache[req.uri := body], lib);
      round.Ok? && round.value.1 == []
    ensures var r := SubrequestDoneAsWritten(st, req, body, conf, lib);
      r.1 == Issue([]) && r.0.count == 0 && r.0.tbd == 0
    ensures SubrequestDone(Assembly(st, true), req, body, lib).1.Emit?
  {
  }

  // ---------------------------------------------------------------------
  // Completion of a subrequest, corrected

  /** The page state with the round it is in: `cssRound` while the
      stylesheets are being fetched. */
  datatype Assembly = Assembly(page: PageState, cssRound: bool)

  /** The page branch as `PageComplete`, also recording whether the
      stylesheet round was started. */
  function PageStart(st: PageState, req: Request, conf: Conf, body: seq<byte>, lib: Library): (r: (Assembly, Action))
    ensures r.0.page == PageComplete(st, req, conf, body, lib).0
    ensures r.1 == PageComplete(st, req, conf, body, lib).1
    ensures r.0.cssRound <==> conf.cssInliningEnabled && |lib.cssFiles(PageInfo(req, conf, body))| > 0
  {
    var (page, action) := PageComplete(st, req, conf, body, lib);
    (Assembly(page, conf.cssInliningEnabled && |lib.cssFiles(PageInfo(req, conf, body))| > 0), action)
  }

  /** The subrequest branch corrected: every arrival counts whatever its
      status, the round that ends is the one in progress, and an object
      round with nothing to fetch sends the page at once. */
  function SubrequestDone(a: Assembly, req: Request, body: seq<byte>, lib: Library): (r: (Assembly, Action))
    requires a.page.mainInfo.Some?
    ensures r.0.page.mainInfo.Some?
    ensures r.0.page.cache == a.page.cache[req.uri := body]
    ensures a.page.count + 1 != a.page.tbd ==>
      r == (Assembly(a.page.(count := a.page.count + 1, cache := a.page.cache[req.uri := body]), a.cssRound), PassOn)
    ensures a.page.count + 1 == a.page.tbd && !a.cssRound ==>
      r.1 == Emit(ProcessHtmlObjects(a.page.mainInfo.value, a.page.cache[req.uri := body], lib))
    ensures a.page.count + 1 == a.page.tbd && a.cssRound ==>
      var round := CssRoundEnd(a.page.mainInfo.value, a.page.cache[req.uri := body], lib);
      (round.Panic? ==> r.1 == Abort(round.msg)) &&
      (round.Ok? && |round.value.1| == 0 ==>
         r.1 == Emit(ProcessHtmlObjects(round.value.0, a.page.cache[req.uri := body], lib))) &&
      (round.Ok? && |round.value.1| > 0 ==>
         r == (Assembly(PageState(a.page.cache[req.uri := body], Some(round.value.0), 0, |round.value.1|), false),
               Issue(round.value.1)))
  {
    var st := a.page;
    var count := st.count + 1;
    var cache := st.cache[req.uri := body];
    var counted := Assembly(st.(count := count, cache := cache), a.cssRound);
    if count != st.tbd then (counted, PassOn)
    else if !a.cssRound then (counted, Emit(ProcessHtmlObjects(st.mainInfo.value, cache, lib)))
    else
      match CssRoundEnd(st.mainInfo.value, cache, lib)
      case Ok((inlined, files)) =>
        if |files| == 0 then (Assembly(PageState(cache, Some(inlined), 0, 0), false), Emit(ProcessHtmlObjects(inlined, cache, lib)))
        else (Assembly(PageState(cache, Some(inlined), 0, |files|), false), Issue(files))
      case _ => (counted, Abort("map_get returned NULL"))
  }

  /** One arrival: a subrequest's request and body. */
  datatype Arrival = Arrival(req: Request, body: seq<byte>)

  /** The actions of the corrected branch over arrivals in order. */
  function Run(a: Assembly, arrivals: seq<Arrival>, lib: Library): (r: (Assembly, seq<Action>))
    requires a.page.mainInfo.Some?
    ensures r.0.page.mainInfo.Some? && |r.1| == |arrivals|
    decreases |arrivals|
  {
    if |arrivals| == 0 then (a, [])
    else
      var (next, action) := SubrequestDone(a, arrivals[0].req, arrivals[0].body, lib);
      var (last, actions) := Run(next, arrivals[1..], lib);
      (last, [action] + actions)
  }

  /** The table after a run of arrivals holds a body for each of them. */
  lemma {:induction false} RunStoresEveryArrival(a: Assembly, arrivals: seq<Arrival>, lib: Library)
    requires a.page.mainInfo.Some?
    ensures forall k :: 0 <= k < |arrivals| ==> arrivals[k].req.uri in Run(a, arrivals, lib).0.page.cache
    ensures forall u :: u in a.page.cache ==> u in Run(a, arrivals, lib).0.page.cache
    decreases |arrivals|
  {
    if |arrivals| > 0 {
      var (next, _) := SubrequestDone(a, arrivals[0].req, arrivals[0].body, lib);
      RunStoresEveryArrival(next, arrivals[1..], lib);
      forall k | 1 <= k < |arrivals|
        ensures arrivals[k].req.uri in Run(a, arrivals, lib).0.page.cache
      {
        assert arrivals[k] == arrivals[1..][k - 1];
      }
    }
  }

  /** In the object round, once every expected body has arrived, whatever
      their statuses and content types, the page goes out, exactly once,
      with the last arrival. */
  lemma {:induction false} ObjectRoundSendsPage(a: Assembly, arrivals: seq<Arrival>, lib: Library)
    requires a.page.mainInfo.Some? && !a.cssRound
    requires a.page.count < a.page.tbd && a.page.count + |arrivals| == a.page.tbd
    ensures var actions := Run(a, arrivals, lib).1;
      (forall k :: 0 <= k < |arrivals| - 1 ==> actions[k] == PassOn) && actions[|arrivals| - 1].Emit?
    decreases |arrivals|
  {
    var (next, action) := SubrequestDone(a, arrivals[0].req, arrivals[0].body, lib);
    if |arrivals| > 1 {
      ObjectRoundSendsPage(next, arrivals[1..], lib);
    }
  }

  /** In the stylesheet round, once every expected stylesheet has arrived,
      the page either goes out (nothing else to fetch), or the object round
      starts with a count of zero and at least one URI to fetch, or the
      library panicked. */
  lemma {:induction false} StylesheetRoundEnds(a: Assembly, arrivals: seq<Arrival>, lib: Library)
    requires a.page.mainInfo.Some? && a.cssRound
    requires a.page.count < a.page.tbd && a.page.count + |arrivals| == a.page.tbd
    ensures var (next, actions) := Run(a, arrivals, lib);
      (forall k :: 0 <= k < |arrivals| - 1 ==> actions[k] == PassOn) &&
      (actions[|arrivals| - 1].Emit? || actions[|arrivals| - 1].Abort? ||
       (actions[|arrivals| - 1].Issue? && !next.cssRound && next.page.count == 0 &&
        next.page.tbd == |actions[|arrivals| - 1].uris| > 0))
    decreases |arrivals|
  {
    var (next, action) := SubrequestDone(a, arrivals[0].req, arrivals[0].body, lib);
    if |arrivals| > 1 {
      StylesheetRoundEnds(next, arrivals[1..], lib);
    }
  }

  /** A page whose morphing fails after the stylesheet round goes out with
      its stylesheets inlined, not as first received. */
  lemma FailOpenKeepsInlinedPage(a: Assembly, req: Request, body: seq<byte>, lib: Library)
    requires a.page.mainInfo.Some? && a.cssRound && a.page.count + 1 == a.page.tbd
    requires var round := CssRoundEnd(a.page.mainInfo.value, a.page.cache[req.uri := body], lib);
      round.Ok? && |round.value.1| == 0 && lib.morphHtml(round.value.0, a.page.cache[req.uri := body]).None?
    ensures SubrequestDone(a, req, body, lib).1 ==
      Emit(CssContentInlined(a.page.mainInfo.value, a.page.cache[req.uri := body], lib.parse, lib.serialize).value.1.content)
  {
  }

  // ---------------------------------------------------------------------
  // One call of the filter

  /** One call of the body filter. `complete` is the body received, the
      `size` bytes before the terminator `get_response` adds: None until
      the response's last buffer has arrived (for the padding image, which
      is answered without reading its body, it is not used). */
  function BodyFilter(a: Assembly, req: Request, conf: Conf, complete: Option<seq<byte>>, lib: Library)
    : (r: (Assembly, Action))
    requires Route(req, conf) == SubrequestBranch && complete.Some? ==> a.page.mainInfo.Some?
    ensures Route(req, conf) == NotHandled ==> r == (a, PassOn)
    ensures Route(req, conf) == FakeImageBranch ==> r == (a, Emit(FakeImageBody(req.args, lib)))
    ensures Route(req, conf) == PageBranch && complete.None? ==> r == (a, Hold)
    ensures Route(req, conf) == PageBranch && complete.Some? ==> r == PageStart(a.page, req, conf, complete.value, lib)
    ensures Route(req, conf) == ObjectBranch && complete.None? ==> r == (a, PassOn)
    ensures Route(req, conf) == ObjectBranch && complete.Some? ==>
      r == (a, AppendPadding(PadObject(|complete.value|, req, lib)))
    ensures Route(req, conf) == SubrequestBranch && complete.None? ==> r == (a, PassOn)
    ensures Route(req, conf) == SubrequestBranch && complete.Some? ==>
      r == SubrequestDone(a, req, complete.value, lib)
  {
    match Route(req, conf)
    case NotHandled => (a, PassOn)
    case FakeImageBranch => (a, Emit(FakeImageBody(req.args, lib)))
    case PageBranch =>
      if complete.None? then (a, Hold) else PageStart(a.page, req, conf, complete.value, lib)
    case ObjectBranch =>
      if complete.None? then (a, PassOn) else (a, AppendPadding(PadObject(|complete.value|, req, lib)))
    case SubrequestBranch =>
      if complete.None? then (a, PassOn) else SubrequestDone(a, req, complete.value, lib)
  }

  /** The padding image a page refers to is answered, whatever the
      configuration, with padding for exactly the size the page wrote into
      its reference. */
  lemma PaddingImageAnswered(a: Assembly, conf: Conf, lib: Library, target: nat, i: nat, req: Request)
    requires 0 < target <= USIZE_MAX
    requires FakeImageSrc(target, i) == req.uri + "?" + req.args && req.uri == FAKE_IMAGE_PATH
    ensures BodyFilter(a, req, conf, None, lib).1 == Emit(lib.objectPadding(IMG, 0, target))
  {
    ContentTypeTests(FAKE_IMAGE_PATH);
    FakeImageTarget(target, i, req.args);
  }

  /** The arguments of a padding image's request carry its target. */
  lemma FakeImageTarget(target: nat, i: nat, args: string)
    requires target <= USIZE_MAX
    requires FakeImageSrc(target, i) == FAKE_IMAGE_PATH + "?" + args
    ensures ParseTargetSize(args) == target
  {
    var y := "&i=" + NatToDecimal(i);
    assert args == PADDING_PARAM + NatToDecimal(target) + y by {
      assert FakeImageSrc(target, i) == FAKE_IMAGE_PATH + "?" + (PADDING_PARAM + NatToDecimal(target) + y);
      assert (FAKE_IMAGE_PATH + "?" + args)[|FAKE_IMAGE_PATH| + 1..] == args;
    }
    assert 'a' !in y by {
      var d := NatToDecimal(i);
      forall j | 0 <= j < |y| ensures y[j] != 'a' {
        if j >= 3 {
          assert y[j] == d[j - 3] && IsDigit(d[j - 3]);
        }
      }
    }
    assert args == [] + PADDING_PARAM + NatToDecimal(target) + y;
    TargetSizeRoundTrip([], target, y);
  }

  /** An object requested through a padded reference is followed by
      padding from its own size up to the size in the reference, or by
      nothing when it is already that large. */
  lemma PaddedObjectAnswered(a: Assembly, conf: Conf, lib: Library, req: Request, body: seq<byte>,
                             x: string, t: nat, y: string)
    requires Route(req, conf) == ObjectBranch
    requires t <= USIZE_MAX && (y == [] || y[0] == '&') && 'a' !in y
    requires req.args == x + PADDING_PARAM + NatToDecimal(t) + y
    ensures |body| < t ==>
      BodyFilter(a, req, conf, Some(body), lib).1 ==
        AppendPadding(lib.objectPadding(ParseObjectKind(req.contentType), |body|, t))
    ensures t <= |body| ==> BodyFilter(a, req, conf, Some(body), lib).1 == AppendPadding([])
  {
    TargetSizeRoundTrip(x, t, y);
  }
}
