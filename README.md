# ALPaCA nginx module: a Dafny model of its core

ALPaCA defends web pages against website fingerprinting.
- It pads every object a page references to a target size.
- It adds hidden padding images, and can inline objects into the page, so that the page's object count and sizes follow a chosen distribution (probabilistic mode) or are rounded up to multiples (deterministic mode).

The work is split between two parts:
- the nginx filter module `ngx_http_alpaca_module.c`, which collects the page and its objects;
- the Rust library `libalpaca`, which computes the target sizes and rewrites the page.

The model has one Dafny module per source unit:

| module | file | models |
|---|---|---|
| `Base` | base.dfy | bytes, `Option`, and `Outcome` (a value, an error the library returns, or a Rust panic) |
| `Strings` | strings.dfy | the Rust string operations the library uses: `split`, `replace`, `contains`, `usize` printing and parsing |
| `Utf8` | utf8.dfy | `c_string_to_str`: the bytes before the first NUL byte must be well-formed UTF-8 |
| `Dom` | dom.dfy | the page as a sequence of elements in document order; the `Object` record and its two constructors; the cache of object bodies |
| `AlpacaConf` | alpaca_conf.dfy | directive merging and validation, and the content-type and URI tests of the filter |
| `Accumulator` | accumulator.dfy | `get_response`: a class whose methods grow an `array` in place |
| `BodyFilter` | body_filter.dfy | the body filter's branches and the page-assembly state machine across subrequests |
| `Parse` | parse.dfy | parse.rs: query and MIME parsing, `url(...)` extraction, the reference walks, `parse_objects`, `parse_css_and_inline` |
| `Utils` | utils.dfy | `MorphInfo`, `keep_local_objects`, `append_ref`, `insert_objects_refs`, `add_padding_objects`, the file-extension map, `content_to_c` |
| `Inlining` | inlining.dfy | `make_objects_inlined` (index selection and removal) and `inline_css_content` |
| `Morphing` | morphing.dfy | `morph_object`, `morph_deterministic`, and the target-size loops of both probabilistic routines |

Some routines cannot be described from the source, so they are parameters of the members that call them:
- routines whose bodies live outside the core: `get_multiple`, `get_multiples_in_range`, `min_obj_padding`, `get_object_padding`, `remove_whitespace`;
- HTML parsing and serialization;
- base64 and the file read;
- the samplers;
- the library entry points the filter calls but that this model does not open: `morph_html`, `get_required_css_files`, `get_html_required_files`.

Loops in the source are methods with loop invariants, each proved equal to a specification function. The lemmas are stated about those functions.

The function-static variables of the body filter are the explicit record `BodyFilter.PageState`: `subreq_count`, `subreq_tbd`, `req_mapper` and `main_info`. Each step receives it and returns it changed.

In these places the model follows the code where a reader might expect otherwise:
- A subrequest that failed is still stored in the cache. `map_insert_response` runs before the status test.
- In suppress mode, a consumed fragment is not emptied. It becomes the one byte `"\0"`, since `last = pos + 1`.
- `main_info` leaves `content_type` and `query` unset. The model gives them the empty string.

## Model

| member | source | states |
|---|---|---|
| Strings.DecimalRoundTrip | libalpaca/src/parse.rs:158-161 | a `usize` printed in decimal (as `append_ref` writes it) parses back to itself |
| Strings.ReplaceOneChar | libalpaca/src/parse.rs:39 | `replace` of a one-character pattern substitutes that character everywhere |
| Strings.RemoveChar | libalpaca/src/parse.rs:39 | `replace(c, "")` leaves no `c` and no new character |
| Strings.SplitOnPiecesLack | libalpaca/src/parse.rs:153-155 | every piece of a split is free of any character its input lacks |
| Utf8.CStr | libalpaca/src/utils.rs:335-337 | the C string ends before the first NUL byte, which it does not contain |
| Utf8.AsciiIsValid | libalpaca/src/utils.rs:335-337 | ASCII bytes are accepted by `c_string_to_str` |
| Dom.Existing | libalpaca/src/dom.rs:74-82 | a real object keeps its body, kind, path and element, with no target size |
| Dom.FakeImage | libalpaca/src/dom.rs:85-93 | a padding image is `FakeIMG`, has no body and no element, carries its target, and has path `pad_object` |
| Dom.SetAttribute | libalpaca/src/dom.rs:144-147 | the attribute gets the value, and every other element is unchanged |
| Dom.AcceptPath | libalpaca/src/parse.rs:67-70 | a path is accepted iff it is present, non-empty and does not start with `data:` |
| Dom.InsertEmptyFavicon | libalpaca/src/dom.rs:159-175 | the page gains exactly one element, the empty icon link, and keeps every existing element in order; the model appends the link after all of them (see Left out) |
| Dom.GetMapElement | libalpaca/src/dom.rs:96-115 | the cached body is returned iff the key is present; otherwise a panic (the null dereference) |
| Parse.ParseTargetSize | libalpaca/src/parse.rs:151-162 | the result fits a `usize`; 0 when the text is not a number |
| Parse.TargetSizeRoundTrip | libalpaca/src/parse.rs:151-162 | a size written after the last `alpaca-padding=` and before `&` or the end is read back whatever precedes it |
| Parse.LastPieceAfterParam | libalpaca/src/parse.rs:153-154 | the last piece of the split on the parameter name is what follows its last occurrence |
| Parse.FirstPieceBeforeAmp | libalpaca/src/parse.rs:154-155 | digits followed by nothing or by `&` are the first `&`-piece |
| Parse.ParseObjectKind | libalpaca/src/parse.rs:165-172 | HTML iff exactly `text/html`, CSS iff exactly `text/css`, IMG iff an `image/` prefix, Unknown otherwise |
| Parse.TextTypesAreNotImages | libalpaca/src/parse.rs:166-169 | the two exact text types never reach the image arm |
| Parse.CleanPathStripped | libalpaca/src/parse.rs:31-39 | after the quote swap, the cleaned path holds no quote, parenthesis or semicolon |
| Parse.LinePath | libalpaca/src/parse.rs:28-47 | a line gives at most one path, stripped, and never one containing `*/` |
| Parse.CssImages | libalpaca/src/parse.rs:20-52 | no `url` gives no path; at most one path per line; every path stripped and free of `*/` |
| Parse.ParseCssImages | libalpaca/src/parse.rs:20-52 | the loop with its `found` flag returns exactly `CssImages` |
| Parse.LineImage | libalpaca/src/parse.rs:26-48 | the inner loop with its `found` flag gives exactly `LinePath` of the line |
| Parse.RefNames | libalpaca/src/parse.rs:60-76 | at most one name per element, each starting with `/` |
| Parse.RefNamesMembers | libalpaca/src/parse.rs:60-76 | a name is listed iff some selected element has an accepted path and the name is `/` plus that path |
| Parse.HasIconIff | libalpaca/src/parse.rs:78-83 | the favicon flag is set iff some selected element with an accepted path is an `icon` or `shortcut icon` link |
| Parse.CssNamesListEveryLink | libalpaca/src/parse.rs:60-77 | `parse_css_names` lists every link with an accepted `href`, whatever its `rel` |
| Parse.FaviconInsertedIff | libalpaca/src/parse.rs:86-89 | the empty favicon is added iff no selected link is an icon; the original elements stay in front |
| Parse.ScanReferences | libalpaca/src/parse.rs:60-84 | the loop returns exactly the listed names and the favicon flag |
| Parse.ParseCssNames | libalpaca/src/parse.rs:54-93 | the names of the links, and the page with the favicon check applied |
| Parse.Prefixed | libalpaca/src/parse.rs:215-218 | every path gets a `/` in front, in order |
| Parse.StyleImageNames | libalpaca/src/parse.rs:207-219 | defined iff every `<style>` has a text child (else `unwrap` panics); names start with `/` |
| Parse.PushPrefixed | libalpaca/src/parse.rs:215-218 | the inner loop appends the prefixed paths |
| Parse.StyleNames | libalpaca/src/parse.rs:207-219 | the style loop gives exactly `StyleImageNames` |
| Parse.StylePanicStays | libalpaca/src/parse.rs:209-210 | a `<style>` without text among the first elements makes the whole walk panic |
| Parse.ObjectNames | libalpaca/src/parse.rs:175-228 | panics iff a `<style>` lacks text; the reference names come first, all start with `/`, and the page gets the favicon check |
| Parse.ParseObjectNames | libalpaca/src/parse.rs:175-228 | the loops compute `ObjectNames` |
| Parse.CacheKey | libalpaca/src/parse.rs:256-257 | the key starts with `/` and holds no `?` |
| Parse.RefObjects | libalpaca/src/parse.rs:235-264 | succeeds iff every collected element's key is cached; each object stands for its element with the cached body and the kind its tag and `rel` give; every collected element has its object, and the objects follow the elements in document order, one per element |
| Parse.RefCoverStep | libalpaca/src/parse.rs:235-264 | one element of the walk keeps the objects in document order and gives a collected element its object |
| Parse.PathObjects | libalpaca/src/parse.rs:275-285 | one CSS object per image path of a `<style>`, with the cached body; panics iff a key is missing |
| Parse.StyleObjects | libalpaca/src/parse.rs:266-286 | every object comes from an image path of a `<style>` and carries its cached body |
| Parse.StyleObjectsCover | libalpaca/src/parse.rs:266-286 | the style walk succeeds iff every `<style>` has a text child and every image it uses has a cached body; then every image of every `<style>` has an object standing for that `<style>` |
| Parse.StyleCoverStep | libalpaca/src/parse.rs:266-286 | one element of the style walk keeps what the prefix covers and adds the images of the last element |
| Parse.PathObjectsCover | libalpaca/src/parse.rs:275-283 | the objects of one `<style>` stand for each of its image paths |
| Parse.InsertBySize | libalpaca/src/parse.rs:292 | inserting into a list sorted largest first keeps it sorted and adds exactly that object |
| Parse.SortBySize | libalpaca/src/parse.rs:292 | sorted by body length, largest first, and a permutation of the input |
| Parse.SortedFromPage | libalpaca/src/parse.rs:292 | after sorting, every object still comes from the page and points inside the page with the favicon check applied |
| Parse.FromPageAppend | libalpaca/src/parse.rs:235-286 | the two walks' objects together all come from the page |
| Parse.CollectObjects | libalpaca/src/parse.rs:235-286 | every collected object comes from a reference or from a style image; it succeeds iff every collected key is cached and the style walk gets past every element; then every collected element and every style image has its object |
| Parse.CoveredAppend | libalpaca/src/parse.rs:235-286 | the two walks' objects together cover every reference and every style image |
| Parse.CoveredPermuted | libalpaca/src/parse.rs:292 | sorting the objects loses none of them |
| Parse.ObjectsOf | libalpaca/src/parse.rs:230-294 | sorted largest first; a permutation of the collected objects; the page gets the favicon check, and objects point into it; every collected element and every image of every `<style>` has its object |
| Parse.ParsedObjectsFromPage | libalpaca/src/parse.rs:230-294 | every returned object stands for something on the page, and everything on the page that the walks collect has its returned object |
| Parse.CollectPathObjects | libalpaca/src/parse.rs:275-285 | the loop appends `PathObjects`, or panics when it does |
| Parse.CollectRefObjects | libalpaca/src/parse.rs:235-264 | the loop computes `RefObjects` and the favicon flag |
| Parse.RefStep | libalpaca/src/parse.rs:237-263 | one element moves the walk one step along `RefObjects` and the favicon flag; it panics only at a collected element whose path has no cached body |
| Parse.CollectStyleObjects | libalpaca/src/parse.rs:266-286 | the loop computes `StyleObjects` |
| Parse.ParseObjects | libalpaca/src/parse.rs:230-294 | `parse_objects` computes `ObjectsOf` |
| Parse.StylePanicSpreads | libalpaca/src/parse.rs:266-286 | a panic on a prefix of the page is a panic on the page |
| Parse.BytesToText | libalpaca/src/parse.rs:114 | each byte becomes the character with the same code |
| Parse.StyleElement | libalpaca/src/dom.rs:122-129 | a `<style>` without attributes whose only text is the body |
| Parse.InlinablePositions | libalpaca/src/parse.rs:97-109 | the positions of exactly the inlinable links, increasing |
| Parse.InlinedStyles | libalpaca/src/parse.rs:97-119 | panics iff a link's body is not cached; otherwise only `<style>` elements |
| Parse.InlinedStylesExact | libalpaca/src/parse.rs:97-119 | one `<style>` per inlinable link, in document order, the k-th holding the body cached under `/` and the k-th link's `href` |
| Parse.StylesForLinks | libalpaca/src/parse.rs:97-119 | every inlinable link's `<style>` is among those appended |
| Parse.WithoutInlinable | libalpaca/src/parse.rs:121-146 | no inlinable link survives, and the page never grows |
| Parse.WithoutMembers | libalpaca/src/parse.rs:121-146 | every element that is not an inlinable link survives, and nothing is added |
| Parse.WithoutAppend | libalpaca/src/parse.rs:126-141 | removal works element by element |
| Parse.WithoutKeepsClean | libalpaca/src/parse.rs:143-145 | a pass over a page without inlinable links removes nothing, so the loop stops |
| Parse.CssInlined | libalpaca/src/parse.rs:95-147 | succeeds iff every inlinable link's body is cached; afterwards no inlinable link is left and every other element remains, in order, followed by one `<style>` per inlinable link holding its cached body, in the links' order |
| Parse.AppendStyles | libalpaca/src/parse.rs:97-119 | the first loop computes `InlinedStyles` |
| Parse.FirstInlinable | libalpaca/src/parse.rs:126-131 | the position of the first link that is inlined (accepted href, no `favicon.ico`), with none before it; none iff no link is inlinable |
| Parse.DetachFirst | libalpaca/src/parse.rs:126-136 | a removal pass detaches the first inlinable link and stops, since the walk continues from the detached node |
| Parse.DetachFirstKeeps | libalpaca/src/parse.rs:123-146 | a pass keeps the page's non-inlinable elements and their order, shortens the page by one when it detaches a link and leaves it unchanged otherwise (so the loop terminates and ends with every inlinable link gone) |
| Parse.DetachAtKeeps | libalpaca/src/parse.rs:133 | detaching one inlinable link does not change the page's non-inlinable elements |
| Parse.RemovalPass | libalpaca/src/parse.rs:124-141 | one pass walks the links in document order and detaches the first inlinable one; `removed` iff there was one |
| Parse.ParseCssAndInline | libalpaca/src/parse.rs:95-147 | `parse_css_and_inline` computes `CssInlined` |
| Utils.KeepLocalMembers | libalpaca/src/utils.rs:284-286 | an object is kept iff its path contains neither `http:` nor `https:` |
| Utils.KeepLocalAppend | libalpaca/src/utils.rs:284-286 | filtering commutes with concatenation, so the original order is kept |
| Utils.KeepLocalAllLocal | libalpaca/src/utils.rs:284-286 | a list of local objects is unchanged |
| Utils.RefAttribute | libalpaca/src/utils.rs:25-36 | an attribute exists exactly for `img`, `script`, `link` and `style`, and it is `style` only for `<style>` |
| Utils.PaddedLink | libalpaca/src/utils.rs:20-42 | the link is the path, then `&` if the path has a `?` and `?` otherwise, then the parameter |
| Utils.PaddedLinkRoundTrip | libalpaca/src/utils.rs:20-42 | the object's server reads back exactly the target the page wrote |
| Utils.AppendRef | libalpaca/src/utils.rs:17-60 | panics iff no target, no element or an unknown tag, or a style without text; otherwise only that element changes, with its attribute (or its style text with every path occurrence) replaced by the padded link |
| Utils.FakeImageRoundTrip | libalpaca/src/utils.rs:108-112 | the padding image's server reads back its target, whatever its number |
| Utils.FakeImageElement | libalpaca/src/utils.rs:103-114 | a hidden `<img>` whose `src` carries the target and the number |
| Utils.PaddingElements | libalpaca/src/utils.rs:99-118 | one element per object, numbered from the first number up; none (a panic) when an object has no target |
| Utils.AddPaddingObjects | libalpaca/src/utils.rs:86-119 | the page gains the padding elements numbered from 1 at its end, or panics on an object without a target |
| Utils.AppendRefs | libalpaca/src/utils.rs:70-75 | the loop rewrites only elements that some object with a target points at |
| Utils.InsertObjectsRefs | libalpaca/src/utils.rs:63-80 | panics when `n` exceeds the list; rewrites the first `n` objects' references, then appends padding images for the rest |
| Utils.AppendRefsPanicSpreads | libalpaca/src/utils.rs:70-75 | a panic on a prefix is a panic of the loop |
| Utils.FileExtensionShape | libalpaca/src/utils.rs:288-291 | the extension has no dot; it ends the name and is the whole name or follows a dot; it is the whole name when there is no dot |
| Utils.FileExtensionIsLastPiece | libalpaca/src/utils.rs:288-291 | the scan equals the last piece of `split(".")` |
| Utils.LastPieceShape | libalpaca/src/utils.rs:288-291 | the last piece of a split on one character holds no such character, ends the text, and is the whole text or follows that character |
| Utils.ImageFormat | libalpaca/src/utils.rs:301-306 | defined exactly for `jpg`, `jpeg`, `png` and `gif`, giving `jpeg`, `png` or `gif` |
| Utils.GetImgFormatAndExt | libalpaca/src/utils.rs:293-313 | panics iff the file cannot be read or the extension is unknown; otherwise the `data:image/{ext};charset=utf-8;base64,` URI of the file |
| Utils.InlinedReferenceSkipped | libalpaca/src/utils.rs:310 | an inlined reference is a `data:` URI, which every later walk skips |
| Utils.ContentToC | libalpaca/src/utils.rs:325-333 | returns 1, and the record's content and size become the bytes and their length |
| Inlining.DropNothing | libalpaca/src/inlining.rs:109-111 | recording no index removes nothing |
| Inlining.DropKeepsTail | libalpaca/src/inlining.rs:109-111 | objects past every recorded index are kept as they are |
| Inlining.RemoveLargestFirst | libalpaca/src/inlining.rs:109-111 | removing the largest recorded index first leaves the others in place |
| Inlining.DropLength | libalpaca/src/inlining.rs:109-111 | removing `k` distinct increasing indices leaves `k` fewer objects |
| Inlining.InlineOne | libalpaca/src/inlining.rs:53-106 | panics unless the object has an element with a known tag; skipped iff its path is missing, empty or `data:`; when inlined, only its element changes and it no longer has an accepted path |
| Inlining.InlinePlan | libalpaca/src/inlining.rs:38-107 | the page keeps its length and tags; the recorded indices are increasing and below the number examined |
| Inlining.PlanStep | libalpaca/src/inlining.rs:42-106 | each step records index `k` exactly when it inlines object `k` |
| Inlining.PlanExaminesRefs | libalpaca/src/inlining.rs:53-66 | when no panic occurs, every examined object has an element with a known tag |
| Inlining.PlanUntouched | libalpaca/src/inlining.rs:89-103 | an element no examined object points at is unchanged |
| Inlining.PlanRecordsStyles | libalpaca/src/inlining.rs:77-79 | a `<style>` object is never skipped: its path is its own `uri` |
| Inlining.PlanRecordsSoleOwners | libalpaca/src/inlining.rs:70-90 | an object that alone stands for its element is recorded iff its path is accepted |
| Inlining.PlanIndices | libalpaca/src/inlining.rs:42-106 | one step records `k - 1` exactly when the object's path on the page as rewritten so far is accepted |
| Inlining.RecordSole | libalpaca/src/inlining.rs:42-106 | for one object alone on its element, the index is recorded iff its path is accepted |
| Inlining.PlanPanicSpreads | libalpaca/src/inlining.rs:42-107 | a panic among the first `k` objects is a panic of the loop |
| Inlining.MakeObjectsInlined | libalpaca/src/inlining.rs:35-114 | panics when `n` exceeds the list; never returns `Err`; otherwise the rewritten page and the list without the recorded indices |
| Inlining.RunPlan | libalpaca/src/inlining.rs:42-107 | the first loop computes the page and the indices of `InlinePlan` |
| Inlining.ExamineOne | libalpaca/src/inlining.rs:42-107 | one object examined moves the loop one step along `InlinePlan` |
| Inlining.RemoveRecorded | libalpaca/src/inlining.rs:109-111 | removing the recorded objects last first leaves the list without exactly those indices |
| Inlining.InlinedRemoval | libalpaca/src/inlining.rs:109-111 | as many objects fewer as were recorded, and every object from `n` on survives |
| Inlining.KeptPositions | libalpaca/src/inlining.rs:109-111 | exactly the positions below `n` that were not recorded, in increasing order |
| Inlining.DropKeepsOrder | libalpaca/src/inlining.rs:109-111 | the survivors keep their relative order |
| Inlining.CssContentInlined | libalpaca/src/inlining.rs:7-32 | returns 0 with the record unchanged iff the content is not a UTF-8 C string; otherwise returns 1 with the serialized inlined page, or panics on an uncached stylesheet |
| Inlining.InlineCssContent | libalpaca/src/inlining.rs:7-32 | computes `CssContentInlined` |
| Morphing.MorphObject | libalpaca/src/morphing.rs:198-217 | returns 1; a target of 0, or one the object already reaches, gives an empty body of size 0; otherwise the object padding for (kind, size, target) |
| Morphing.MorphObjectHonoursRequest | libalpaca/src/morphing.rs:198-217 | a request carrying a written target is padded to exactly that target, unless already that large |
| Morphing.Fakes | libalpaca/src/dom.rs:85-93 | one padding image per size, in order |
| Morphing.PushFakes | libalpaca/src/morphing.rs:452-454 | appends `count` padding images, or panics when there are fewer sizes |
| Morphing.Zeros | libalpaca/src/morphing.rs:561-563 | the placeholders of the total-size branch have target 0 |
| Morphing.AssignDeterministicTargets | libalpaca/src/morphing.rs:416-427 | each object's target is `get_multiple(obj_size, len + 4)` for CSS and JS and `get_multiple(obj_size, len)` otherwise; nothing else changes |
| Morphing.MorphDeterministic | libalpaca/src/morphing.rs:394-462 | the count is `obj_num` with inlining and `get_multiple(obj_num, n)` otherwise; fewer targets with inlining inline the surplus and set the count; enough targets append exactly `count - n` padding images; fewer without inlining panic; the page target is `get_multiple(obj_size, len + 7)` |
| Morphing.TargetsKeepNodes | libalpaca/src/morphing.rs:416-427 | setting the targets moves no object to another element |
| Morphing.InlineDeterministic | libalpaca/src/morphing.rs:429-461 | succeeds iff the inlining loop does, with its page, the objects it did not inline and `orig_n` set to the count; the page target is the multiple over the page length plus 7 |
| Morphing.PadDeterministic | libalpaca/src/morphing.rs:441-461 | fails iff the size sampler fails; panics iff it gives fewer sizes than asked; otherwise exactly those padding images are appended and the page is unchanged |
| Morphing.MinHtmlSizeWithInl | libalpaca/src/morphing.rs:246-262 | the number of images to add and the page minimum, in both branches |
| Morphing.ReferenceAllowance | libalpaca/src/morphing.rs:253-254 | a padded link adds 16 bytes plus the digits, so at most 23 for targets under 10^7 |
| Morphing.LinkGrowthBound | libalpaca/src/morphing.rs:492 | padding parameters with targets under 10^7 add at most 23 bytes per reference |
| Morphing.MinHtmlSizeCoversLinks | libalpaca/src/morphing.rs:490-493 | `min_html_size` covers the serialized page, the 7 comment bytes, every reference's padding parameter and 94 bytes per padding image |
| Morphing.RaiseObjNum | libalpaca/src/morphing.rs:556-559 | the count is raised by one exactly when it is 0 and there is a total size to spread |
| Morphing.SplitState | libalpaca/src/morphing.rs:566-573 | the loop runs without panicking iff it stays within `target_obj_num`; the pads so far and the rest add up to the surplus |
| Morphing.SplitStep | libalpaca/src/morphing.rs:569-572 | each step takes `rest / (target - pos)`, which never exceeds the rest |
| Morphing.SplitExhausts | libalpaca/src/morphing.rs:566-573 | over exactly `target_obj_num` objects the pads sum to the whole surplus |
| Morphing.SplitEven | libalpaca/src/morphing.rs:566-573 | every pad is `q` or `q + 1`, where `q` is the surplus divided by the count |
| Morphing.SplitOver | libalpaca/src/morphing.rs:568-573 | each object's target is its body, its minimum padding and its pad |
| Morphing.SplitTotalSize | libalpaca/src/morphing.rs:566-573 | the loop sets those targets, or panics on more objects than the count |
| Morphing.MorphProbabilisticTotal | libalpaca/src/morphing.rs:533-574 | the count is raised, placeholders are added up to it, and the surplus is split over all objects |
| Morphing.TotalSplitLosesNothing | libalpaca/src/morphing.rs:556-573 | in `morph_probabilistic` the whole surplus is handed out |
| Morphing.RecordedAtMostExamined | libalpaca/src/inlining.rs:42-106 | inlining records at most one index per examined object |
| Morphing.ReachCount | libalpaca/src/morphing.rs:309-327 | with a count no lower than the objects, padding images are appended up to it; with a lower count, the surplus is inlined and `new_orig_n` becomes the count |
| Morphing.MorphProbabilisticWithInlTotal | libalpaca/src/morphing.rs:329-389 | as above with placeholders of size 0, then the split; it panics unless inlining removed every examined object |
| Morphing.InsertAscending | libalpaca/src/morphing.rs:506 | inserting into an ascending list keeps it ascending and adds exactly that size |
| Morphing.SortAscending | libalpaca/src/morphing.rs:506 | `sort_unstable`: ascending, with the same sizes |
| Morphing.PadExisting | libalpaca/src/morphing.rs:509-527 | never panics with enough drawn sizes; only targets change; the sizes left are a prefix of the sorted list, with at most one removed per object |
| Morphing.PadExistingMeetsNeed | libalpaca/src/morphing.rs:510-526 | with a sampler that honours its bound, every target covers body plus minimum padding |
| Morphing.PadPanicSpreads | libalpaca/src/morphing.rs:509-527 | a panic on a prefix of the objects is the loop's result |
| Morphing.PadExistingObjects | libalpaca/src/morphing.rs:509-527 | the loop computes `PadExisting` |
| Morphing.PadKeepsNodes | libalpaca/src/morphing.rs:509-527 | setting targets moves no object to another element |
| Morphing.MorphProbabilisticPerObject | libalpaca/src/morphing.rs:497-532 | never panics; the page gets exactly the drawn number of objects, padding images taking the smallest sizes left |
| Morphing.MorphProbabilisticWithInlPerObject | libalpaca/src/morphing.rs:267-327 | the existing objects are padded, then either padding images are appended up to the drawn count or the surplus is inlined |
| AlpacaConf.MergeSetting | ngx_http_alpaca_module.c:381-391 | a location's own value wins, then the parent's, then the default |
| AlpacaConf.MergeLocConf | ngx_http_alpaca_module.c:376-426 | accepts exactly the acceptable merged configurations and returns them; each refusal message is given exactly when its test is the first to fail |
| AlpacaConf.NothingConfiguredIsOff | ngx_http_alpaca_module.c:364-391 | with no directive anywhere, both modes are off and every value takes its default |
| AlpacaConf.MergeKeepsOwnValues | ngx_http_alpaca_module.c:381-391 | a location that gives every directive keeps its own values |
| AlpacaConf.DeterministicSizesAreMultiples | ngx_http_alpaca_module.c:405-424 | an accepted deterministic configuration has a positive object size dividing the maximum |
| AlpacaConf.Take | ngx_http_alpaca_module.c:202-221 | the first `n` characters, or the whole string |
| AlpacaConf.StrNEqIsTakeEq | ngx_http_alpaca_module.c:202-221 | `ngx_strncmp(a, b, n) == 0` holds iff the first `n` characters agree, for strings without NUL |
| AlpacaConf.PrefixTest | ngx_http_alpaca_module.c:202-214 | comparing the length of `p` is the prefix test |
| AlpacaConf.ContentTypeTests | ngx_http_alpaca_module.c:202-214 | `is_html`, `is_css` and `is_fake_image` are prefix tests |
| AlpacaConf.PaddableTypes | ngx_http_alpaca_module.c:216-222 | paddable iff an `image/` prefix, or a prefix of `application/javascript` or of `text/css` |
| AlpacaConf.PaddableEdgeCases | ngx_http_alpaca_module.c:216-222 | the empty type is paddable; `text/css; charset=utf-8` is CSS but not paddable |
| AlpacaConf.PaddableCommonTypes | ngx_http_alpaca_module.c:216-222 | `image/png` and `text/css` are paddable |
| AlpacaConf.HtmlNotPaddable | ngx_http_alpaca_module.c:216-222 | `text/html` is not paddable |
| Accumulator.Blanked | ngx_http_alpaca_module.c:278-288 | the chain keeps its length; each fragment becomes one NUL byte in suppress mode |
| Accumulator.ResponseBuffer.ForPage | ngx_http_alpaca_module.c:695-701 | room for the announced length, or for 1000 bytes when none is announced |
| Accumulator.ResponseBuffer.Zeroed | ngx_http_alpaca_module.c:685 | every other context starts with no buffer |
| Accumulator.ResponseBuffer.GetResponse | ngx_http_alpaca_module.c:238-291 | the size grows by the chain's bytes; a buffer too small, or a missing buffer (corrected as in Finding D, not the `size > capacity` test as written), is replaced by one of `max(2*capacity, size)` holding the old bytes as prefix; the final fragment gives a fresh copy of everything received and its terminator, whose first `size` bytes are the body the filter passes on, and every fragment is blanked in suppress mode |
| Accumulator.ResponseBuffer.CopyChain | ngx_http_alpaca_module.c:264-290 | the fragments are appended in order up to the one that ends the response |
| Accumulator.ResponseBuffer.CopyFragment | ngx_http_alpaca_module.c:264-266 | one fragment is appended after the bytes already copied |
| Accumulator.ResponseBuffer.Terminate | ngx_http_alpaca_module.c:269-276 | the terminator follows the body, which is returned with it |
| Accumulator.ResponseBuffer.ChainLength | ngx_http_alpaca_module.c:243-244 | the chain's byte count |
| Accumulator.ResponseBuffer.Grow | ngx_http_alpaca_module.c:249-261 | a fresh buffer of the new capacity with the old bytes as prefix |
| Accumulator.ResponseBuffer.CopyBytes | ngx_http_alpaca_module.c:266 | `ngx_copy` appends the bytes at the write position |
| Accumulator.GrowAsWritten | ngx_http_alpaca_module.c:246-261 | a buffer exists afterwards iff one existed or the size exceeds the capacity |
| Accumulator.EmptyBodyHasNoBuffer | ngx_http_alpaca_module.c:249-271 | an empty body on a zeroed context leaves no buffer for the terminator |
| Accumulator.GrowCorrected | ngx_http_alpaca_module.c:246-261 | a buffer always exists afterwards and holds the size |
| BodyFilter.Route | ngx_http_alpaca_module.c:751-907 | the padding image is served whatever the configuration; the page branch needs HTML, a status other than 404 and the main request; subrequests go to their own branch |
| BodyFilter.FakeImageBody | ngx_http_alpaca_module.c:769-793 | padding from size 0 up to the target in the arguments, or nothing |
| BodyFilter.PadObject | ngx_http_alpaca_module.c:572-600 | padding from the object's size up to the target, or nothing when it is already reached |
| BodyFilter.ExecuteSubrequests | ngx_http_alpaca_module.c:443-509 | the stylesheet list is asked for iff CSS inlining is on; the object list iff inlining is off or no stylesheet was found; the cache starts empty; returns 0 iff nothing was issued |
| BodyFilter.SimpleHtmlMorph | ngx_http_alpaca_module.c:533-570 | the morphed page, or the page as received when morphing fails |
| BodyFilter.PageComplete | ngx_http_alpaca_module.c:804-827 | the count resets; the page is held while objects are fetched, or sent morphed when there is none |
| BodyFilter.PageWithoutObjectsGoesOut | ngx_http_alpaca_module.c:820-825 | a page with nothing to fetch is sent at once, unchanged when morphing fails |
| BodyFilter.ProcessHtmlObjects | ngx_http_alpaca_module.c:618-659 | the morphed page, or the content copied before the call when morphing fails |
| BodyFilter.CssRoundEnd | ngx_http_alpaca_module.c:886-890 | the stylesheets are inlined and the object list is asked of the new page |
| BodyFilter.SubrequestDoneAsWritten | ngx_http_alpaca_module.c:867-903 | each arrival is counted and cached; only a non-404 last arrival ends the round, the CSS round when it is itself CSS |
| BodyFilter.LastNotFoundHangs | ngx_http_alpaca_module.c:877-881 | a 404 arriving last leaves the count at the total with nothing sent |
| BodyFilter.RoundChosenByLastArrival | ngx_http_alpaca_module.c:884 | the content type of the last arrival, not the round, decides what happens |
| BodyFilter.EmptyObjectRoundHangs | ngx_http_alpaca_module.c:886-890 | an object round with nothing to fetch issues nothing and waits for nothing |
| BodyFilter.PageStart | ngx_http_alpaca_module.c:804-827 | the page branch, recording whether the stylesheet round began |
| BodyFilter.SubrequestDone | ngx_http_alpaca_module.c:867-903 | corrected: every arrival counts, the round in progress ends, and an empty object round sends the page |
| BodyFilter.Run | ngx_http_alpaca_module.c:865-903 | one action per arrival |
| BodyFilter.RunStoresEveryArrival | ngx_http_alpaca_module.c:873 | every arrival's body is cached, and nothing cached is lost |
| BodyFilter.ObjectRoundSendsPage | ngx_http_alpaca_module.c:877-900 | once every expected object has arrived the page is sent exactly once, with the last arrival |
| BodyFilter.StylesheetRoundEnds | ngx_http_alpaca_module.c:884-890 | once every stylesheet has arrived, the page is sent, or the object round starts with something to fetch, or the library panicked |
| BodyFilter.FailOpenKeepsInlinedPage | ngx_http_alpaca_module.c:625-657 | a failed morph after the stylesheet round sends the page with its stylesheets inlined |
| BodyFilter.BodyFilter | ngx_http_alpaca_module.c:727-908 | each branch's action: pass on, hold, serve the padding image, start or continue page assembly, or append padding |
| BodyFilter.PaddingImageAnswered | ngx_http_alpaca_module.c:763-794 | a padding image the page references is answered with padding of exactly the size written into the reference |
| BodyFilter.PaddedObjectAnswered | ngx_http_alpaca_module.c:835-862 | a padded reference's object is followed by padding up to the size written, or by nothing |

## Left out

- The header filter (ngx_http_alpaca_module.c:663-725) is modelled only through the buffers it sets up (`ForPage`, `Zeroed`). Its header rewriting and its clearing of length, ranges and ETag are not modelled.
- The directive table, module registration and filter installation (ngx_http_alpaca_module.c:95-194, 428-439): nginx glue.
- `ngx_http_subrequest`, pool allocation and freeing, logging, and `send_response`'s buffer flags are nginx glue. Issuing is `Issue(uris)`, and sending is `Emit(body)` or `AppendPadding(bytes)`. The buffer that the page branch passes on while it issues subrequests is treated as carrying none of the page.
- The missing-context path (ngx_http_alpaca_module.c:757-760) and the `map_create` failure (ngx_http_alpaca_module.c:484-489) are allocation failures and are not modelled.
- `BodyFilter.BodyFilter` follows the corrected page assembly (`SubrequestDone`). The source's own branch is `SubrequestDoneAsWritten`.
- `morph_html` (libalpaca/src/morphing.rs:55-117), `get_required_files` (libalpaca/src/utils.rs:137-186), HTML parsing and serialization, base64, the file read, and the padding routines are parameters. Their bodies are not part of this model.
- `get_html_required_files` and `get_required_css_files` are parameters. The fact that they list the names of `Parse.ObjectNames` and `Parse.ParseCssNames` is not tied to `BodyFilter`.
- Sampling (`sample_ge`, `sample_ge_many`, `sample_pair_ge`, `Dist::from`) is not modelled. Drawn values are inputs. Errors returned through `?` by sampling and distribution parsing are not modelled.
- Morphing.MorphProbabilisticTotal: requires the drawn total size to cover the objects' minimum, which is the lower bound the sampler is asked for.
- Morphing.MorphProbabilisticWithInlTotal: requires the same bound on the drawn total size.
- Morphing.MorphProbabilisticPerObject: requires that as many sizes were drawn as the count, which is what `sample_ge_many` is asked for.
- Morphing.MorphProbabilisticWithInlPerObject: requires the number of drawn sizes that `sample_ge_many` is asked for.
- `remove_whitespace` is a parameter, so `Parse.CssImages` assumes nothing about what it removes.
- Utils.KeepLocalObjects: `Vec::retain` is modelled on values, as a filter that returns the kept list. The in-place update is not modelled.
- Dom.InsertEmptyFavicon: the source appends the link to the first `<head>`, or to the document when there is none (libalpaca/src/dom.rs:164-174). The element sequence has no tree, so the model appends the link after every element, and a walk in document order sees it last.
- Parse.CssInlined: the source appends each `<style>` to the parent of its link (libalpaca/src/parse.rs:112-117). The model appends the styles after every element, so a later walk sees them after the page's other elements.
- Accumulator.ResponseBuffer.GetResponse: the in-place blanking of the caller's fragments is returned as a new chain (`out`), not written into the fragments' buffers.
- Integer widths: `usize` targets are bounded by `USIZE_MAX` where they are parsed. Additions of sizes and the C `int` counters are unbounded, so no wrap-around of an addition is modelled. A `usize` subtraction that would go below zero, such as `target_count - initial_obj_no` (libalpaca/src/morphing.rs:445), is modelled as the panic "attempt to subtract with overflow". That is the behaviour of a build with overflow checks; a release build without them would wrap around instead, and the model does not follow that build.
- Utils.ContentToC: the source hands C a boxed slice with no terminating NUL (libalpaca/src/utils.rs:325-333, libalpaca/src/dom.rs:149-157). After `inline_css_content` (ngx_http_alpaca_module.c:888) that buffer is `main_info->content`, and `get_html_required_files` and `morph_html` read it with `CStr::from_ptr` (libalpaca/src/utils.rs:145, libalpaca/src/morphing.rs:62), which reads past the allocation. The model keeps the bytes as `MorphInfo.content` and ends them where the sequence ends, so the heap bytes that follow, and a `to_str` failure they may cause, are not modelled.
- BodyFilter.CssRoundEnd: asks for the object list of the inlined page as if its content were NUL-terminated at its end, as in the line above.
- `ngx_strncmp` on a content type that is not NUL-terminated reads past its length. The model extends every string with NUL bytes.
- `c_string_to_str(info.uri).unwrap()` in `inline_css_content` (libalpaca/src/inlining.rs:13) is assumed to succeed: the URI nginx hands over is not modelled as bytes.
- The commented-out code in morphing.rs and utils.rs, `free_memory`, and the C map and `get_map_element` internals are not modelled. The cache is a `map`, and a missing key is a panic.
- The morphing routines' HTML padding and `insert_objects_refs` call inside `morph_html` are outside this model.
- The fake-image branch's status and content-type rewrite (ngx_http_alpaca_module.c:769-771) is not modelled.
- The search for the `last_buf` fragment before the padding is appended (ngx_http_alpaca_module.c:843-859) is not modelled; the padding follows the object.

## Findings

| source | as written | input that shows it | evidently intended | confidence | as-written member | corrected member |
|---|---|---|---|---|---|---|
| ngx_http_alpaca_module.c:877-881 | the test `subreq_count == subreq_tbd` sits inside `status != 404` | a page referencing a missing image, whose 404 completes last | every arrival counts toward the end of the round, so the page is sent | not executed | BodyFilter.LastNotFoundHangs | BodyFilter.SubrequestDone, BodyFilter.ObjectRoundSendsPage |
| ngx_http_alpaca_module.c:884 | the round that ends is chosen by `is_css(r)` of the last arrival | CSS inlining on, and a page whose `<link rel="icon" href="f.png">` follows its stylesheet link and completes last | the stylesheet round ends as such whatever arrives last | not executed | BodyFilter.RoundChosenByLastArrival | BodyFilter.SubrequestDone, BodyFilter.StylesheetRoundEnds |
| ngx_http_alpaca_module.c:886-890 | after the stylesheet round, an empty object list sets `subreq_tbd` to 0 and issues nothing | CSS inlining on, and a page whose only reference is one stylesheet without `url(...)` | with nothing left to fetch, the page is sent | not executed | BodyFilter.EmptyObjectRoundHangs | BodyFilter.SubrequestDone, BodyFilter.StylesheetRoundEnds |
| ngx_http_alpaca_module.c:249-271 | a buffer is allocated only when `size > capacity` | an empty script requested with `alpaca-padding=` (a zeroed context, zero bytes): the terminator is written through a null `end` | a context without a buffer gets one | not executed | Accumulator.EmptyBodyHasNoBuffer | Accumulator.GrowCorrected, Accumulator.ResponseBuffer.GetResponse |
