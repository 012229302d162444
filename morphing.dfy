/** Size targets (`libalpaca/src/morphing.rs`): the padding of a single
    object, the deterministic targets for a page and its objects, and the
    probabilistic ones once the random draws are made. The helpers of
    `deterministic.rs` and `pad.rs` (`get_multiple`, `get_multiples_in_range`,
    `min_obj_padding`, `get_object_padding`), the samplers and the HTML
    serializer are not part of this model and are parameters. */
module Morphing {
  import opened Base
  import opened Strings
  import opened Dom
  import opened Parse
  import opened Utils
  import opened Inlining

  // ---------------------------------------------------------------------
  // morph_object

  /** `morph_object`: the padding body for a request whose query asks for
      a target size. A target of 0 (no or unreadable parameter) or one the
      object already reaches gives an empty body. */
  function MorphObject(info: MorphInfo, objectPadding: (ObjectKind, nat, nat) -> seq<byte>): (r: (nat, MorphInfo))
    ensures r.0 == 1
    ensures ParseTargetSize(info.query) <= info.size ==> r.1 == info.(content := [], size := 0)
    ensures ParseTargetSize(info.query) > info.size ==>
      r.1 == info.(content := objectPadding(ParseObjectKind(info.contentType), info.size, ParseTargetSize(info.query)),
                   size := |objectPadding(ParseObjectKind(info.contentType), info.size, ParseTargetSize(info.query))|)
  {
    var kind := ParseObjectKind(info.contentType);
    var target := ParseTargetSize(info.query);
    if target == 0 || target <= info.size then ContentToC([], info)
    else ContentToC(objectPadding(kind, info.size, target), info)
  }

  /** A request carrying the parameter the page wrote (`append_ref`, or a
      padding image's `&i=` suffix) is padded to exactly the size the page
      asked for, unless the object is already that large. */
  lemma MorphObjectHonoursRequest(info: MorphInfo, objectPadding: (ObjectKind, nat, nat) -> seq<byte>,
                                  x: string, t: nat, y: string)
    requires t <= USIZE_MAX && (y == [] || y[0] == '&') && 'a' !in y
    requires info.query == x + PADDING_PARAM + NatToDecimal(t) + y
    ensures info.size < t ==>
      MorphObject(info, objectPadding).1.content == objectPadding(ParseObjectKind(info.contentType), info.size, t)
    ensures t <= info.size ==> MorphObject(info, objectPadding).1.content == []
  {
    TargetSizeRoundTrip(x, t, y);
  }

  // ---------------------------------------------------------------------
  // Padding images

  /** Padding images with the given target sizes, in order. */
  function Fakes(sizes: seq<nat>): (r: seq<Object>)
    ensures |r| == |sizes|
    ensures forall i :: 0 <= i < |sizes| ==> r[i] == FakeImage(sizes[i])
  {
    seq(|sizes|, i requires 0 <= i < |sizes| => FakeImage(sizes[i]))
  }

  /** The loop `for i in 0..count { objects.push(Object::fake_image(sizes[i])) }`:
      it indexes past the end of `sizes`, and panics, when `sizes` is too
      short. */
  method PushFakes(objects: seq<Object>, sizes: seq<nat>, count: nat) returns (r: Outcome<seq<Object>>)
    ensures !r.Err?
    ensures r.Ok? <==> count <= |sizes|
    ensures r.Ok? ==> r.value == objects + Fakes(sizes[..count])
  {
    var acc := objects;
    for i := 0 to count
      invariant i <= |sizes| ==> acc == objects + Fakes(sizes[..i])
      invariant i <= |sizes|
    {
      if i >= |sizes| {
        return Panic("index out of bounds");
      }
      acc := acc + [FakeImage(sizes[i])];
      assert Fakes(sizes[..i + 1]) == Fakes(sizes[..i]) + [FakeImage(sizes[i])];
    }
    return Ok(acc);
  }

  /** `count` padding images of target size 0, the total-size branch's
      placeholders. */
  function Zeros(count: nat): (r: seq<nat>)
    ensures |r| == count && forall i :: 0 <= i < count ==> r[i] == 0
  {
    seq(count, _ => 0)
  }

  // ---------------------------------------------------------------------
  // morph_deterministic

  /** The size an object's deterministic target must reach: its body, plus
      4 bytes for the comment a stylesheet or script is padded with. */
  function DeterministicMinSize(o: Object): nat {
    |o.content| + (if o.kind == CSS || o.kind == JS then 4 else 0)
  }

  function WithDeterministicTarget(o: Object, objSize: nat, getMultiple: (nat, nat) -> nat): Object {
    o.(targetSize := Some(getMultiple(objSize, DeterministicMinSize(o))))
  }

  function DeterministicTargets(objects: seq<Object>, objSize: nat, getMultiple: (nat, nat) -> nat): seq<Object> {
    seq(|objects|, i requires 0 <= i < |objects| => WithDeterministicTarget(objects[i], objSize, getMultiple))
  }

  /** The first loop of `morph_deterministic`: every object's target is the
      multiple of `obj_size` for its minimum size; nothing else changes. */
  method AssignDeterministicTargets(objects: seq<Object>, objSize: nat, getMultiple: (nat, nat) -> nat)
    returns (r: seq<Object>)
    ensures |r| == |objects|
    ensures forall i :: 0 <= i < |objects| ==>
      r[i].targetSize == Some(getMultiple(objSize, DeterministicMinSize(objects[i])))
    ensures forall i :: 0 <= i < |objects| ==> r[i] == objects[i].(targetSize := r[i].targetSize)
    ensures r == DeterministicTargets(objects, objSize, getMultiple)
  {
    r := objects;
    for i := 0 to |objects|
      invariant |r| == |objects|
      invariant forall j :: 0 <= j < i ==> r[j] == WithDeterministicTarget(objects[j], objSize, getMultiple)
      invariant forall j :: i <= j < |objects| ==> r[j] == objects[j]
    {
      r := r[i := WithDeterministicTarget(r[i], objSize, getMultiple)];
    }
  }

  /** The number of objects the deterministic page should have: `obj_num`
      itself when inlining is on, otherwise the multiple of `obj_num` for
      the objects present. */
  function TargetCount(info: MorphInfo, initial: nat, getMultiple: (nat, nat) -> nat): nat {
    if info.objInliningEnabled then info.objNum else getMultiple(info.objNum, initial)
  }

  /** `full_root`: the document root with `$http_host` substituted. */
  function FullRoot(info: MorphInfo): string {
    ReplaceAll(info.root, "$http_host", info.httpHost)
  }

  /** What a morphing routine hands back: the page's target size, the
      object list, the (possibly rewritten) page, and `orig_n`, the number
      of leading objects that keep their element. */
  datatype Morphed = Morphed(htmlTarget: nat, objects: seq<Object>, page: Document, origN: nat)

  /** `morph_deterministic`. With inlining on and more objects than
      `obj_num`, the largest surplus objects are inlined and `orig_n`
      becomes `obj_num`; otherwise `target_count - initial` padding images
      are added with sizes from `get_multiples_in_range` (a count below the
      number of objects underflows, which panics). The page's target is the
      multiple of `obj_size` for the serialized page plus the 7 bytes of the
      padding comment. */
  method MorphDeterministic(doc: Document, objects: seq<Object>, info: MorphInfo, origN: nat,
                            getMultiple: (nat, nat) -> nat,
                            getMultiplesInRange: (nat, nat, nat) -> Outcome<seq<nat>>,
                            serializedLength: Document -> nat, files: Files)
    returns (r: Outcome<Morphed>)
    requires NodesIn(doc, objects)
    ensures var initial := |objects|;
      var count := TargetCount(info, initial, getMultiple);
      var targeted := DeterministicTargets(objects, info.objSize, getMultiple);
      (count < initial && info.objInliningEnabled ==>
        NodesIn(doc, targeted) && InlinedSurplus(r, doc, targeted, initial - count, FullRoot(info), files, count))
    ensures var initial := |objects|;
      var count := TargetCount(info, initial, getMultiple);
      var targeted := DeterministicTargets(objects, info.objSize, getMultiple);
      (count >= initial ==>
        var sizes := getMultiplesInRange(info.objSize, info.maxObjSize, count - initial);
        (r.Err? <==> sizes.Err?) &&
        (r.Ok? <==> sizes.Ok? && count - initial <= |sizes.value|) &&
        (r.Ok? ==> r.value.objects == targeted + Fakes(sizes.value[..count - initial]) &&
                   |r.value.objects| == count && r.value.page == doc && r.value.origN == origN))
    ensures TargetCount(info, |objects|, getMultiple) < |objects| && !info.objInliningEnabled ==> r.Panic?
    ensures r.Ok? ==> r.value.htmlTarget == getMultiple(info.objSize, serializedLength(r.value.page) + 7)
  {
    var initial := |objects|;
    var count := TargetCount(info, initial, getMultiple);
    var objs := AssignDeterministicTargets(objects, info.objSize, getMultiple);
    TargetsKeepNodes(doc, objects, info.objSize, getMultiple);
    if count < initial && info.objInliningEnabled {
      r := InlineDeterministic(doc, objs, initial - count, info, count, getMultiple, serializedLength, files);
      return;
    }
    if count < initial {
      return Panic("attempt to subtract with overflow");
    }
    r := PadDeterministic(doc, objs, count - initial, info, origN, getMultiple, getMultiplesInRange, serializedLength);
  }

  /** The inlining branch of `morph_deterministic`. */
  method InlineDeterministic(doc: Document, objects: seq<Object>, n: nat, info: MorphInfo, count: nat,
                             getMultiple: (nat, nat) -> nat, serializedLength: Document -> nat, files: Files)
    returns (r: Outcome<Morphed>)
    requires NodesIn(doc, objects) && n <= |objects|
    ensures !r.Err?
    ensures InlinedSurplus(r, doc, objects, n, FullRoot(info), files, count)
    ensures r.Ok? ==> r.value.htmlTarget == getMultiple(info.objSize, serializedLength(r.value.page) + 7)
  {
    var inlined := MakeObjectsInlined(doc, objects, FullRoot(info), n, files);
    if !inlined.Ok? {
      return Panic(inlined.msg);
    }
    var page := inlined.value.0;
    return Ok(Morphed(getMultiple(info.objSize, serializedLength(page) + 7), inlined.value.1, page, count));
  }

  /** The result of inlining the surplus: it succeeds exactly when the
      inlining loop does, with the page it rewrote, the objects it did not
      inline, and `orig_n` set to the count. */
  predicate InlinedSurplus(r: Outcome<Morphed>, doc: Document, objects: seq<Object>, n: nat, root: string,
                           files: Files, count: nat)
    requires NodesIn(doc, objects) && n <= |objects|
  {
    (r.Ok? <==> InlinePlan(doc, objects, n, root, files).Ok?) &&
    (r.Ok? ==>
      var plan := InlinePlan(doc, objects, n, root, files).value;
      r.value.objects == DropIndices(objects, plan.1) && r.value.page == plan.0 && r.value.origN == count)
  }

  /** Setting the targets moves no object to another element. */
  lemma TargetsKeepNodes(doc: Document, objects: seq<Object>, objSize: nat, getMultiple: (nat, nat) -> nat)
    requires NodesIn(doc, objects)
    ensures NodesIn(doc, DeterministicTargets(objects, objSize, getMultiple))
  {
    var r := DeterministicTargets(objects, objSize, getMultiple);
    forall k | 0 <= k < |r| ensures r[k].node == objects[k].node { }
  }

  /** The padding branch of `morph_deterministic`: the sizes from
      `get_multiples_in_range`, then `extra` padding images from them; the
      page is unchanged. */
  method PadDeterministic(doc: Document, objects: seq<Object>, extra: nat, info: MorphInfo, origN: nat,
                          getMultiple: (nat, nat) -> nat,
                          getMultiplesInRange: (nat, nat, nat) -> Outcome<seq<nat>>,
                          serializedLength: Document -> nat)
    returns (r: Outcome<Morphed>)
    ensures var sizes := getMultiplesInRange(info.objSize, info.maxObjSize, extra);
      (r.Err? <==> sizes.Err?) &&
      (r.Ok? <==> sizes.Ok? && extra <= |sizes.value|) &&
      (r.Ok? ==> r.value.objects == objects + Fakes(sizes.value[..extra]) &&
                 |r.value.objects| == |objects| + extra && r.value.page == doc && r.value.origN == origN)
    ensures r.Ok? ==> r.value.htmlTarget == getMultiple(info.objSize, serializedLength(r.value.page) + 7)
  {
    var sizes := getMultiplesInRange(info.objSize, info.maxObjSize, extra);
    if sizes.Err? {
      return Err(sizes.msg);
    } else if sizes.Panic? {
      return Panic(sizes.msg);
    }
    var pushed := PushFakes(objects, sizes.value, extra);
    if !pushed.Ok? {
      return Panic(pushed.msg);
    }
    return Ok(Morphed(getMultiple(info.objSize, serializedLength(doc) + 7), pushed.value, doc, origN));
  }

  // ---------------------------------------------------------------------
  // Probabilistic morphing: the minimum page size and the object count

  /** `min_html_size` of `morph_probabilistic`: the serialized page, the 7
      bytes of the padding comment, 23 bytes per reference for its padding
      parameter and 94 per padding image. The object count was drawn at
      least as large as the objects present. */
  function MinHtmlSize(serializedLen: nat, initial: nat, targetObjNum: nat): nat
    requires initial <= targetObjNum
  {
    serializedLen + 7 + 23 * initial + 94 * (targetObjNum - initial)
  }

  /** The same estimate in `morph_probabilistic_with_inl`, with the number of
      padding images (`final_obj_num`): a count below the objects present
      means inlining, with no padding images; otherwise the surplus is
      added as images. */
  function MinHtmlSizeWithInl(serializedLen: nat, initial: nat, targetObjNum: nat): (r: (nat, nat))
    ensures targetObjNum >= initial ==> r == (targetObjNum - initial, MinHtmlSize(serializedLen, initial, targetObjNum))
    ensures targetObjNum < initial ==> r == (targetObjNum, serializedLen + 7 + 23 * initial)
  {
    if targetObjNum < initial then (targetObjNum, serializedLen + 7 + 23 * initial)
    else (targetObjNum - initial, serializedLen + 7 + 23 * initial + 94 * (targetObjNum - initial))
  }

  function Pow10(k: nat): (r: nat)
    ensures r >= 1
  {
    if k == 0 then 1 else 10 * Pow10(k - 1)
  }

  lemma {:induction false} DecimalLength(n: nat, k: nat)
    requires k >= 1 && n < Pow10(k)
    ensures |NatToDecimal(n)| <= k
  {
    if n >= 10 {
      DecimalLength(n / 10, k - 1);
    }
  }

  /** The 23 bytes the estimate reserves per reference are what `append_ref`
      adds for a target below 10,000,000: the separator, the 15 bytes of
      the parameter name and at most 7 digits. */
  lemma ReferenceAllowance(uri: string, target: nat)
    ensures |PaddedLink(uri, target)| == |uri| + 16 + |NatToDecimal(target)|
    ensures target < 10000000 ==> |PaddedLink(uri, target)| <= |uri| + 23
  {
    if target < 10000000 {
      assert Pow10(7) == 10000000;
      DecimalLength(target, 7);
    }
  }

  /** The bytes the padding parameters add to the references, one
      target each: by `ReferenceAllowance`, `16` and the target's digits. */
  function LinkGrowth(targets: seq<nat>): nat
    decreases |targets|
  {
    if |targets| == 0 then 0
    else LinkGrowth(targets[..|targets| - 1]) + 16 + |NatToDecimal(Last(targets))|
  }

  /** Targets of at most seven digits add at most 23 bytes per reference. */
  lemma {:induction false} LinkGrowthBound(targets: seq<nat>)
    requires forall k :: 0 <= k < |targets| ==> targets[k] < 10000000
    ensures LinkGrowth(targets) <= 23 * |targets|
    decreases |targets|
  {
    if |targets| > 0 {
      var pre := targets[..|targets| - 1];
      assert forall k :: 0 <= k < |pre| ==> pre[k] == targets[k];
      LinkGrowthBound(pre);
      assert Pow10(7) == 10000000;
      DecimalLength(Last(targets), 7);
    }
  }

  /** `min_html_size` leaves room for the serialized page, the padding
      comment, the padding parameter of every reference whose target has at
      most seven digits, and 94 bytes per padding image. */
  lemma MinHtmlSizeCoversLinks(serializedLen: nat, targets: seq<nat>, targetObjNum: nat)
    requires |targets| <= targetObjNum
    requires forall k :: 0 <= k < |targets| ==> targets[k] < 10000000
    ensures serializedLen + 7 + LinkGrowth(targets) + 94 * (targetObjNum - |targets|)
            <= MinHtmlSize(serializedLen, |targets|, targetObjNum)
  {
    LinkGrowthBound(targets);
  }

  /** `morph_probabilistic` raises a drawn object count of 0 to 1 when it
      drew a total object size to spread. */
  function RaiseObjNum(targetObjSize: nat, targetObjNum: nat): (n: nat)
    ensures n >= targetObjNum && n <= targetObjNum + 1
    ensures n == 0 <==> targetObjNum == 0 && targetObjSize == 0
    ensures n != targetObjNum ==> targetObjNum == 0 && targetObjSize > 0
  {
    if targetObjSize > 0 && targetObjNum == 0 then 1 else targetObjNum
  }

  // ---------------------------------------------------------------------
  // The total-size split

  function Sum(s: seq<nat>): nat
    decreases |s|
  {
    if |s| == 0 then 0 else Sum(s[..|s| - 1]) + Last(s)
  }

  /** The split loop after `k` objects: the pads so far and what is left
      to split. At position `pos` the pad is the rest divided by
      `target_obj_num - pos`; a position at or past `target_obj_num`
      divides by zero or underflows, and panics. */
  function SplitState(toSplit: nat, targetNum: nat, k: nat): (r: Outcome<(seq<nat>, nat)>)
    ensures !r.Err?
    ensures r.Ok? <==> k <= targetNum
    ensures r.Ok? ==> |r.value.0| == k && Sum(r.value.0) + r.value.1 == toSplit
    decreases k
  {
    if k == 0 then Ok(([], toSplit))
    else
      match SplitState(toSplit, targetNum, k - 1)
      case Ok((pads, rest)) =>
        if targetNum < k then Panic("attempt to divide by zero or subtract with overflow")
        else
          var pad: nat := rest / (targetNum - (k - 1));
          DivAtMost(rest, targetNum - (k - 1));
          var left: nat := rest - pad;
          assert (pads + [pad])[..|pads|] == pads;
          Ok((pads + [pad], left))
      case Panic(m) => Panic(m)
  }

  lemma DivAtMost(a: nat, d: nat)
    requires d >= 1
    ensures a / d <= a
  {
    assert a == (a / d) * d + a % d;
    MulMono(1, d, a / d);
    assert 1 * (a / d) <= d * (a / d);
  }

  /** One step of the split, as the loop takes it. */
  lemma SplitStep(toSplit: nat, targetNum: nat, k: nat)
    requires k < targetNum
    ensures var st := SplitState(toSplit, targetNum, k).value;
      var pad := st.1 / (targetNum - k);
      pad <= st.1 && SplitState(toSplit, targetNum, k + 1) == Ok((st.0 + [pad], st.1 - pad))
  {
    var st := SplitState(toSplit, targetNum, k).value;
    DivAtMost(st.1, targetNum - k);
  }

  /** Over exactly `target_obj_num` objects the whole surplus is handed
      out: the last divisor is 1. */
  lemma SplitExhausts(toSplit: nat, targetNum: nat)
    requires targetNum >= 1
    ensures SplitState(toSplit, targetNum, targetNum).value.1 == 0
    ensures Sum(SplitState(toSplit, targetNum, targetNum).value.0) == toSplit
  {
    var prev := SplitState(toSplit, targetNum, targetNum - 1);
    assert prev.Ok?;
  }

  /** One step of the split keeps the rest within the even share. */
  lemma ShareStep(rest: nat, m: nat, q: nat, m1: nat)
    requires m >= 1 && m1 == m - 1 && q * m <= rest <= (q + 1) * m
    ensures q <= rest / m <= q + 1
    ensures q * m1 <= rest - rest / m <= (q + 1) * m1
  {
    var p := rest / m;
    DivBounds(rest, m);
    assert (p + 1) * m == p * m + m && (q + 1) * m == q * m + m && (q + 2) * m == (q + 1) * m + m;
    assert q < p + 1 by {
      LessMul(q, p + 1, m);
    }
    assert p < q + 2 by {
      LessMul(p, q + 2, m);
    }
    assert q * m1 == q * m - q && (q + 1) * m1 == (q + 1) * m - (q + 1);
  }

  /** The quotient brackets the dividend. */
  lemma DivBounds(a: nat, d: nat)
    requires d >= 1
    ensures (a / d) * d <= a < (a / d + 1) * d
  {
    assert a == (a / d) * d + a % d;
    assert (a / d + 1) * d == (a / d) * d + d;
  }

  /** `a * m < b * m` with `m` positive means `a < b`. */
  lemma LessMul(a: nat, b: nat, m: nat)
    requires m >= 1 && a * m < b * m
    ensures a < b
  {
    if a >= b {
      MulMono(b, a, m);
    }
  }

  lemma {:induction false} MulMono(a: nat, b: nat, m: nat)
    requires a <= b
    ensures a * m <= b * m
    decreases m
  {
    if m > 0 {
      MulMono(a, b, m - 1);
      assert a * m == a * (m - 1) + a && b * m == b * (m - 1) + b;
    }
  }

  /** The split is equal up to rounding: every pad is `q` or `q + 1`, `q`
      being the surplus divided by the object count, and the rest after `k`
      objects stays between `q` and `q + 1` times the objects still to go. */
  lemma SplitEven(toSplit: nat, targetNum: nat, k: nat)
    requires 1 <= targetNum && k <= targetNum
    ensures toSplit / targetNum * (targetNum - k) <= SplitState(toSplit, targetNum, k).value.1
    ensures SplitState(toSplit, targetNum, k).value.1 <= (toSplit / targetNum + 1) * (targetNum - k)
    ensures forall i :: 0 <= i < k ==> toSplit / targetNum <= SplitState(toSplit, targetNum, k).value.0[i]
    ensures forall i :: 0 <= i < k ==> SplitState(toSplit, targetNum, k).value.0[i] <= toSplit / targetNum + 1
  {
    SplitEvenBy(toSplit, targetNum, k, toSplit / targetNum);
  }

  /** `SplitEven` with the quotient named. */
  lemma {:induction false} SplitEvenBy(toSplit: nat, targetNum: nat, k: nat, q: nat)
    requires 1 <= targetNum && k <= targetNum && q == toSplit / targetNum
    ensures q * (targetNum - k) <= SplitState(toSplit, targetNum, k).value.1 <= (q + 1) * (targetNum - k)
    ensures forall i :: 0 <= i < k ==> q <= SplitState(toSplit, targetNum, k).value.0[i] <= q + 1
    decreases k
  {
    if k == 0 {
      DivBounds(toSplit, targetNum);
      assert SplitState(toSplit, targetNum, 0) == Ok(([], toSplit));
      assert targetNum - k == targetNum;
    } else {
      SplitEvenBy(toSplit, targetNum, k - 1, q);
      var prev := SplitState(toSplit, targetNum, k - 1).value;
      SplitEvenStep(toSplit, targetNum, k, q, prev.0, prev.1);
    }
  }

  /** The step of `SplitEven`, on the state before it. */
  lemma SplitEvenStep(toSplit: nat, targetNum: nat, k: nat, q: nat, pads: seq<nat>, rest: nat)
    requires 1 <= k <= targetNum && q == toSplit / targetNum
    requires SplitState(toSplit, targetNum, k - 1) == Ok((pads, rest))
    requires q * (targetNum - (k - 1)) <= rest <= (q + 1) * (targetNum - (k - 1))
    requires forall i :: 0 <= i < k - 1 ==> q <= pads[i] <= q + 1
    ensures q * (targetNum - k) <= SplitState(toSplit, targetNum, k).value.1 <= (q + 1) * (targetNum - k)
    ensures forall i :: 0 <= i < k ==> q <= SplitState(toSplit, targetNum, k).value.0[i] <= q + 1
  {
    var m := targetNum - (k - 1);
    ShareStep(rest, m, q, targetNum - k);
    SplitStep(toSplit, targetNum, k - 1);
    var st := SplitState(toSplit, targetNum, k).value;
    assert st.1 == rest - rest / m && st.0 == pads + [rest / m];
    forall i | 0 <= i < k ensures q <= st.0[i] <= q + 1 {
      if i < k - 1 {
        assert st.0[i] == pads[i];
      }
    }
  }

  /** The minimum all objects need: body plus minimum padding each. */
  function MinObjSize(objects: seq<Object>, minPad: Object -> nat): nat
    decreases |objects|
  {
    if |objects| == 0 then 0
    else MinObjSize(objects[..|objects| - 1], minPad) + |Last(objects).content| + minPad(Last(objects))
  }

  /** An object's target in the total-size branch: its minimum plus its pad. */
  function WithPad(o: Object, minPad: Object -> nat, pad: nat): Object {
    o.(targetSize := Some(|o.content| + minPad(o) + pad))
  }

  /** The objects after the split: each one's minimum plus its pad. */
  function SplitOver(objects: seq<Object>, targetNum: nat, toSplit: nat, minPad: Object -> nat): (r: seq<Object>)
    requires |objects| <= targetNum
    ensures |r| == |objects|
    ensures forall i :: 0 <= i < |objects| ==>
      r[i] == WithPad(objects[i], minPad, SplitState(toSplit, targetNum, |objects|).value.0[i])
  {
    seq(|objects|, i requires 0 <= i < |objects| =>
      WithPad(objects[i], minPad, SplitState(toSplit, targetNum, |objects|).value.0[i]))
  }

  /** The split loop of the total-size branch: the object at `pos` gets as
      target its minimum plus its pad, in list order. */
  method SplitTotalSize(objects: seq<Object>, targetNum: nat, toSplit: nat, minPad: Object -> nat)
    returns (r: Outcome<seq<Object>>)
    ensures !r.Err?
    ensures r.Ok? <==> |objects| <= targetNum
    ensures r.Ok? ==> r.value == SplitOver(objects, targetNum, toSplit, minPad)
  {
    var rest := toSplit;
    ghost var pads: seq<nat> := [];
    var out: seq<Object> := [];
    for pos := 0 to |objects|
      invariant SplitState(toSplit, targetNum, pos) == Ok((pads, rest))
      invariant |out| == pos && |pads| == pos
      invariant forall i :: 0 <= i < pos ==> out[i] == WithPad(objects[i], minPad, pads[i])
    {
      if targetNum <= pos {
        return Panic("attempt to divide by zero or subtract with overflow");
      }
      SplitStep(toSplit, targetNum, pos);
      var pad: nat := rest / (targetNum - pos);
      out := out + [WithPad(objects[pos], minPad, pad)];
      pads := pads + [pad];
      rest := rest - pad;
    }
    assert out == SplitOver(objects, targetNum, toSplit, minPad);
    return Ok(out);
  }

  /** The total-size branch of `morph_probabilistic`: the count is raised
      to 1 when there is size to spread and no object, that many padding
      images of size 0 join the objects, and the surplus over the objects'
      minimum is split over all of them. The drawn count is at least the
      number of objects and the drawn total at least their minimum (the
      samplers' lower bounds). Nothing of the surplus is lost. */
  method MorphProbabilisticTotal(objects: seq<Object>, targetObjNum: nat, targetObjSize: nat, minPad: Object -> nat)
    returns (r: Outcome<(nat, seq<Object>)>)
    requires |objects| <= targetObjNum && MinObjSize(objects, minPad) <= targetObjSize
    ensures r.Ok?
    ensures var n := RaiseObjNum(targetObjSize, targetObjNum);
      var toSplit := targetObjSize - MinObjSize(objects, minPad);
      r.value == (n, SplitOver(objects + Fakes(Zeros(n - |objects|)), n, toSplit, minPad))
  {
    var n := RaiseObjNum(targetObjSize, targetObjNum);
    var toSplit := targetObjSize - MinObjSize(objects, minPad);
    var withFakes := PushFakes(objects, Zeros(n - |objects|), n - |objects|);
    assert Zeros(n - |objects|)[..n - |objects|] == Zeros(n - |objects|);
    var split := SplitTotalSize(withFakes.value, n, toSplit, minPad);
    return Ok((n, split.value));
  }

  /** In `morph_probabilistic` the split hands out the whole surplus:
      the count is raised to 1 whenever there is anything to spread. */
  lemma TotalSplitLosesNothing(objects: seq<Object>, targetObjNum: nat, targetObjSize: nat, minPad: Object -> nat)
    requires |objects| <= targetObjNum && MinObjSize(objects, minPad) <= targetObjSize
    ensures var n := RaiseObjNum(targetObjSize, targetObjNum);
      Sum(SplitState(targetObjSize - MinObjSize(objects, minPad), n, n).value.0) == targetObjSize - MinObjSize(objects, minPad)
  {
    var n := RaiseObjNum(targetObjSize, targetObjNum);
    if n >= 1 {
      SplitExhausts(targetObjSize - MinObjSize(objects, minPad), n);
    } else {
      assert objects == [];
    }
  }

  /** Inlining records at most one index per examined object. */
  lemma RecordedAtMostExamined(doc: Document, objects: seq<Object>, n: nat, root: string, files: Files)
    requires NodesIn(doc, objects) && n <= |objects| && InlinePlan(doc, objects, n, root, files).Ok?
    ensures |InlinePlan(doc, objects, n, root, files).value.1| <= n
  {
    DropLength(objects[..n], InlinePlan(doc, objects, n, root, files).value.1);
  }

  /** The step both branches of `morph_probabilistic_with_inl` share: a
      count below the objects present inlines the surplus and makes the
      count `orig_n`; otherwise padding images with the given sizes make
      up the count. */
  method ReachCount(doc: Document, objects: seq<Object>, targetObjNum: nat, sizes: seq<nat>, root: string, files: Files)
    returns (r: Outcome<(seq<Object>, Document, Option<nat>)>)
    requires NodesIn(doc, objects)
    requires targetObjNum >= |objects| ==> targetObjNum - |objects| <= |sizes|
    ensures !r.Err?
    ensures targetObjNum >= |objects| ==>
      r == Ok((objects + Fakes(sizes[..targetObjNum - |objects|]), doc, None))
    ensures targetObjNum < |objects| ==>
      var plan := InlinePlan(doc, objects, |objects| - targetObjNum, root, files);
      (r.Ok? <==> plan.Ok?) &&
      (r.Ok? ==> r.value == (DropIndices(objects, plan.value.1), plan.value.0, Some(targetObjNum)))
  {
    if targetObjNum < |objects| {
      var inlined := MakeObjectsInlined(doc, objects, root, |objects| - targetObjNum, files);
      if !inlined.Ok? {
        return Panic(inlined.msg);
      }
      return Ok((inlined.value.1, inlined.value.0, Some(targetObjNum)));
    }
    var pushed := PushFakes(objects, sizes, targetObjNum - |objects|);
    return Ok((pushed.value, doc, None));
  }

  /** The total-size branch of `morph_probabilistic_with_inl`. A drawn count
      below the objects present inlines the surplus and makes it `orig_n`;
      otherwise padding images of size 0 make up the count. The count is
      not raised here. The split then divides by the drawn count, so it
      panics unless inlining removed every examined object. */
  method MorphProbabilisticWithInlTotal(doc: Document, objects: seq<Object>, targetObjNum: nat, targetObjSize: nat,
                                        minPad: Object -> nat, root: string, files: Files)
    returns (r: Outcome<(seq<Object>, Document, Option<nat>)>)
    requires NodesIn(doc, objects) && MinObjSize(objects, minPad) <= targetObjSize
    ensures !r.Err?
    ensures targetObjNum >= |objects| ==>
      r == Ok((SplitOver(objects + Fakes(Zeros(targetObjNum - |objects|)), targetObjNum,
                         targetObjSize - MinObjSize(objects, minPad), minPad), doc, None))
    ensures targetObjNum < |objects| ==>
      var plan := InlinePlan(doc, objects, |objects| - targetObjNum, root, files);
      (r.Ok? <==> plan.Ok? && |plan.value.1| == |objects| - targetObjNum) &&
      (r.Ok? ==> |DropIndices(objects, plan.value.1)| == targetObjNum &&
                 r == Ok((SplitOver(DropIndices(objects, plan.value.1), targetObjNum,
                                    targetObjSize - MinObjSize(objects, minPad), minPad),
                          plan.value.0, Some(targetObjNum))))
  {
    var initial := |objects|;
    var toSplit := targetObjSize - MinObjSize(objects, minPad);
    var reached := ReachCount(doc, objects, targetObjNum, Zeros(if targetObjNum < initial then 0 else targetObjNum - initial), root, files);
    if !reached.Ok? {
      return Panic(reached.msg);
    }
    var (objs, page, origN) := reached.value;
    if targetObjNum < initial {
      InlinedRemoval(doc, objects, root, initial - targetObjNum, files);
      RecordedAtMostExamined(doc, objects, initial - targetObjNum, root, files);
    } else {
      assert Zeros(targetObjNum - initial)[..targetObjNum - initial] == Zeros(targetObjNum - initial);
    }
    var split := SplitTotalSize(objs, targetObjNum, toSplit, minPad);
    if !split.Ok? {
      return Panic(split.msg);
    }
    return Ok((split.value, page, origN));
  }

  // ---------------------------------------------------------------------
  // The per-object branch

  predicate Ascending(s: seq<nat>) {
    forall i, j :: 0 <= i < j < |s| ==> s[i] <= s[j]
  }

  function InsertAscending(x: nat, s: seq<nat>): (r: seq<nat>)
    requires Ascending(s)
    ensures |r| == |s| + 1 && Ascending(r) && multiset(r) == multiset(s) + multiset{x}
    ensures r[0] == x || (|s| > 0 && r[0] == s[0])
    decreases |s|
  {
    if |s| == 0 then [x]
    else if x <= s[0] then
      ConsAscending(x, s);
      [x] + s
    else
      var rest := InsertAscending(x, s[1..]);
      assert s == [s[0]] + s[1..];
      ConsAscending(s[0], rest);
      [s[0]] + rest
  }

  /** A value no larger than the head of an ascending list may go before it. */
  lemma ConsAscending(x: nat, s: seq<nat>)
    requires Ascending(s) && (|s| > 0 ==> x <= s[0])
    ensures Ascending([x] + s)
  {
    var r := [x] + s;
    forall i, j | 0 <= i < j < |r| ensures r[i] <= r[j] {
      if i == 0 {
        assert r[j] == s[j - 1];
        if j > 1 {
          assert s[0] <= s[j - 1];
        }
      } else {
        assert r[i] == s[i - 1] && r[j] == s[j - 1];
      }
    }
  }

  /** `sort_unstable` on the drawn sizes: ascending, the same values. */
  function SortAscending(s: seq<nat>): (r: seq<nat>)
    ensures |r| == |s| && Ascending(r) && multiset(r) == multiset(s)
    decreases |s|
  {
    if |s| == 0 then []
    else
      var init := s[..|s| - 1];
      assert s == init + [Last(s)];
      InsertAscending(Last(s), SortAscending(init))
  }

  /** The size an existing object's target must reach. */
  function Needed(o: Object, minPad: Object -> nat): nat {
    |o.content| + minPad(o)
  }

  /** The per-object loop: each object takes the largest remaining drawn
      size when that is enough, and otherwise a fresh draw at least its
      need (None when that draw fails). Indexing the last size of an
      empty list panics. */
  function PadExisting(objects: seq<Object>, sorted: seq<nat>, minPad: Object -> nat,
                       sampleGe: nat -> Option<nat>): (r: Outcome<(seq<Object>, seq<nat>)>)
    ensures !r.Err?
    ensures |sorted| >= |objects| ==> r.Ok?
    ensures r.Ok? ==> |r.value.0| == |objects|
    ensures r.Ok? ==> |r.value.1| <= |sorted| && r.value.1 == sorted[..|r.value.1|]
    ensures r.Ok? ==> |r.value.1| + |objects| >= |sorted|
    ensures r.Ok? ==> forall i :: 0 <= i < |objects| ==>
      r.value.0[i] == objects[i].(targetSize := r.value.0[i].targetSize)
    decreases |objects|
  {
    if |objects| == 0 then Ok(([], sorted))
    else
      match PadExisting(objects[..|objects| - 1], sorted, minPad, sampleGe)
      case Ok((done, sizes)) =>
        var o := Last(objects);
        var needed := Needed(o, minPad);
        if |sizes| == 0 then Panic("attempt to subtract with overflow")
        else if Last(sizes) >= needed then
          assert sizes[..|sizes| - 1] == sorted[..|sizes| - 1];
          Ok((done + [o.(targetSize := Some(Last(sizes)))], sizes[..|sizes| - 1]))
        else Ok((done + [o.(targetSize := sampleGe(needed))], sizes))
      case Panic(m) => Panic(m)
  }

  /** With a sampler that honours its lower bound, every target an object
      gets covers its need. */
  lemma {:induction false} PadExistingMeetsNeed(objects: seq<Object>, sorted: seq<nat>, minPad: Object -> nat,
                                                sampleGe: nat -> Option<nat>)
    requires forall b :: sampleGe(b).Some? ==> sampleGe(b).value >= b
    requires PadExisting(objects, sorted, minPad, sampleGe).Ok?
    ensures forall i :: 0 <= i < |objects| && PadExisting(objects, sorted, minPad, sampleGe).value.0[i].targetSize.Some? ==>
              PadExisting(objects, sorted, minPad, sampleGe).value.0[i].targetSize.value >= Needed(objects[i], minPad)
    decreases |objects|
  {
    if |objects| > 0 {
      var init := objects[..|objects| - 1];
      PadExistingMeetsNeed(init, sorted, minPad, sampleGe);
      forall i | 0 <= i < |objects| - 1 ensures objects[i] == init[i] { }
    }
  }

  lemma {:induction false} PadPanicSpreads(objects: seq<Object>, k: nat, sorted: seq<nat>, minPad: Object -> nat,
                                           sampleGe: nat -> Option<nat>)
    requires k <= |objects| && PadExisting(objects[..k], sorted, minPad, sampleGe).Panic?
    ensures PadExisting(objects, sorted, minPad, sampleGe) == PadExisting(objects[..k], sorted, minPad, sampleGe)
    decreases |objects| - k
  {
    if k < |objects| {
      assert objects[..k + 1][..k] == objects[..k];
      PadPanicSpreads(objects, k + 1, sorted, minPad, sampleGe);
    } else {
      assert objects[..k] == objects;
    }
  }

  /** The loop `for obj in &mut *objects { ... }` of the per-object branch,
      returning the objects and the sizes left over. */
  method PadExistingObjects(objects: seq<Object>, sorted: seq<nat>, minPad: Object -> nat,
                            sampleGe: nat -> Option<nat>)
    returns (r: Outcome<(seq<Object>, seq<nat>)>)
    ensures r == PadExisting(objects, sorted, minPad, sampleGe)
  {
    var done: seq<Object> := [];
    var sizes := sorted;
    for k := 0 to |objects|
      invariant PadExisting(objects[..k], sorted, minPad, sampleGe) == Ok((done, sizes))
    {
      var o := objects[k];
      var needed := |o.content| + minPad(o);
      PadUnfold(objects, k, sorted, minPad, sampleGe, done, sizes);
      if |sizes| == 0 {
        PadPanicSpreads(objects, k + 1, sorted, minPad, sampleGe);
        return Panic("attempt to subtract with overflow");
      }
      if sizes[|sizes| - 1] >= needed {
        done := done + [o.(targetSize := Some(sizes[|sizes| - 1]))];
        sizes := sizes[..|sizes| - 1];
      } else {
        done := done + [o.(targetSize := sampleGe(needed))];
      }
    }
    assert objects[..|objects|] == objects;
    return Ok((done, sizes));
  }

  /** One step of the loop, from the state before it. */
  lemma PadUnfold(objects: seq<Object>, k: nat, sorted: seq<nat>, minPad: Object -> nat,
                  sampleGe: nat -> Option<nat>, done: seq<Object>, sizes: seq<nat>)
    requires k < |objects| && PadExisting(objects[..k], sorted, minPad, sampleGe) == Ok((done, sizes))
    ensures var o := objects[k];
      var needed := |o.content| + minPad(o);
      PadExisting(objects[..k + 1], sorted, minPad, sampleGe) ==
        (if |sizes| == 0 then Panic("attempt to subtract with overflow")
         else if sizes[|sizes| - 1] >= needed then Ok((done + [o.(targetSize := Some(sizes[|sizes| - 1]))], sizes[..|sizes| - 1]))
         else Ok((done + [o.(targetSize := sampleGe(needed))], sizes)))
  {
    assert objects[..k + 1][..k] == objects[..k];
    assert Last(objects[..k + 1]) == objects[k];
  }

  /** Setting targets moves no object to another element. */
  lemma PadKeepsNodes(doc: Document, objects: seq<Object>, sorted: seq<nat>, minPad: Object -> nat,
                      sampleGe: nat -> Option<nat>)
    requires NodesIn(doc, objects) && PadExisting(objects, sorted, minPad, sampleGe).Ok?
    ensures NodesIn(doc, PadExisting(objects, sorted, minPad, sampleGe).value.0)
  {
    var objs := PadExisting(objects, sorted, minPad, sampleGe).value.0;
    forall k | 0 <= k < |objs| ensures objs[k].node == objects[k].node { }
  }

  /** The per-object branch of `morph_probabilistic`: the drawn sizes (as
      many as the drawn count, which is at least the number of objects) are
      sorted, the objects take from the largest, and the padding images take
      the smallest. It never panics. */
  method MorphProbabilisticPerObject(objects: seq<Object>, targetObjNum: nat, sampled: seq<nat>,
                                     minPad: Object -> nat, sampleGe: nat -> Option<nat>)
    returns (r: Outcome<seq<Object>>)
    requires |objects| <= targetObjNum && |sampled| == targetObjNum
    ensures r.Ok? && |r.value| == targetObjNum
    ensures var sorted := SortAscending(sampled);
      r.value == PadExisting(objects, sorted, minPad, sampleGe).value.0 + Fakes(sorted[..targetObjNum - |objects|])
  {
    var sorted := SortAscending(sampled);
    var padded := PadExistingObjects(objects, sorted, minPad, sampleGe);
    var rest := padded.value.1;
    assert rest[..targetObjNum - |objects|] == sorted[..targetObjNum - |objects|];
    var pushed := PushFakes(padded.value.0, rest, targetObjNum - |objects|);
    return Ok(pushed.value);
  }

  /** The per-object branch of `morph_probabilistic_with_inl`: as many
      sizes are drawn as the larger of the count and the objects present.
      A count below the objects present inlines the surplus (after the
      targets are set) and makes it `orig_n`; otherwise the padding images
      take the smallest sizes. */
  method MorphProbabilisticWithInlPerObject(doc: Document, objects: seq<Object>, targetObjNum: nat, sampled: seq<nat>,
                                            minPad: Object -> nat, sampleGe: nat -> Option<nat>,
                                            root: string, files: Files)
    returns (r: Outcome<(seq<Object>, Document, Option<nat>)>)
    requires NodesIn(doc, objects)
    requires |sampled| == (if targetObjNum < |objects| then |objects| else targetObjNum)
    ensures !r.Err?
    ensures var sorted := SortAscending(sampled);
      var padded := PadExisting(objects, sorted, minPad, sampleGe).value.0;
      targetObjNum >= |objects| ==>
        r == Ok((padded + Fakes(sorted[..targetObjNum - |objects|]), doc, None))
    ensures var padded := PadExisting(objects, SortAscending(sampled), minPad, sampleGe).value.0;
      targetObjNum < |objects| ==>
        var plan := InlinePlan(doc, padded, |objects| - targetObjNum, root, files);
        (r.Ok? <==> plan.Ok?) &&
        (r.Ok? ==> r.value == (DropIndices(padded, plan.value.1), plan.value.0, Some(targetObjNum)))
  {
    var sorted := SortAscending(sampled);
    SizesLeftForFakes(objects, sorted, targetObjNum, minPad, sampleGe);
    var padded := PadExistingObjects(objects, sorted, minPad, sampleGe);
    PadKeepsNodes(doc, objects, sorted, minPad, sampleGe);
    var objs := padded.value.0;
    r := ReachCount(doc, objs, targetObjNum, padded.value.1, root, files);
    InlineBranchOnPadded(doc, objects, targetObjNum, root, files,
                         PadExisting(objects, SortAscending(sampled), minPad, sampleGe).value.0, objs, r);
  }

  /** The inlining branch of the per-object morph, stated of the padded
      objects `padded` as `ReachCount` sees them (`objs`). */
  lemma InlineBranchOnPadded(doc: Document, objects: seq<Object>, targetObjNum: nat, root: string, files: Files,
                             padded: seq<Object>, objs: seq<Object>, r: Outcome<(seq<Object>, Document, Option<nat>)>)
    requires objs == padded && NodesIn(doc, objs) && |objs| == |objects|
    requires targetObjNum < |objs| ==>
      var plan := InlinePlan(doc, objs, |objs| - targetObjNum, root, files);
      (r.Ok? <==> plan.Ok?) &&
      (r.Ok? ==> r.value == (DropIndices(objs, plan.value.1), plan.value.0, Some(targetObjNum)))
    ensures targetObjNum < |objects| ==>
      var plan := InlinePlan(doc, padded, |objects| - targetObjNum, root, files);
      (r.Ok? <==> plan.Ok?) &&
      (r.Ok? ==> r.value == (DropIndices(padded, plan.value.1), plan.value.0, Some(targetObjNum)))
  {
  }


  /** With as many sizes as the larger of the count and the objects
      present, the sizes left once the objects are padded begin with those
      the padding images take. */
  lemma SizesLeftForFakes(objects: seq<Object>, sorted: seq<nat>, targetObjNum: nat,
                          minPad: Object -> nat, sampleGe: nat -> Option<nat>)
    requires |sorted| == (if targetObjNum < |objects| then |objects| else targetObjNum)
    ensures PadExisting(objects, sorted, minPad, sampleGe).Ok?
    ensures var rest := PadExisting(objects, sorted, minPad, sampleGe).value.1;
      targetObjNum >= |objects| ==>
        targetObjNum - |objects| <= |rest| && rest[..targetObjNum - |objects|] == sorted[..targetObjNum - |objects|]
  {
    var rest := PadExisting(objects, sorted, minPad, sampleGe).value.1;
    if targetObjNum >= |objects| {
      assert |rest| + |objects| >= |sorted| && rest == sorted[..|rest|];
      assert rest[..targetObjNum - |objects|] == sorted[..targetObjNum - |objects|];
    }
  }

}
