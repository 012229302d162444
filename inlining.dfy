/** Object inlining (`libalpaca/src/inlining.rs`): replacing the references
    of some objects by `data:` URIs and dropping those objects from the list,
    and the CSS inlining entry point the C module calls. */
module Inlining {
  import opened Base
  import opened Strings
  import opened Utf8
  import opened Dom
  import opened Parse
  import opened Utils

  /** The server's files as the library sees them: a read of a path (None
      when it fails) and the base64 encoder. */
  datatype Files = Files(read: string -> Option<seq<byte>>, base64: seq<byte> -> string)

  // ---------------------------------------------------------------------
  // Index bookkeeping

  /** `s` without the elements whose positions occur in `out`, in order. */
  function DropIndices<T>(s: seq<T>, out: seq<nat>): (r: seq<T>)
    ensures |r| <= |s|
    decreases |s|
  {
    if |s| == 0 then []
    else DropIndices(s[..|s| - 1], out) + (if |s| - 1 in out then [] else [Last(s)])
  }

  predicate Increasing(idx: seq<nat>) {
    forall a, b :: 0 <= a < b < |idx| ==> idx[a] < idx[b]
  }

  /** `Vec::remove`. */
  function RemoveAt<T>(s: seq<T>, i: nat): (r: seq<T>)
    requires i < |s|
    ensures |r| == |s| - 1
  {
    s[..i] + s[i + 1..]
  }

  lemma {:induction false} DropNothing<T>(s: seq<T>)
    ensures DropIndices(s, []) == s
    decreases |s|
  {
    if |s| > 0 {
      DropNothing(s[..|s| - 1]);
    }
  }

  /** Positions past the dropped ones are kept as they are. */
  lemma {:induction false} DropKeepsTail<T>(a: seq<T>, b: seq<T>, out: seq<nat>)
    requires forall t :: 0 <= t < |out| ==> out[t] < |a|
    ensures DropIndices(a + b, out) == DropIndices(a, out) + b
    decreases |b|
  {
    if |b| == 0 {
      assert a + b == a;
    } else {
      var pre := b[..|b| - 1];
      assert (a + b)[..|a + b| - 1] == a + pre;
      DropKeepsTail(a, pre, out);
    }
  }

  /** Lists of positions that agree below `|s|` drop the same elements. */
  lemma {:induction false} DropSameBelow<T>(s: seq<T>, a: seq<nat>, b: seq<nat>)
    requires forall x: nat :: x < |s| ==> (x in a <==> x in b)
    ensures DropIndices(s, a) == DropIndices(s, b)
    decreases |s|
  {
    if |s| > 0 {
      DropSameBelow(s[..|s| - 1], a, b);
    }
  }

  lemma DropLastIn<T>(s: seq<T>, out: seq<nat>)
    requires |s| > 0 && |s| - 1 in out
    ensures DropIndices(s, out) == DropIndices(s[..|s| - 1], out)
  {
  }

  /** Positions recorded before the last one are exactly those of the
      whole list below it. */
  lemma PrefixPositions(idx: seq<nat>)
    requires |idx| > 0 && Increasing(idx)
    ensures forall x: nat :: x < Last(idx) ==> (x in idx <==> x in idx[..|idx| - 1])
    ensures forall t :: 0 <= t < |idx| - 1 ==> idx[t] < Last(idx)
  {
    var pre := idx[..|idx| - 1];
    forall x: nat | x < Last(idx) ensures x in idx <==> x in pre {
      if x in idx {
        var t :| 0 <= t < |idx| && idx[t] == x;
        assert pre[t] == x;
      }
    }
  }

  /** Positions recorded up to `m` leave everything after `m` in place. */
  lemma DropTailFrom<T>(s: seq<T>, idx: seq<nat>, m: nat)
    requires m < |s| && m in idx && forall t :: 0 <= t < |idx| ==> idx[t] <= m
    ensures DropIndices(s, idx) == DropIndices(s[..m], idx) + s[m + 1..]
  {
    var head := s[..m + 1];
    var tail := s[m + 1..];
    assert s == head + tail;
    DropKeepsTail(head, tail, idx);
    assert head[..m] == s[..m];
    DropLastIn(head, idx);
  }

  /** Dropping the recorded positions splits at the last one. */
  lemma DropAtLast<T>(s: seq<T>, idx: seq<nat>)
    requires |idx| > 0 && Increasing(idx) && Last(idx) < |s|
    ensures DropIndices(s, idx) == DropIndices(s[..Last(idx)], idx[..|idx| - 1]) + s[Last(idx) + 1..]
  {
    var m := Last(idx);
    PrefixPositions(idx);
    assert idx[|idx| - 1] == m;
    DropTailFrom(s, idx, m);
    DropSameBelow(s[..m], idx, idx[..|idx| - 1]);
  }

  /** Removing the largest recorded position first leaves the others where
      they were: one `remove` step of the library's loop. */
  lemma RemoveLargestFirst<T>(s: seq<T>, idx: seq<nat>)
    requires |idx| > 0 && Increasing(idx) && Last(idx) < |s|
    ensures DropIndices(s, idx) == DropIndices(RemoveAt(s, Last(idx)), idx[..|idx| - 1])
  {
    var m := Last(idx);
    DropAtLast(s, idx);
    PrefixPositions(idx);
    DropKeepsTail(s[..m], s[m + 1..], idx[..|idx| - 1]);
  }

  /** Dropping `k` distinct positions of `s` leaves `|s| - k` elements. */
  lemma {:induction false} DropLength<T>(s: seq<T>, idx: seq<nat>)
    requires Increasing(idx) && forall t :: 0 <= t < |idx| ==> idx[t] < |s|
    ensures |DropIndices(s, idx)| == |s| - |idx|
    decreases |idx|
  {
    if |idx| > 0 {
      var m := Last(idx);
      var pre := idx[..|idx| - 1];
      RemoveLargestFirst(s, idx);
      forall t | 0 <= t < |pre| ensures pre[t] < |s| - 1 {
        assert pre[t] == idx[t] && idx[t] < m;
      }
      DropLength(RemoveAt(s, m), pre);
    } else {
      DropNothing(s);
    }
  }

  // ---------------------------------------------------------------------
  // make_objects_inlined

  /** The path an examined object is inlined from: its element's attribute
      when accepted, the object's own path for a `<style>`. */
  function InlinePath(doc: Document, o: Object): Option<string>
    requires o.node.Some? && o.node.value < |doc| && RefAttribute(doc[o.node.value].tag).Some?
  {
    var e := doc[o.node.value];
    var attr := RefAttribute(e.tag).value;
    if attr != "style" then AcceptPath(GetAttribute(e, attr)) else Some(o.uri)
  }

  /** One examined object: Ok(None) when it is skipped, Ok(Some(page))
      when it is inlined, with the element now holding the `data:` URI. */
  function InlineOne(doc: Document, o: Object, root: string, files: Files): (r: Outcome<Option<Document>>)
    requires o.node.Some? ==> o.node.value < |doc|
    ensures !r.Err?
    ensures r == Ok(None) <==> (o.node.Some? && RefAttribute(doc[o.node.value].tag).Some? &&
                                InlinePath(doc, o).None?)
    ensures r.Ok? ==> o.node.Some? && RefAttribute(doc[o.node.value].tag).Some?
    ensures r.Ok? && r.value.Some? ==> |r.value.value| == |doc|
    ensures r.Ok? && r.value.Some? ==>
      (forall j :: 0 <= j < |doc| ==> r.value.value[j].tag == doc[j].tag)
    ensures r.Ok? && r.value.Some? ==>
      (forall j :: 0 <= j < |doc| && j != o.node.value ==> r.value.value[j] == doc[j])
    ensures r.Ok? && r.value.Some? && doc[o.node.value].tag != "style" ==>
      AcceptPath(GetAttribute(r.value.value[o.node.value], RefAttribute(doc[o.node.value].tag).value)).None?
  {
    if o.node.None? then Panic("node unwrap on None")
    else
      var i := o.node.value;
      match RefAttribute(doc[i].tag)
      case None => Panic("shouldn't happen")
      case Some(attr) =>
        match InlinePath(doc, o)
        case None => Ok(None)
        case Some(path) =>
          var data := GetImgFormatAndExt(root + "/" + path, o.uri, files.read, files.base64);
          if !data.Ok? then Panic("inlining panicked")
          else if attr != "style" then
            InlinedReferenceSkipped(root + "/" + path, o.uri, files.read, files.base64);
            Ok(Some(SetAttribute(doc, i, attr, data.value)))
          else match doc[i].lastText
            case None => Panic("style element without a text child")
            case Some(text) => Ok(Some(SetLastText(doc, i, ReplaceAll(text, o.uri, data.value))))
  }

  /** None of the first `k` objects points at element `x`. */
  predicate NotPointedAt(objects: seq<Object>, k: nat, x: nat)
    requires k <= |objects|
  {
    forall t :: 0 <= t < k ==> objects[t].node != Some(x)
  }

  /** Object `j` is the only one of the first `k` that points at its element. */
  predicate SoleOwner(objects: seq<Object>, k: nat, j: nat)
    requires j < k <= |objects|
  {
    forall t :: 0 <= t < k && t != j ==> objects[t].node != objects[j].node
  }

  /** The first loop of `make_objects_inlined` over the first `k` objects:
      the rewritten page and the indices recorded so far. */
  function InlinePlan(doc: Document, objects: seq<Object>, k: nat, root: string, files: Files)
    : (r: Outcome<(Document, seq<nat>)>)
    requires NodesIn(doc, objects) && k <= |objects|
    ensures !r.Err?
    ensures r.Ok? ==> |r.value.0| == |doc| && forall j :: 0 <= j < |doc| ==> r.value.0[j].tag == doc[j].tag
    ensures r.Ok? ==> Increasing(r.value.1) && forall t :: 0 <= t < |r.value.1| ==> r.value.1[t] < k
    decreases k
  {
    if k == 0 then Ok((doc, []))
    else
      match InlinePlan(doc, objects, k - 1, root, files)
      case Ok((page, idx)) =>
        var step := InlineOne(page, objects[k - 1], root, files);
        if !step.Ok? then Panic(step.msg)
        else if step.value.None? then Ok((page, idx))
        else Ok((step.value.value, idx + [k - 1]))
      case Panic(m) => Panic(m)
  }

  /** One step of the loop, as the lemmas below use it. */
  lemma PlanStep(doc: Document, objects: seq<Object>, k: nat, root: string, files: Files)
    requires NodesIn(doc, objects) && 0 < k <= |objects| && InlinePlan(doc, objects, k, root, files).Ok?
    ensures InlinePlan(doc, objects, k - 1, root, files).Ok?
    ensures var prev := InlinePlan(doc, objects, k - 1, root, files).value;
      var step := InlineOne(prev.0, objects[k - 1], root, files);
      step.Ok? &&
      InlinePlan(doc, objects, k, root, files).value ==
        (if step.value.None? then prev else (step.value.value, prev.1 + [k - 1]))
  {
  }

  /** Every examined object stands for an element with a rewritable
      attribute; otherwise the loop panics. */
  lemma {:induction false} PlanExaminesRefs(doc: Document, objects: seq<Object>, k: nat, root: string, files: Files)
    requires NodesIn(doc, objects) && k <= |objects| && InlinePlan(doc, objects, k, root, files).Ok?
    ensures forall j :: 0 <= j < k ==> objects[j].node.Some? && RefAttribute(doc[objects[j].node.value].tag).Some?
    decreases k
  {
    if k > 0 {
      PlanIndices(doc, objects, k, root, files);
      PlanExaminesRefs(doc, objects, k - 1, root, files);
      var prev := InlinePlan(doc, objects, k - 1, root, files).value;
      var o := objects[k - 1];
      assert prev.0[o.node.value].tag == doc[o.node.value].tag;
    }
  }

  /** An element no examined object points at is left as it was. */
  lemma {:induction false} PlanUntouched(doc: Document, objects: seq<Object>, k: nat, root: string, files: Files)
    requires NodesIn(doc, objects) && k <= |objects| && InlinePlan(doc, objects, k, root, files).Ok?
    ensures forall x :: 0 <= x < |doc| && NotPointedAt(objects, k, x) ==>
              InlinePlan(doc, objects, k, root, files).value.0[x] == doc[x]
    decreases k
  {
    if k > 0 {
      PlanStep(doc, objects, k, root, files);
      PlanUntouched(doc, objects, k - 1, root, files);
    }
  }

  /** A `<style>` object is never skipped: its path is its own. */
  lemma {:induction false} PlanRecordsStyles(doc: Document, objects: seq<Object>, k: nat, root: string, files: Files)
    requires NodesIn(doc, objects) && k <= |objects| && InlinePlan(doc, objects, k, root, files).Ok?
    ensures forall j :: 0 <= j < k && objects[j].node.Some? && doc[objects[j].node.value].tag == "style" ==>
              j in InlinePlan(doc, objects, k, root, files).value.1
    decreases k
  {
    if k > 0 {
      PlanIndices(doc, objects, k, root, files);
      PlanRecordsStyles(doc, objects, k - 1, root, files);
      var prev := InlinePlan(doc, objects, k - 1, root, files).value;
      var cur := InlinePlan(doc, objects, k, root, files).value;
      var o := objects[k - 1];
      if doc[o.node.value].tag == "style" {
        assert prev.0[o.node.value].tag == "style";
        assert InlinePath(prev.0, o) == Some(o.uri);
        assert k - 1 in cur.1;
      }
      forall j | 0 <= j < k - 1 && objects[j].node.Some? && doc[objects[j].node.value].tag == "style"
        ensures j in cur.1
      {
        assert j in prev.1;
      }
    }
  }

  /** The indices after one step: `k - 1` is added exactly when the object's
      path on the page as rewritten so far is accepted. */
  lemma PlanIndices(doc: Document, objects: seq<Object>, k: nat, root: string, files: Files)
    requires NodesIn(doc, objects) && 0 < k <= |objects| && InlinePlan(doc, objects, k, root, files).Ok?
    ensures InlinePlan(doc, objects, k - 1, root, files).Ok?
    ensures var prev := InlinePlan(doc, objects, k - 1, root, files).value;
      var o := objects[k - 1];
      o.node.Some? && RefAttribute(prev.0[o.node.value].tag).Some? &&
      InlinePlan(doc, objects, k, root, files).value.1 ==
        prev.1 + (if InlinePath(prev.0, o).Some? then [k - 1] else [])
  {
    PlanStep(doc, objects, k, root, files);
  }

  /** For an object that alone stands for its element, the index is recorded
      exactly when the element's attribute (or, for a style, the object's
      path) is accepted; a skipped object is one whose attribute is missing,
      empty or already a `data:` URI. */
  lemma PlanRecordsSoleOwners(doc: Document, objects: seq<Object>, k: nat, root: string, files: Files)
    requires NodesIn(doc, objects) && k <= |objects| && InlinePlan(doc, objects, k, root, files).Ok?
    ensures forall j :: (0 <= j < k && SoleOwner(objects, k, j) && objects[j].node.Some? &&
                         RefAttribute(doc[objects[j].node.value].tag).Some?) ==>
              (j in InlinePlan(doc, objects, k, root, files).value.1 <==> InlinePath(doc, objects[j]).Some?)
  {
    forall j | (0 <= j < k && SoleOwner(objects, k, j) && objects[j].node.Some? &&
                RefAttribute(doc[objects[j].node.value].tag).Some?)
      ensures j in InlinePlan(doc, objects, k, root, files).value.1 <==> InlinePath(doc, objects[j]).Some?
    {
      RecordSole(doc, objects, k, root, files, j);
    }
  }

  /** The same for one object: whether `j` is recorded is settled once it
      has been examined. */
  lemma RecordSole(doc: Document, objects: seq<Object>, k: nat, root: string, files: Files, j: nat)
    requires NodesIn(doc, objects) && k <= |objects| && InlinePlan(doc, objects, k, root, files).Ok?
    requires j < k && SoleOwner(objects, k, j) && objects[j].node.Some?
    requires RefAttribute(doc[objects[j].node.value].tag).Some?
    ensures j in InlinePlan(doc, objects, k, root, files).value.1 <==> InlinePath(doc, objects[j]).Some?
  {
    RecordSettled(doc, objects, k, root, files, j);
    assert SoleOwner(objects, j + 1, j);
    RecordLast(doc, objects, j + 1, root, files);
  }

  /** Later steps neither add nor remove index `j`. */
  lemma {:induction false} RecordSettled(doc: Document, objects: seq<Object>, k: nat, root: string, files: Files, j: nat)
    requires NodesIn(doc, objects) && j < k <= |objects| && InlinePlan(doc, objects, k, root, files).Ok?
    ensures InlinePlan(doc, objects, j + 1, root, files).Ok?
    ensures j in InlinePlan(doc, objects, k, root, files).value.1 <==> j in InlinePlan(doc, objects, j + 1, root, files).value.1
    decreases k
  {
    if j < k - 1 {
      RecordKept(doc, objects, k, root, files, j);
      RecordSettled(doc, objects, k - 1, root, files, j);
    }
  }

  /** An earlier index is recorded after the step iff it was before. */
  lemma RecordKept(doc: Document, objects: seq<Object>, k: nat, root: string, files: Files, j: nat)
    requires NodesIn(doc, objects) && 0 < k <= |objects| && InlinePlan(doc, objects, k, root, files).Ok?
    requires j < k - 1
    ensures InlinePlan(doc, objects, k - 1, root, files).Ok?
    ensures j in InlinePlan(doc, objects, k, root, files).value.1 <==> j in InlinePlan(doc, objects, k - 1, root, files).value.1
  {
    PlanIndices(doc, objects, k, root, files);
  }

  /** The new index is recorded iff the object's path on the original page
      is accepted, when no earlier object touched its element. */
  lemma RecordLast(doc: Document, objects: seq<Object>, k: nat, root: string, files: Files)
    requires NodesIn(doc, objects) && 0 < k <= |objects| && InlinePlan(doc, objects, k, root, files).Ok?
    requires SoleOwner(objects, k, k - 1) && objects[k - 1].node.Some?
    requires RefAttribute(doc[objects[k - 1].node.value].tag).Some?
    ensures k - 1 in InlinePlan(doc, objects, k, root, files).value.1 <==> InlinePath(doc, objects[k - 1]).Some?
  {
    PlanIndices(doc, objects, k, root, files);
    var prev := InlinePlan(doc, objects, k - 1, root, files).value;
    var o := objects[k - 1];
    var x := o.node.value;
    assert NotPointedAt(objects, k - 1, x);
    PlanUntouched(doc, objects, k - 1, root, files);
    assert prev.0[x] == doc[x];
    assert InlinePath(prev.0, o) == InlinePath(doc, o);
    assert k - 1 !in prev.1;
  }

  /** A panic while examining the first `k` objects is a panic of the whole
      loop. */
  lemma {:induction false} PlanPanicSpreads(doc: Document, objects: seq<Object>, k: nat, n: nat,
                                            root: string, files: Files)
    requires NodesIn(doc, objects) && k <= n <= |objects|
    requires InlinePlan(doc, objects, k, root, files).Panic?
    ensures InlinePlan(doc, objects, n, root, files) == InlinePlan(doc, objects, k, root, files)
    decreases n - k
  {
    if k < n {
      PlanPanicSpreads(doc, objects, k + 1, n, root, files);
    }
  }

  /** `make_objects_inlined`: examine the first `n` objects, rewriting the
      reference of each one that is not skipped to a `data:` URI read from
      `root + "/" + path`, then remove the recorded objects from the list,
      last first. The Rust function returns `Ok(())` whenever it does not
      panic. */
  method MakeObjectsInlined(doc: Document, objects: seq<Object>, root: string, n: nat, files: Files)
    returns (r: Outcome<(Document, seq<Object>)>)
    requires NodesIn(doc, objects)
    ensures !r.Err?
    ensures n > |objects| ==> r.Panic?
    ensures n <= |objects| ==> (r.Ok? <==> InlinePlan(doc, objects, n, root, files).Ok?)
    ensures r.Ok? ==> (n <= |objects| &&
      var plan := InlinePlan(doc, objects, n, root, files).value;
      r.value == (plan.0, DropIndices(objects, plan.1)))
  {
    if n > |objects| {
      return Panic("range end index out of range for slice");
    }
    var plan := RunPlan(doc, objects, root, n, files);
    if plan.Panic? {
      return Panic(plan.msg);
    }
    var rest := RemoveRecorded(objects, plan.value.1);
    return Ok((plan.value.0, rest));
  }

  /** The first loop: every object up to `n` examined in turn on the page
      as rewritten so far, recording the indices inlined. */
  method RunPlan(doc: Document, objects: seq<Object>, root: string, n: nat, files: Files)
    returns (r: Outcome<(Document, seq<nat>)>)
    requires NodesIn(doc, objects) && n <= |objects|
    ensures r == InlinePlan(doc, objects, n, root, files)
  {
    var page := doc;
    var inlined: seq<nat> := [];
    for i := 0 to n
      invariant InlinePlan(doc, objects, i, root, files) == Ok((page, inlined))
    {
      var st := ExamineOne(doc, objects, root, files, i, page, inlined);
      if st.Panic? {
        PlanPanicSpreads(doc, objects, i + 1, n, root, files);
        return st;
      }
      page, inlined := st.value.0, st.value.1;
    }
    return Ok((page, inlined));
  }

  /** One pass of the first loop: object `i` examined on the page as
      rewritten so far. */
  method ExamineOne(doc: Document, objects: seq<Object>, root: string, files: Files, i: nat,
                    page: Document, inlined: seq<nat>)
    returns (st: Outcome<(Document, seq<nat>)>)
    requires NodesIn(doc, objects) && i < |objects| && InlinePlan(doc, objects, i, root, files) == Ok((page, inlined))
    ensures st == InlinePlan(doc, objects, i + 1, root, files)
  {
    var step := InlineOne(page, objects[i], root, files);
    PlanUnfold(doc, objects, i, root, files, page, inlined);
    if !step.Ok? {
      st := Panic(step.msg);
    } else if step.value.None? {
      st := Ok((page, inlined));
    } else {
      st := Ok((step.value.value, inlined + [i]));
    }
  }

  /** One step of the loop, from the state before it. */
  lemma PlanUnfold(doc: Document, objects: seq<Object>, i: nat, root: string, files: Files,
                   page: Document, inlined: seq<nat>)
    requires NodesIn(doc, objects) && i < |objects| && InlinePlan(doc, objects, i, root, files) == Ok((page, inlined))
    ensures var step := InlineOne(page, objects[i], root, files);
      InlinePlan(doc, objects, i + 1, root, files) ==
        (if !step.Ok? then Panic(step.msg)
         else if step.value.None? then Ok((page, inlined))
         else Ok((step.value.value, inlined + [i])))
  {
  }

  /** The second loop: the recorded objects removed, the last first, so
      that the earlier indices still hold. */
  method RemoveRecorded(objects: seq<Object>, inlined: seq<nat>) returns (rest: seq<Object>)
    requires Increasing(inlined) && forall t :: 0 <= t < |inlined| ==> inlined[t] < |objects|
    ensures rest == DropIndices(objects, inlined)
  {
    rest := objects;
    var pending: seq<nat> := inlined;
    while |pending| > 0
      invariant Increasing(pending) && forall t :: 0 <= t < |pending| ==> pending[t] < |rest|
      invariant DropIndices(rest, pending) == DropIndices(objects, inlined)
      decreases |pending|
    {
      var m := Last(pending);
      RemoveLargestFirst(rest, pending);
      rest := RemoveAt(rest, m);
      pending := pending[..|pending| - 1];
    }
    DropNothing(rest);
  }

  /** What the removal leaves: as many objects fewer as were recorded, the
      survivors in their old order, and every object from `n` on. */
  lemma InlinedRemoval(doc: Document, objects: seq<Object>, root: string, n: nat, files: Files)
    requires NodesIn(doc, objects) && n <= |objects| && InlinePlan(doc, objects, n, root, files).Ok?
    ensures var idx := InlinePlan(doc, objects, n, root, files).value.1;
      var rest := DropIndices(objects, idx);
      |rest| == |objects| - |idx| &&
      rest == DropIndices(objects[..n], idx) + objects[n..]
  {
    var idx := InlinePlan(doc, objects, n, root, files).value.1;
    DropLength(objects, idx);
    assert objects == objects[..n] + objects[n..];
    DropKeepsTail(objects[..n], objects[n..], idx);
  }

  /** The positions below `n` that are not in `out`, in increasing order. */
  function KeptPositions(n: nat, out: seq<nat>): (r: seq<nat>)
    ensures Increasing(r)
    ensures forall t :: 0 <= t < |r| ==> r[t] < n
    ensures forall p: nat :: p in r <==> p < n && p !in out
  {
    if n == 0 then [] else KeptPositions(n - 1, out) + (if n - 1 in out then [] else [n - 1])
  }

  /** The survivors keep their relative order: the result lists `s` at the
      kept positions, in increasing order. */
  lemma {:induction false} DropKeepsOrder<T>(s: seq<T>, out: seq<nat>)
    ensures |DropIndices(s, out)| == |KeptPositions(|s|, out)|
    ensures forall i :: 0 <= i < |KeptPositions(|s|, out)| ==>
              DropIndices(s, out)[i] == s[KeptPositions(|s|, out)[i]]
    decreases |s|
  {
    if |s| > 0 {
      var pre := s[..|s| - 1];
      DropKeepsOrder(pre, out);
      var d, k := DropIndices(pre, out), KeptPositions(|pre|, out);
      if |pre| in out {
        assert DropIndices(s, out) == d;
        assert KeptPositions(|s|, out) == k;
        forall i | 0 <= i < |k| ensures d[i] == s[k[i]] {
          assert d[i] == pre[k[i]];
        }
      } else {
        assert DropIndices(s, out) == d + [Last(s)];
        assert KeptPositions(|s|, out) == k + [|pre|];
        forall i | 0 <= i < |k| + 1 ensures (d + [Last(s)])[i] == s[(k + [|pre|])[i]] {
          if i < |k| {
            assert d[i] == pre[k[i]];
          }
        }
      }
    }
  }

  // ---------------------------------------------------------------------
  // inline_css_content

  /** What `inline_css_content` computes: a page whose bytes up to the
      first NUL are not UTF-8 is refused with status 0 and left as it was;
      otherwise the page is parsed, its stylesheets are inlined, and the
      serialized result is handed back through `content_to_c` with status
      1. Parsing and serializing are html5ever's and are parameters here. */
  function CssContentInlined(info: MorphInfo, cache: Cache,
                             parse: seq<byte> -> Document, serialize: Document -> seq<byte>): (r: Outcome<(nat, MorphInfo)>)
    ensures !r.Err?
    ensures !IsCText(info.content) ==> r == Ok((0, info))
    ensures IsCText(info.content) ==>
      (r.Ok? <==> CssInlined(parse(CStr(info.content)), cache).Ok?)
    ensures IsCText(info.content) && r.Ok? ==>
      var page := serialize(CssInlined(parse(CStr(info.content)), cache).value);
      r.value.0 == 1 && r.value.1.content == page && r.value.1.size == |page| &&
      r.value.1 == info.(content := page, size := |page|)
  {
    if !IsCText(info.content) then Ok((0, info))
    else match CssInlined(parse(CStr(info.content)), cache)
      case Ok(doc) => Ok(ContentToC(serialize(doc), info))
      case _ => Panic("map_get returned NULL")
  }

  /** `inline_css_content`. */
  method InlineCssContent(info: MorphInfo, cache: Cache,
                          parse: seq<byte> -> Document, serialize: Document -> seq<byte>)
    returns (r: Outcome<(nat, MorphInfo)>)
    ensures r == CssContentInlined(info, cache, parse, serialize)
  {
    if !IsCText(info.content) {
      return Ok((0, info));
    }
    var document := parse(CStr(info.content));
    var inlined := ParseCssAndInline(document, cache);
    if !inlined.Ok? {
      return Panic("map_get returned NULL");
    }
    var content := serialize(inlined.value);
    return Ok(ContentToC(content, info));
  }
}
