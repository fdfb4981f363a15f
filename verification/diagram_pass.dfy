/** The diagram substitution pass: once the parser's HTML is loaded into a
    scratch element, every `code.language-mermaid` element is handed to the
    diagram renderer and, when that succeeds, the element's parent is
    replaced in place by a `div.mermaid-diagram` holding the rendered SVG.

    The scratch document is a sequence of top-level blocks. The rendering
    hook starts all diagram renders at once and lets them finish in any
    order; the older preview component renders them one after another. Both
    are modelled here. */
module DiagramPass {
  import opened Base

  datatype Block =
    /** A `code.language-mermaid` element with its text; `hasParent` says
        whether it sits inside an element that `replaceWith` can replace. */
    | MermaidCode(text: string, hasParent: bool)
    /** A `div.mermaid-diagram` holding rendered SVG. */
    | Diagram(svg: string)
    /** Any other markup. */
    | Other(html: string)

  /** The diagram renderer: given the ordinal of the block among the
      collected elements (it is part of the id the renderer receives) and
      the diagram source, it yields SVG or fails. */
  type MermaidRender = (nat, string) -> Option<string>

  /** The rendering hook skips blocks with empty text; the older preview
      component renders every block. */
  datatype Variant = Concurrent | Sequential

  /** `querySelectorAll("code.language-mermaid")`: the positions of the
      diagram blocks, in document order. */
  function Positions(doc: seq<Block>): (ps: seq<nat>)
    ensures forall k :: 0 <= k < |ps| ==> ps[k] < |doc| && doc[ps[k]].MermaidCode?
    ensures forall k, l :: 0 <= k < l < |ps| ==> ps[k] < ps[l]
    ensures forall j :: 0 <= j < |doc| && doc[j].MermaidCode? ==> j in ps
  {
    if doc == [] then []
    else
      var rest := Positions(doc[..|doc| - 1]);
      if doc[|doc| - 1].MermaidCode? then rest + [|doc| - 1] else rest
  }

  /** What one collected element becomes once its render settles. */
  function Resolve(variant: Variant, b: Block, k: nat, render: MermaidRender): (r: Block)
    ensures r != b ==> && b.MermaidCode? && b.hasParent
                       && render(k, b.text).Some? && r == Diagram(render(k, b.text).value)
                       && (variant.Concurrent? ==> b.text != "")
    ensures b.MermaidCode? && b.hasParent && render(k, b.text).Some?
            && (variant.Concurrent? ==> b.text != "")
            ==> r == Diagram(render(k, b.text).value)
  {
    match b
    case MermaidCode(text, hasParent) =>
      if variant.Concurrent? && text == "" then b
      else
        (match render(k, text)
         case None => b
         case Some(svg) => if hasParent then Diagram(svg) else b)
    case _ => b
  }

  /** The scratch document after the renders named in `order` have settled,
      in that order. Each settling replaces its own block, as found in the
      document at that moment. */
  function Settle(variant: Variant, doc: seq<Block>, render: MermaidRender, order: seq<nat>): (r: seq<Block>)
    requires forall i :: 0 <= i < |order| ==> order[i] < |Positions(doc)|
    ensures |r| == |doc|
    decreases |order|
  {
    if order == [] then doc
    else
      var cur := Settle(variant, doc, render, order[..|order| - 1]);
      var k := order[|order| - 1];
      var p := Positions(doc)[k];
      cur[p := Resolve(variant, cur[p], k, render)]
  }

  predicate Distinct(order: seq<nat>) {
    forall i, i' :: 0 <= i < i' < |order| ==> order[i] != order[i']
  }

  /** `order` lists every ordinal below `n` exactly once. */
  predicate IsCompletionOrder(order: seq<nat>, n: nat) {
    && Distinct(order)
    && (forall i :: 0 <= i < |order| ==> order[i] < n)
    && (forall k :: 0 <= k < n ==> k in order)
  }

  /** Index order is one possible completion order. */
  lemma RangeIsCompletionOrder(n: nat)
    ensures IsCompletionOrder(Range(n), n)
  {
    forall k | 0 <= k < n
      ensures k in Range(n)
    {
      assert Range(n)[k] == k;
    }
  }

  /** After the renders in `order` have settled, each settled block is its
      own resolution and every other block is as it was. */
  lemma {:induction false} SettleCharacterization(variant: Variant, doc: seq<Block>, render: MermaidRender, order: seq<nat>)
    requires forall i :: 0 <= i < |order| ==> order[i] < |Positions(doc)|
    requires Distinct(order)
    ensures var r := Settle(variant, doc, render, order);
            var ps := Positions(doc);
            && (forall i :: 0 <= i < |order| ==>
                  r[ps[order[i]]] == Resolve(variant, doc[ps[order[i]]], order[i], render))
            && (forall j :: 0 <= j < |doc| && (forall i :: 0 <= i < |order| ==> ps[order[i]] != j) ==>
                  r[j] == doc[j])
    decreases |order|
  {
    if order != [] {
      var ps := Positions(doc);
      var front := order[..|order| - 1];
      SettleCharacterization(variant, doc, render, front);
      var cur := Settle(variant, doc, render, front);
      var k := order[|order| - 1];
      var p := ps[k];
      assert forall i :: 0 <= i < |front| ==> ps[front[i]] != p by {
        forall i | 0 <= i < |front|
          ensures ps[front[i]] != p
        {
          assert front[i] == order[i] != k;
          if front[i] < k {} else {}
        }
      }
      assert cur[p] == doc[p];
      var r := Settle(variant, doc, render, order);
      assert r == cur[p := Resolve(variant, cur[p], k, render)];
      forall i | 0 <= i < |order|
        ensures r[ps[order[i]]] == Resolve(variant, doc[ps[order[i]]], order[i], render)
      {
        if i < |order| - 1 {
          assert order[i] == front[i];
        }
      }
      forall j | 0 <= j < |doc| && (forall i :: 0 <= i < |order| ==> ps[order[i]] != j)
        ensures r[j] == doc[j]
      {
        assert ps[order[|order| - 1]] != j;
        forall i | 0 <= i < |front|
          ensures ps[front[i]] != j
        {
          assert front[i] == order[i];
        }
      }
    }
  }

  /** The document once every collected render has settled: the block at
      each collected position is resolved with that block's own ordinal, and
      every other block is unchanged. */
  ghost predicate FullySettled(variant: Variant, doc: seq<Block>, render: MermaidRender, r: seq<Block>) {
    var ps := Positions(doc);
    && |r| == |doc|
    && (forall k :: 0 <= k < |ps| ==> r[ps[k]] == Resolve(variant, doc[ps[k]], k, render))
    && (forall j :: 0 <= j < |doc| && !doc[j].MermaidCode? ==> r[j] == doc[j])
  }

  /** Two documents that are both fully settled from the same input are equal. */
  lemma FullySettledUnique(variant: Variant, doc: seq<Block>, render: MermaidRender, r1: seq<Block>, r2: seq<Block>)
    requires FullySettled(variant, doc, render, r1)
    requires FullySettled(variant, doc, render, r2)
    ensures r1 == r2
  {
    var ps := Positions(doc);
    forall j | 0 <= j < |doc|
      ensures r1[j] == r2[j]
    {
      if doc[j].MermaidCode? {
        assert j in ps;
        var k :| 0 <= k < |ps| && ps[k] == j;
      }
    }
  }

  /** Whatever order the renders complete in, once all have settled the
      document is fully settled. */
  lemma CompletionOrderSettlesAll(variant: Variant, doc: seq<Block>, render: MermaidRender, order: seq<nat>)
    requires IsCompletionOrder(order, |Positions(doc)|)
    ensures FullySettled(variant, doc, render, Settle(variant, doc, render, order))
  {
    var ps := Positions(doc);
    var r := Settle(variant, doc, render, order);
    SettleCharacterization(variant, doc, render, order);
    forall k | 0 <= k < |ps|
      ensures r[ps[k]] == Resolve(variant, doc[ps[k]], k, render)
    {
      assert k in order;
      var i :| 0 <= i < |order| && order[i] == k;
    }
  }

  /** The rendering hook's pass: all renders start together and the result
      is read once every one of them has settled. */
  function SubstituteConcurrent(doc: seq<Block>, render: MermaidRender): (r: seq<Block>)
    ensures FullySettled(Concurrent, doc, render, r)
  {
    var n := |Positions(doc)|;
    RangeIsCompletionOrder(n);
    CompletionOrderSettlesAll(Concurrent, doc, render, Range(n));
    Settle(Concurrent, doc, render, Range(n))
  }

  /** Order independence: the concurrent pass yields the same document for
      every order in which the renders may complete. */
  lemma CompletionOrderIrrelevant(doc: seq<Block>, render: MermaidRender, order: seq<nat>)
    requires IsCompletionOrder(order, |Positions(doc)|)
    ensures Settle(Concurrent, doc, render, order) == SubstituteConcurrent(doc, render)
  {
    CompletionOrderSettlesAll(Concurrent, doc, render, order);
    FullySettledUnique(Concurrent, doc, render, Settle(Concurrent, doc, render, order), SubstituteConcurrent(doc, render));
  }

  /** Order and frame of the concurrent pass: the document keeps its length,
      every block other than a diagram block is untouched, and a block
      changes only into a `mermaid-diagram` div, at its own position, when
      its text is non-empty, its render succeeded and it has a parent. */
  lemma ConcurrentChangesOnlyRenderedDiagrams(doc: seq<Block>, render: MermaidRender, j: nat)
    requires j < |doc|
    ensures |SubstituteConcurrent(doc, render)| == |doc|
    ensures var r := SubstituteConcurrent(doc, render);
            r[j] != doc[j] ==>
              && doc[j].MermaidCode? && doc[j].text != "" && doc[j].hasParent
              && exists k :: 0 <= k < |Positions(doc)| && Positions(doc)[k] == j
                             && render(k, doc[j].text) == Some(r[j].svg) && r[j].Diagram?
  {
    var r := SubstituteConcurrent(doc, render);
    var ps := Positions(doc);
    if doc[j].MermaidCode? {
      assert j in ps;
      var k :| 0 <= k < |ps| && ps[k] == j;
      assert r[j] == Resolve(Concurrent, doc[j], k, render);
    }
  }

  /** The older preview component's loop: the collected elements are
      rendered one at a time in index order; a failure leaves its block and
      the loop goes on. */
  method SubstituteSequential(doc: seq<Block>, render: MermaidRender) returns (out: seq<Block>)
    ensures FullySettled(Sequential, doc, render, out)
  {
    var ps := Positions(doc);
    out := doc;
    for i := 0 to |ps|
      invariant |out| == |doc|
      invariant forall k :: 0 <= k < i ==> out[ps[k]] == Resolve(Sequential, doc[ps[k]], k, render)
      invariant forall j :: 0 <= j < |doc| && (forall k :: 0 <= k < i ==> ps[k] != j) ==> out[j] == doc[j]
    {
      var p := ps[i];
      assert forall k :: 0 <= k < i ==> ps[k] != p;
      out := out[p := Resolve(Sequential, out[p], i, render)];
    }
    forall j | 0 <= j < |doc| && !doc[j].MermaidCode?
      ensures out[j] == doc[j]
    {
    }
  }

  /** The two variants differ only on diagram blocks with empty text: the
      hook never renders those, the older component does. */
  lemma VariantsAgreeOffEmptyText(doc: seq<Block>, render: MermaidRender, r: seq<Block>, j: nat)
    requires FullySettled(Sequential, doc, render, r)
    requires j < |doc|
    requires !(doc[j].MermaidCode? && doc[j].text == "")
    ensures SubstituteConcurrent(doc, render)[j] == r[j]
  {
    var c := SubstituteConcurrent(doc, render);
    var ps := Positions(doc);
    if doc[j].MermaidCode? {
      assert j in ps;
      var k :| 0 <= k < |ps| && ps[k] == j;
      assert c[j] == Resolve(Concurrent, doc[j], k, render);
    }
  }
}
