/**
 A variant-independent account of what the exporters' walk emits: each
 element becomes a sequence of blocks (paragraphs, headings, numbered
 requirements), and an exporter only chooses how to write each block.
 The `headingDone` flag that the walk threads through its loop is stated
 here in closed form: some earlier child is a bold font or a node.
 */
module Outline {
  import opened ReqIdMapper
  import opened Exporter

  datatype Block =
    | Paragraph(text: string)
    | Title(text: string, depth: nat)
    | Req(text: string, rawId: string, number: int)

  /** The text an exporter writes for one block. */
  function Format(v: Variant, b: Block): string {
    match b
    case Paragraph(t) => t + "\n\n"
    case Title(t, d) => Heading(v, t, d)
    case Req(t, _, n) => Requirement(t, n)
  }

  function FormatAll(v: Variant, bs: seq<Block>): string
    decreases |bs|
  {
    if |bs| == 0 then "" else Format(v, bs[0]) + FormatAll(v, bs[1..])
  }

  /** Every requirement block carries the number the store holds for its raw ID. */
  predicate Recorded(bs: seq<Block>, m: Mapper) {
    forall j :: 0 <= j < |bs| && bs[j].Req? ==> bs[j].rawId in m.store && m.store[bs[j].rawId] == bs[j].number
  }

  predicate NoTitles(bs: seq<Block>) {
    forall j :: 0 <= j < |bs| ==> !bs[j].Title?
  }

  /** Some child before index `i` is a bold font or a node. */
  predicate HeadingDoneBefore(cs: seq<Element>, i: nat)
    requires i <= |cs|
  {
    exists j :: 0 <= j < i && (IsBold(cs[j]) || IsNode(cs[j]))
  }

  /** Child `i` is a node and so triggers the parent's plain paragraph before its own output. */
  predicate FallsBack(cs: seq<Element>, i: nat)
    requires i < |cs|
  {
    IsNode(cs[i]) && !HeadingDoneBefore(cs, i)
  }

  lemma RecordedAppend(a: seq<Block>, b: seq<Block>, m: Mapper, m': Mapper)
    requires Recorded(a, m) && Extends(m, m') && Recorded(b, m')
    ensures Recorded(a + b, m')
  {
    forall j | 0 <= j < |a + b| && (a + b)[j].Req?
      ensures (a + b)[j].rawId in m'.store && m'.store[(a + b)[j].rawId] == (a + b)[j].number
    {
      if j < |a| {
        assert (a + b)[j] == a[j];
      } else {
        assert (a + b)[j] == b[j - |a|];
      }
    }
  }

  /** The blocks of element `e` and the store after the walk. */
  function Blocks(e: Element, depth: nat, m: Mapper): (r: (seq<Block>, Mapper))
    requires Renderable(e)
    ensures |e.children| == 0 ==> r.0 == [Paragraph(e.attrib["TEXT"])] && r.1 == m
    ensures Extends(m, r.1)
    ensures Recorded(r.0, r.1)
    decreases e, 2
  {
    if |e.children| == 0 then ([Paragraph(e.attrib["TEXT"])], m)
    else ChildrenBlocks(e, 0, depth, m)
  }

  /** The blocks contributed by the children of `e` from index `i` on. */
  function ChildrenBlocks(e: Element, i: nat, depth: nat, m: Mapper): (r: (seq<Block>, Mapper))
    requires Renderable(e) && i <= |e.children|
    ensures Extends(m, r.1)
    ensures Recorded(r.0, r.1)
    decreases e, 1, |e.children| - i
  {
    if i == |e.children| then ([], m)
    else
      assert ChildReady(e.attrib, e.children[i]);
      var (bs, m1) := ChildBlocks(e, i, depth, m);
      var (rest, m2) := ChildrenBlocks(e, i + 1, depth, m1);
      RecordedAppend(bs, rest, m1, m2);
      (bs + rest, m2)
  }

  /**
   The blocks contributed by child `i` of `e`: a heading for a bold font, a
   requirement for an italic font, the parent's paragraph (when it falls
   back) and the child's own blocks for a node, nothing otherwise.
   */
  function ChildBlocks(e: Element, i: nat, depth: nat, m: Mapper): (r: (seq<Block>, Mapper))
    requires Renderable(e) && i < |e.children|
    requires ChildReady(e.attrib, e.children[i])
    ensures IsBold(e.children[i]) ==> r == ([Title(e.attrib["TEXT"], depth)], m)
    ensures IsItalic(e.children[i]) ==>
      && |r.0| == 1 && r.0[0].Req?
      && r.0[0].text == e.attrib["TEXT"] && r.0[0].rawId == e.attrib["ID"]
    ensures IsNode(e.children[i]) ==>
      (FallsBack(e.children, i) <==> |r.0| > 0 && r.0[0] == Paragraph(e.attrib["TEXT"]) && r.0[1..] == Blocks(e.children[i], depth + 1, m).0)
    ensures IsNode(e.children[i]) && !FallsBack(e.children, i) ==> r.0 == Blocks(e.children[i], depth + 1, m).0
    ensures IsNode(e.children[i]) ==> r.1 == Blocks(e.children[i], depth + 1, m).1
    ensures !IsBold(e.children[i]) && !IsItalic(e.children[i]) && !IsNode(e.children[i]) ==> r == ([], m)
    ensures Extends(m, r.1)
    ensures Recorded(r.0, r.1)
    decreases e.children[i], 3
  {
    var c := e.children[i];
    if IsBold(c) then ([Title(e.attrib["TEXT"], depth)], m)
    else if IsItalic(c) then
      var (id, m') := GetId(m, e.attrib["ID"]);
      ([Req(e.attrib["TEXT"], e.attrib["ID"], id)], m')
    else if IsNode(c) then
      var (sub, m') := Blocks(c, depth + 1, m);
      var lead := if HeadingDoneBefore(e.children, i) then [] else [Paragraph(e.attrib["TEXT"])];
      RecordedAppend(lead, sub, m', m');
      (lead + sub, m')
    else ([], m)
  }

  lemma {:induction false} FormatAllAppend(v: Variant, a: seq<Block>, b: seq<Block>)
    ensures FormatAll(v, a + b) == FormatAll(v, a) + FormatAll(v, b)
    decreases |a|
  {
    if |a| > 0 {
      assert (a + b)[1..] == a[1..] + b;
      FormatAllAppend(v, a[1..], b);
    } else {
      assert a + b == b;
    }
  }

  lemma FormatSingle(v: Variant, b: Block)
    ensures FormatAll(v, [b]) == Format(v, b)
  {
    assert [b][1..] == [];
    assert Format(v, b) + "" == Format(v, b);
  }

  lemma HeadingDoneStep(cs: seq<Element>, i: nat)
    requires i < |cs|
    ensures HeadingDoneBefore(cs, i + 1) == (HeadingDoneBefore(cs, i) || IsBold(cs[i]) || IsNode(cs[i]))
  {
    if IsBold(cs[i]) || IsNode(cs[i]) {
      assert 0 <= i < i + 1;
    }
  }

  /**
   The parent's paragraph falls back at most once, at the first node child,
   and only when no bold font comes before it; italic fonts do not suppress it.
   */
  lemma FallsBackAtMostOnce(cs: seq<Element>, i: nat, j: nat)
    requires i < |cs| && j < |cs|
    ensures FallsBack(cs, i) <==> IsNode(cs[i]) && forall k :: 0 <= k < i ==> !IsBold(cs[k]) && !IsNode(cs[k])
    ensures FallsBack(cs, i) && FallsBack(cs, j) ==> i == j
  {
    if i < j && IsNode(cs[i]) {
      assert HeadingDoneBefore(cs, j);
    }
    if j < i && IsNode(cs[j]) {
      assert HeadingDoneBefore(cs, i);
    }
  }

  /**
   The exporters' walk writes exactly the blocks, each in its own
   exporter's style, and leaves the store as the block walk does.
   */
  lemma {:induction false} RenderIsFormat(v: Variant, e: Element, depth: nat, m: Mapper)
    requires Renderable(e)
    ensures Render(v, e, depth, m) == (FormatAll(v, Blocks(e, depth, m).0), Blocks(e, depth, m).1)
    decreases e, 2
  {
    if |e.children| == 0 {
      FormatSingle(v, Paragraph(e.attrib["TEXT"]));
    } else {
      assert !HeadingDoneBefore(e.children, 0);
      RenderChildrenIsFormat(v, e, 0, depth, m);
    }
  }

  lemma {:induction false} RenderChildrenIsFormat(v: Variant, e: Element, i: nat, depth: nat, m: Mapper)
    requires Renderable(e) && i <= |e.children|
    ensures RenderChildren(v, e, i, depth, HeadingDoneBefore(e.children, i), m) ==
      (FormatAll(v, ChildrenBlocks(e, i, depth, m).0),
       HeadingDoneBefore(e.children, |e.children|),
       ChildrenBlocks(e, i, depth, m).1)
    decreases e, 1, |e.children| - i
  {
    if i < |e.children| {
      var c := e.children[i];
      var hd := HeadingDoneBefore(e.children, i);
      var (bs, m1) := ChildBlocks(e, i, depth, m);
      HeadingDoneStep(e.children, i);
      RenderChildIsFormat(v, e, i, depth, m);
      RenderChildrenIsFormat(v, e, i + 1, depth, m1);
      FormatAllAppend(v, bs, ChildrenBlocks(e, i + 1, depth, m1).0);
    }
  }

  lemma {:induction false} RenderChildIsFormat(v: Variant, e: Element, i: nat, depth: nat, m: Mapper)
    requires Renderable(e) && i < |e.children|
    ensures RenderChild(v, e.attrib, e.children[i], depth, HeadingDoneBefore(e.children, i), m) ==
      (FormatAll(v, ChildBlocks(e, i, depth, m).0),
       HeadingDoneBefore(e.children, i + 1),
       ChildBlocks(e, i, depth, m).1)
    decreases e.children[i], 4
  {
    var c := e.children[i];
    assert ChildReady(e.attrib, c);
    HeadingDoneStep(e.children, i);
    if IsBold(c) || IsItalic(c) {
      FontChildIsFormat(v, e, i, depth, m);
    } else if IsNode(c) {
      NodeChildIsFormat(v, e, i, depth, m);
    }
  }

  lemma FontChildIsFormat(v: Variant, e: Element, i: nat, depth: nat, m: Mapper)
    requires Renderable(e) && i < |e.children| && ChildReady(e.attrib, e.children[i])
    requires IsBold(e.children[i]) || IsItalic(e.children[i])
    ensures RenderChild(v, e.attrib, e.children[i], depth, HeadingDoneBefore(e.children, i), m).0 ==
      FormatAll(v, ChildBlocks(e, i, depth, m).0)
    ensures RenderChild(v, e.attrib, e.children[i], depth, HeadingDoneBefore(e.children, i), m).2 ==
      ChildBlocks(e, i, depth, m).1
  {
    FormatSingle(v, ChildBlocks(e, i, depth, m).0[0]);
  }

  lemma {:induction false} NodeChildIsFormat(v: Variant, e: Element, i: nat, depth: nat, m: Mapper)
    requires Renderable(e) && i < |e.children| && ChildReady(e.attrib, e.children[i])
    requires IsNode(e.children[i])
    ensures RenderChild(v, e.attrib, e.children[i], depth, HeadingDoneBefore(e.children, i), m).0 ==
      FormatAll(v, ChildBlocks(e, i, depth, m).0)
    ensures RenderChild(v, e.attrib, e.children[i], depth, HeadingDoneBefore(e.children, i), m).2 ==
      ChildBlocks(e, i, depth, m).1
    decreases e.children[i], 3
  {
    var c := e.children[i];
    RenderIsFormat(v, c, depth + 1, m);
    var sub := Blocks(c, depth + 1, m).0;
    if !HeadingDoneBefore(e.children, i) {
      var p := Paragraph(e.attrib["TEXT"]);
      FormatAllAppend(v, [p], sub);
      FormatSingle(v, p);
    } else {
      assert [] + sub == sub;
      assert "" + FormatAll(v, sub) == FormatAll(v, sub);
    }
  }

  /**
   The block walk from a store that already extends its own outcome issues
   no new number and yields the same blocks.
   */
  lemma {:induction false} BlocksStable(e: Element, depth: nat, m: Mapper, m2: Mapper)
    requires Renderable(e) && Extends(Blocks(e, depth, m).1, m2)
    ensures Blocks(e, depth, m2) == (Blocks(e, depth, m).0, m2)
    decreases e, 2
  {
    if |e.children| > 0 {
      ChildrenBlocksStable(e, 0, depth, m, m2);
    }
  }

  lemma {:induction false} ChildrenBlocksStable(e: Element, i: nat, depth: nat, m: Mapper, m2: Mapper)
    requires Renderable(e) && i <= |e.children| && Extends(ChildrenBlocks(e, i, depth, m).1, m2)
    ensures ChildrenBlocks(e, i, depth, m2) == (ChildrenBlocks(e, i, depth, m).0, m2)
    decreases e, 1, |e.children| - i
  {
    if i < |e.children| {
      assert ChildReady(e.attrib, e.children[i]);
      var (bs, m1) := ChildBlocks(e, i, depth, m);
      var mr := ChildrenBlocks(e, i + 1, depth, m1).1;
      ExtendsTransitive(m1, mr, m2);
      ChildBlocksStable(e, i, depth, m, m2);
      ChildrenBlocksStable(e, i + 1, depth, m1, m2);
    }
  }

  lemma {:induction false} ChildBlocksStable(e: Element, i: nat, depth: nat, m: Mapper, m2: Mapper)
    requires Renderable(e) && i < |e.children| && ChildReady(e.attrib, e.children[i])
    requires Extends(ChildBlocks(e, i, depth, m).1, m2)
    ensures ChildBlocks(e, i, depth, m2) == (ChildBlocks(e, i, depth, m).0, m2)
    decreases e.children[i], 3
  {
    var c := e.children[i];
    if IsNode(c) {
      BlocksStable(c, depth + 1, m, m2);
    }
  }

  /** The raw IDs of the requirement blocks, in document order. */
  function ReqIds(bs: seq<Block>): seq<string>
    decreases |bs|
  {
    if |bs| == 0 then []
    else (if bs[0].Req? then [bs[0].rawId] else []) + ReqIds(bs[1..])
  }

  /** The numbers of the requirement blocks, in document order: one per raw ID. */
  function ReqNumbers(bs: seq<Block>): (r: seq<int>)
    ensures |r| == |ReqIds(bs)|
    decreases |bs|
  {
    if |bs| == 0 then []
    else (if bs[0].Req? then [bs[0].number] else []) + ReqNumbers(bs[1..])
  }

  lemma ReqAppend(a: seq<Block>, b: seq<Block>)
    ensures ReqIds(a + b) == ReqIds(a) + ReqIds(b)
    ensures ReqNumbers(a + b) == ReqNumbers(a) + ReqNumbers(b)
  {
    ReqIdsAppend(a, b);
    ReqNumbersAppend(a, b);
  }

  lemma {:induction false} ReqIdsAppend(a: seq<Block>, b: seq<Block>)
    ensures ReqIds(a + b) == ReqIds(a) + ReqIds(b)
    decreases |a|
  {
    if |a| == 0 {
      assert a + b == b;
    } else {
      var h := if a[0].Req? then [a[0].rawId] else [];
      assert (a + b)[0] == a[0];
      assert (a + b)[1..] == a[1..] + b;
      ReqIdsAppend(a[1..], b);
      assert ReqIds(a + b) == h + (ReqIds(a[1..]) + ReqIds(b));
      assert h + (ReqIds(a[1..]) + ReqIds(b)) == (h + ReqIds(a[1..])) + ReqIds(b);
    }
  }

  lemma {:induction false} ReqNumbersAppend(a: seq<Block>, b: seq<Block>)
    ensures ReqNumbers(a + b) == ReqNumbers(a) + ReqNumbers(b)
    decreases |a|
  {
    if |a| == 0 {
      assert a + b == b;
    } else {
      var h := if a[0].Req? then [a[0].number] else [];
      assert (a + b)[0] == a[0];
      assert (a + b)[1..] == a[1..] + b;
      ReqNumbersAppend(a[1..], b);
      assert ReqNumbers(a + b) == h + (ReqNumbers(a[1..]) + ReqNumbers(b));
      assert h + (ReqNumbers(a[1..]) + ReqNumbers(b)) == (h + ReqNumbers(a[1..])) + ReqNumbers(b);
    }
  }

  /**
   The walk asks the store for numbers exactly as one run of `getId` calls
   over the raw IDs of its requirement blocks, in document order: the run
   returns the blocks' numbers and leaves the walk's store.
   */
  lemma {:induction false} BlocksResolve(e: Element, depth: nat, m: Mapper)
    requires Renderable(e)
    ensures ResolveAll(m, ReqIds(Blocks(e, depth, m).0)) == (ReqNumbers(Blocks(e, depth, m).0), Blocks(e, depth, m).1)
    decreases e, 2
  {
    if |e.children| == 0 {
      assert ReqIds([Paragraph(e.attrib["TEXT"])]) == [];
      assert ReqNumbers([Paragraph(e.attrib["TEXT"])]) == [];
    } else {
      ChildrenBlocksResolve(e, 0, depth, m);
    }
  }

  lemma {:induction false} ChildrenBlocksResolve(e: Element, i: nat, depth: nat, m: Mapper)
    requires Renderable(e) && i <= |e.children|
    ensures ResolveAll(m, ReqIds(ChildrenBlocks(e, i, depth, m).0)) ==
      (ReqNumbers(ChildrenBlocks(e, i, depth, m).0), ChildrenBlocks(e, i, depth, m).1)
    decreases e, 1, |e.children| - i
  {
    if i < |e.children| {
      assert ChildReady(e.attrib, e.children[i]);
      var (bs, m1) := ChildBlocks(e, i, depth, m);
      var rest := ChildrenBlocks(e, i + 1, depth, m1).0;
      ChildBlocksResolve(e, i, depth, m);
      ChildrenBlocksResolve(e, i + 1, depth, m1);
      ReqAppend(bs, rest);
      ResolveAllAppend(m, ReqIds(bs), ReqIds(rest));
    }
  }

  lemma {:induction false} ChildBlocksResolve(e: Element, i: nat, depth: nat, m: Mapper)
    requires Renderable(e) && i < |e.children| && ChildReady(e.attrib, e.children[i])
    ensures ResolveAll(m, ReqIds(ChildBlocks(e, i, depth, m).0)) ==
      (ReqNumbers(ChildBlocks(e, i, depth, m).0), ChildBlocks(e, i, depth, m).1)
    decreases e.children[i], 3
  {
    var c := e.children[i];
    var bs := ChildBlocks(e, i, depth, m).0;
    if IsBold(c) || IsItalic(c) {
      assert bs == [bs[0]];
      assert bs[1..] == [];
    } else if IsNode(c) {
      BlocksResolve(c, depth + 1, m);
      var sub := Blocks(c, depth + 1, m).0;
      if FallsBack(e.children, i) {
        var p := Paragraph(e.attrib["TEXT"]);
        assert bs == [p] + sub;
        ReqAppend([p], sub);
        assert ReqIds([p]) == [] && ReqNumbers([p]) == [];
        assert [] + ReqIds(sub) == ReqIds(sub);
        assert [] + ReqNumbers(sub) == ReqNumbers(sub);
      }
    } else {
      assert bs == [];
    }
  }

  /**
   Numbering of a document rendered from a fresh store: the first
   requirement for a raw ID, preceded by requirements for j distinct raw IDs,
   is numbered j + 2; the rendered text is made of these very blocks.
   */
  lemma DocumentNumbering(v: Variant, e: Element, i: nat)
    requires Renderable(e)
    requires var ids := ReqIds(Blocks(e, 0, Empty()).0); i < |ids| && ids[i] !in ids[..i]
    ensures var bs := Blocks(e, 0, Empty()).0;
      && Render(v, e, 0, Empty()).0 == FormatAll(v, bs)
      && ReqNumbers(bs)[i] == NewCount(Empty(), ReqIds(bs)[..i]) + 2
  {
    var bs := Blocks(e, 0, Empty()).0;
    RenderIsFormat(v, e, 0, Empty());
    BlocksResolve(e, 0, Empty());
    FreshStoreNumbering(ReqIds(bs), i);
  }

  /**
   In a document rendered from a valid, injective store, two requirement
   blocks carry the same number exactly when they are for the same raw ID,
   and the store the walk leaves is still injective.
   */
  lemma DocumentUnique(e: Element, depth: nat, m: Mapper)
    requires Renderable(e) && Valid(m) && Injective(m)
    ensures var bs := Blocks(e, depth, m).0;
      && Injective(Blocks(e, depth, m).1)
      && forall i, j :: 0 <= i < |ReqIds(bs)| && 0 <= j < |ReqIds(bs)| ==>
        (ReqNumbers(bs)[i] == ReqNumbers(bs)[j] <==> ReqIds(bs)[i] == ReqIds(bs)[j])
  {
    var bs := Blocks(e, depth, m).0;
    BlocksResolve(e, depth, m);
    ResolveAllStableUnique(m, ReqIds(bs));
  }

  /**
   Re-rendering against a store that keeps every number the first render
   used (the same store afterwards, or one that other renders extended)
   reproduces the text exactly and leaves the store unchanged.
   */
  lemma RerenderIdentical(v: Variant, e: Element, depth: nat, m: Mapper, m2: Mapper)
    requires Renderable(e) && Extends(Render(v, e, depth, m).1, m2)
    ensures Render(v, e, depth, m2) == (Render(v, e, depth, m).0, m2)
  {
    RenderIsFormat(v, e, depth, m);
    RenderIsFormat(v, e, depth, m2);
    BlocksStable(e, depth, m, m2);
  }

  /**
   Exporters that share one store: after exporter `v1` rendered `e`, exporter
   `v2` renders the blocks `v1` rendered, with the same requirement numbers,
   and issues no new number.
   */
  lemma SharedStoreRender(v1: Variant, v2: Variant, e: Element, depth: nat, m: Mapper)
    requires Renderable(e)
    ensures Render(v2, e, depth, Render(v1, e, depth, m).1) ==
      (FormatAll(v2, Blocks(e, depth, m).0), Render(v1, e, depth, m).1)
  {
    var m1 := Render(v1, e, depth, m).1;
    RenderIsFormat(v1, e, depth, m);
    RenderIsFormat(v2, e, depth, m1);
    BlocksStable(e, depth, m, m1);
  }

  /**
   From the same store, every exporter renders the same blocks (so the same
   requirement numbers) and leaves the same store; without headings the
   texts coincide.
   */
  lemma VariantsAgree(v1: Variant, v2: Variant, e: Element, depth: nat, m: Mapper)
    requires Renderable(e)
    ensures Render(v1, e, depth, m).1 == Render(v2, e, depth, m).1
    ensures Render(v1, e, depth, m).0 == FormatAll(v1, Blocks(e, depth, m).0)
    ensures Render(v2, e, depth, m).0 == FormatAll(v2, Blocks(e, depth, m).0)
    ensures NoTitles(Blocks(e, depth, m).0) ==> Render(v1, e, depth, m).0 == Render(v2, e, depth, m).0
  {
    RenderIsFormat(v1, e, depth, m);
    RenderIsFormat(v2, e, depth, m);
    NoTitlesFormatAgree(v1, v2, Blocks(e, depth, m).0);
  }

  /** Only headings are written differently by the exporters. */
  lemma {:induction false} NoTitlesFormatAgree(v1: Variant, v2: Variant, bs: seq<Block>)
    ensures NoTitles(bs) ==> FormatAll(v1, bs) == FormatAll(v2, bs)
    decreases |bs|
  {
    if |bs| > 0 && NoTitles(bs) {
      assert !bs[0].Title?;
      assert NoTitles(bs[1..]) by {
        forall j | 0 <= j < |bs[1..]| ensures !bs[1..][j].Title? {
          assert bs[1..][j] == bs[j + 1];
        }
      }
      NoTitlesFormatAgree(v1, v2, bs[1..]);
    }
  }
}
