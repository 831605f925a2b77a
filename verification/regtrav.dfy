/** The capture-history traversal of src/regtrav.rs. The callback may keep
    state between calls, so it is modelled as a function of every event it
    has been handed so far, the last being the current one. */
module RegTrav {
  import opened Wrappers
  import opened Oniguruma

  /** One callback call: group, start, end, depth and which visit. */
  datatype Event = Event(group: int, beg: int, end: int, level: int, at: int)

  type Callback = seq<Event> -> int

  /** A traversal's outcome: what it returns and the calls it made. */
  datatype Walk = Walk(result: int, calls: seq<Event>)

  /** Bit `bit` of `at` as an i32 in two's complement (`at & bit != 0`);
      Dafny's division by a positive divisor floors, as the bit test needs. */
  predicate AtBit(at: int, bit: nat)
    requires bit == TRAVERSE_CALLBACK_AT_FIRST || bit == TRAVERSE_CALLBACK_AT_LAST
  {
    (at / bit) % 2 == 1
  }

  // ---------------------------------------------------------------------------
  // The traversal as the source runs it
  // ---------------------------------------------------------------------------

  /** Calls the callback with one event, on top of the calls so far. */
  function Call(cb: Callback, calls: seq<Event>, e: Event): Walk {
    Walk(cb(calls + [e]), calls + [e])
  }

  /** `capture_tree_traverse`: the node on the way in, its children in
      order one level deeper, the node on the way out; any non-zero answer
      ends the walk. */
  function TraverseNode(node: CaptureTree, at: int, cb: Callback, level: int, calls: seq<Event>): Walk
    decreases node, 1
  {
    var first :=
      if AtBit(at, TRAVERSE_CALLBACK_AT_FIRST)
      then Call(cb, calls, Event(node.group, node.beg, node.end, level, TRAVERSE_CALLBACK_AT_FIRST))
      else Walk(0, calls);
    if first.result != 0 then first
    else
      var kids := TraverseChildren(node, node.children, at, cb, level + 1, first.calls);
      if kids.result != 0 then kids
      else if AtBit(at, TRAVERSE_CALLBACK_AT_LAST)
      then Call(cb, kids.calls, Event(node.group, node.beg, node.end, level, TRAVERSE_CALLBACK_AT_LAST))
      else Walk(0, kids.calls)
  }

  /** The loop over a node's children. */
  function TraverseChildren(parent: CaptureTree, cs: seq<CaptureTree>, at: int, cb: Callback, level: int, calls: seq<Event>): Walk
    requires forall c :: c in cs ==> c in parent.children
    decreases parent, 0, |cs|
  {
    if |cs| == 0 then Walk(0, calls)
    else
      assert cs[0] in parent.children;
      var w := TraverseNode(cs[0], at, cb, level, calls);
      if w.result != 0 then w else TraverseChildren(parent, cs[1..], at, cb, level, w.calls)
  }

  /** `onig_capture_tree_traverse`: the root at depth 0, or nothing when the
      region has no capture history. */
  function CaptureTreeTraverse(region: Region, at: int, cb: Callback): (w: Walk)
    ensures region.historyRoot.None? ==> w == Walk(0, [])
  {
    match region.historyRoot
    case Some(root) => TraverseNode(root, at, cb, 0, [])
    case None => Walk(0, [])
  }

  // ---------------------------------------------------------------------------
  // The reference: the events in order, and the first non-zero answer
  // ---------------------------------------------------------------------------

  /** The events of a whole subtree, `at` deciding which visits are made. */
  function Events(node: CaptureTree, at: int, level: int): seq<Event>
    decreases node, 1
  {
    (if AtBit(at, TRAVERSE_CALLBACK_AT_FIRST) then [Event(node.group, node.beg, node.end, level, TRAVERSE_CALLBACK_AT_FIRST)] else [])
    + ChildEvents(node, node.children, at, level + 1)
    + (if AtBit(at, TRAVERSE_CALLBACK_AT_LAST) then [Event(node.group, node.beg, node.end, level, TRAVERSE_CALLBACK_AT_LAST)] else [])
  }

  function ChildEvents(parent: CaptureTree, cs: seq<CaptureTree>, at: int, level: int): seq<Event>
    requires forall c :: c in cs ==> c in parent.children
    decreases parent, 0, |cs|
  {
    if |cs| == 0 then []
    else
      assert cs[0] in parent.children;
      Events(cs[0], at, level) + ChildEvents(parent, cs[1..], at, level)
  }

  /** Hands the events to the callback one at a time and stops at the first
      non-zero answer, which is returned; 0 when every answer is 0. */
  function Scan(evs: seq<Event>, cb: Callback, calls: seq<Event>): (w: Walk)
    ensures w.result == 0 ==> w.calls == calls + evs
    ensures w.result != 0 ==> |calls| < |w.calls| <= |calls| + |evs| && w.calls == calls + evs[..|w.calls| - |calls|]
    ensures w.result != 0 ==> cb(w.calls) == w.result
    decreases |evs|
  {
    if |evs| == 0 then Walk(0, calls)
    else
      var w := Call(cb, calls, evs[0]);
      if w.result != 0 then
        assert calls + [evs[0]] == calls + evs[..1];
        w
      else
        var rest := Scan(evs[1..], cb, w.calls);
        assert calls + [evs[0]] + evs[1..] == calls + evs;
        if rest.result != 0 then
          var k := |rest.calls| - |w.calls|;
          assert calls + [evs[0]] + evs[1..][..k] == calls + evs[..k + 1];
          rest
        else rest
  }

  /** Every call a scan makes before its last answered 0, and so did the
      last when the scan returns 0. */
  lemma {:induction false} ScanStopsAtFirst(evs: seq<Event>, cb: Callback, calls: seq<Event>, j: nat)
    requires j < |evs|
    requires |calls| + j + 1 < |Scan(evs, cb, calls).calls| || Scan(evs, cb, calls).result == 0
    ensures cb(calls + evs[..j + 1]) == 0
    decreases |evs|
  {
    var w := Call(cb, calls, evs[0]);
    assert calls + evs[..1] == calls + [evs[0]];
    if j > 0 {
      ScanStopsAtFirst(evs[1..], cb, w.calls, j - 1);
      assert w.calls + evs[1..][..j] == calls + evs[..j + 1];
    }
  }

  /** Scanning a concatenation scans the first part, and the second only
      when the first answered 0. */
  lemma {:induction false} ScanAppend(a: seq<Event>, b: seq<Event>, cb: Callback, calls: seq<Event>)
    ensures Scan(a + b, cb, calls) ==
      var w := Scan(a, cb, calls);
      if w.result != 0 then w else Scan(b, cb, w.calls)
    decreases |a|
  {
    if |a| > 0 {
      assert (a + b)[0] == a[0];
      assert (a + b)[1..] == a[1..] + b;
      ScanAppend(a[1..], b, cb, calls + [a[0]]);
    } else {
      assert a + b == b;
    }
  }

  /** The traversal is the scan of the subtree's events: it makes the calls
      the events list, in that order, and returns the first non-zero answer,
      or 0. */
  lemma {:induction false} TraverseIsScan(node: CaptureTree, at: int, cb: Callback, level: int, calls: seq<Event>)
    ensures TraverseNode(node, at, cb, level, calls) == Scan(Events(node, at, level), cb, calls)
    decreases node, 1
  {
    var pre := if AtBit(at, TRAVERSE_CALLBACK_AT_FIRST) then [Event(node.group, node.beg, node.end, level, TRAVERSE_CALLBACK_AT_FIRST)] else [];
    var mid := ChildEvents(node, node.children, at, level + 1);
    var post := if AtBit(at, TRAVERSE_CALLBACK_AT_LAST) then [Event(node.group, node.beg, node.end, level, TRAVERSE_CALLBACK_AT_LAST)] else [];
    ScanAppend(pre + mid, post, cb, calls);
    ScanAppend(pre, mid, cb, calls);
    var first := Scan(pre, cb, calls);
    ChildrenIsScan(node, node.children, at, cb, level + 1, first.calls);
  }

  lemma {:induction false} ChildrenIsScan(parent: CaptureTree, cs: seq<CaptureTree>, at: int, cb: Callback, level: int, calls: seq<Event>)
    requires forall c :: c in cs ==> c in parent.children
    ensures TraverseChildren(parent, cs, at, cb, level, calls) == Scan(ChildEvents(parent, cs, at, level), cb, calls)
    decreases parent, 0, |cs|
  {
    if |cs| > 0 {
      assert cs[0] in parent.children;
      TraverseIsScan(cs[0], at, cb, level, calls);
      ScanAppend(Events(cs[0], at, level), ChildEvents(parent, cs[1..], at, level), cb, calls);
      var w := TraverseNode(cs[0], at, cb, level, calls);
      ChildrenIsScan(parent, cs[1..], at, cb, level, w.calls);
    }
  }

  // ---------------------------------------------------------------------------
  // Properties of the order
  // ---------------------------------------------------------------------------

  /** The number of nodes of a subtree. */
  function Size(node: CaptureTree): nat
    decreases node, 1
  {
    1 + ChildrenSize(node, node.children)
  }

  function ChildrenSize(parent: CaptureTree, cs: seq<CaptureTree>): nat
    requires forall c :: c in cs ==> c in parent.children
    decreases parent, 0, |cs|
  {
    if |cs| == 0 then 0
    else
      assert cs[0] in parent.children;
      Size(cs[0]) + ChildrenSize(parent, cs[1..])
  }

  /** How many visits each node gets under `at`. */
  function Visits(at: int): nat {
    (if AtBit(at, TRAVERSE_CALLBACK_AT_FIRST) then 1 else 0) + (if AtBit(at, TRAVERSE_CALLBACK_AT_LAST) then 1 else 0)
  }

  /** Every node is visited once per selected visit kind, each event at a
      depth at least the subtree's, and each event's kind selected by `at`. */
  lemma {:induction false} EventsCover(node: CaptureTree, at: int, level: int)
    ensures |Events(node, at, level)| == Visits(at) * Size(node)
    ensures forall k :: 0 <= k < |Events(node, at, level)| ==>
      Events(node, at, level)[k].level >= level
      && (Events(node, at, level)[k].at == TRAVERSE_CALLBACK_AT_FIRST || Events(node, at, level)[k].at == TRAVERSE_CALLBACK_AT_LAST)
      && AtBit(at, Events(node, at, level)[k].at)
    decreases node, 1
  {
    ChildrenCover(node, node.children, at, level + 1);
  }

  lemma {:induction false} ChildrenCover(parent: CaptureTree, cs: seq<CaptureTree>, at: int, level: int)
    requires forall c :: c in cs ==> c in parent.children
    ensures |ChildEvents(parent, cs, at, level)| == Visits(at) * ChildrenSize(parent, cs)
    ensures forall k :: 0 <= k < |ChildEvents(parent, cs, at, level)| ==>
      ChildEvents(parent, cs, at, level)[k].level >= level
      && (ChildEvents(parent, cs, at, level)[k].at == TRAVERSE_CALLBACK_AT_FIRST || ChildEvents(parent, cs, at, level)[k].at == TRAVERSE_CALLBACK_AT_LAST)
      && AtBit(at, ChildEvents(parent, cs, at, level)[k].at)
    decreases parent, 0, |cs|
  {
    if |cs| > 0 {
      assert cs[0] in parent.children;
      EventsCover(cs[0], at, level);
      ChildrenCover(parent, cs[1..], at, level);
    }
  }

  /** In pre-order the root comes first, at the starting depth; in
      post-order it comes last. */
  lemma RootPlacement(node: CaptureTree, level: int)
    ensures var evs := Events(node, TRAVERSE_CALLBACK_AT_FIRST, level);
      |evs| > 0 && evs[0] == Event(node.group, node.beg, node.end, level, TRAVERSE_CALLBACK_AT_FIRST)
    ensures var evs := Events(node, TRAVERSE_CALLBACK_AT_LAST, level);
      |evs| > 0 && evs[|evs| - 1] == Event(node.group, node.beg, node.end, level, TRAVERSE_CALLBACK_AT_LAST)
  {
  }

  // ---------------------------------------------------------------------------
  // The source's example
  // ---------------------------------------------------------------------------

  /** The capture history of `(?@a+)b(?@c+)` over "aabcc". */
  function ExampleTree(): CaptureTree {
    CaptureTree(0, 0, 5, [CaptureTree(1, 0, 2, []), CaptureTree(2, 3, 5, [])])
  }

  /** A callback that only listens. */
  function Listen(calls: seq<Event>): int {
    0
  }

  /** The groups of a run of calls. */
  function Groups(calls: seq<Event>): (gs: seq<int>)
    ensures |gs| == |calls| && forall k :: 0 <= k < |calls| ==> gs[k] == calls[k].group
  {
    seq(|calls|, (k: int) requires 0 <= k < |calls| => calls[k].group)
  }

  /** Pre-order visits groups 0, 1, 2 (the children one level down) and
      post-order visits 1, 2, 0; a listening callback lets both finish with
      0. */
  lemma ExampleOrders()
    ensures var w := CaptureTreeTraverse(Region(3, 3, [0, 0, 3], [5, 2, 5], Some(ExampleTree())), TRAVERSE_CALLBACK_AT_FIRST, Listen);
      w.result == 0 && Groups(w.calls) == [0, 1, 2] && w.calls[0].level == 0 && w.calls[1].level == 1 && w.calls[2].level == 1
    ensures var w := CaptureTreeTraverse(Region(3, 3, [0, 0, 3], [5, 2, 5], Some(ExampleTree())), TRAVERSE_CALLBACK_AT_LAST, Listen);
      w.result == 0 && Groups(w.calls) == [1, 2, 0]
  {
    var t := ExampleTree();
    var c1 := CaptureTree(1, 0, 2, []);
    var c2 := CaptureTree(2, 3, 5, []);
    assert t.children[1..] == [c2];
    assert ChildEvents(t, [c2], TRAVERSE_CALLBACK_AT_FIRST, 1) == [Event(2, 3, 5, 1, 1)];
    assert ChildEvents(t, [c2], TRAVERSE_CALLBACK_AT_LAST, 1) == [Event(2, 3, 5, 1, 2)];
    TraverseIsScan(t, TRAVERSE_CALLBACK_AT_FIRST, Listen, 0, []);
    TraverseIsScan(t, TRAVERSE_CALLBACK_AT_LAST, Listen, 0, []);
  }
}
