/** The frame-graph walker of `dumpReasonerSummary`: a memoised depth-first
    walk from the root frame the forward reasoner produced, counting the
    distinct reachable frames and recording every frame that still holds
    unknown apply nodes together with the stack under which it was first
    reached. */
module Frames {
  import opened Text

  /** Frames are compared by identity; an identifier stands for that identity. */
  type FrameId = nat

  /** What the reasoner tells about one frame: the number of its unknown
      apply nodes, its subframes (the values of `subframesFor(frame)`, in
      the mapping's order; a child may appear more than once), and the two
      parts of its printed descriptor. */
  datatype Frame = Frame(unknownApplyNodes: nat, subframes: seq<FrameId>, graphName: string, entryJovs: string)

  /** The reasoner's frames, by identity. */
  type Graph = map<FrameId, Frame>

  /** Every subframe of a known frame is itself known. */
  ghost predicate Closed(g: Graph) {
    forall f, c :: f in g && c in g[f].subframes ==> c in g
  }

  /** One entry of `unknownWithStacks`: a frame and the stack (path from
      the root, excluding the frame) under which it was first reached. */
  datatype Found = Found(frame: FrameId, stack: seq<FrameId>)

  /** The state of one walk: `allFrames` and `unknownWithStacks`. */
  datatype Walk = Walk(visited: set<FrameId>, found: seq<Found>)

  /** `checkFrame(frame, curStack)`. */
  function CheckFrame(g: Graph, frame: FrameId, stack: seq<FrameId>, w: Walk): (r: Walk)
    requires Closed(g) && frame in g
    ensures w.visited <= r.visited && frame in r.visited
    ensures w.found <= r.found
    decreases |g.Keys - w.visited|, 0
  {
    if frame in w.visited then w
    else
      var w1 := FirstVisit(g, frame, stack, w);
      assert g.Keys - w1.visited < g.Keys - w.visited by {
        assert frame in g.Keys - w.visited;
      }
      SubsetCard(g.Keys - w1.visited, g.Keys - w.visited);
      CheckSubframes(g, g[frame].subframes, stack + [frame], w1)
  }

  /** The first visit of a frame: it joins `allFrames`, and it is recorded
      with its stack when it has unknown apply nodes. */
  function FirstVisit(g: Graph, frame: FrameId, stack: seq<FrameId>, w: Walk): (r: Walk)
    requires frame in g
    ensures r.visited == w.visited + {frame}
    ensures g[frame].unknownApplyNodes > 0 ==> r.found == w.found + [Found(frame, stack)]
    ensures g[frame].unknownApplyNodes == 0 ==> r.found == w.found
  {
    Walk(w.visited + {frame}, if g[frame].unknownApplyNodes > 0 then w.found + [Found(frame, stack)] else w.found)
  }

  /** The loop of `checkFrame` over the subframes of the frame ending `stack`. */
  function CheckSubframes(g: Graph, children: seq<FrameId>, stack: seq<FrameId>, w: Walk): (r: Walk)
    requires Closed(g) && forall c :: c in children ==> c in g
    ensures w.visited <= r.visited
    ensures forall c :: c in children ==> c in r.visited
    ensures w.found <= r.found
    decreases |g.Keys - w.visited|, 1, |children|
  {
    if children == [] then w
    else
      var w1 := CheckFrame(g, children[0], stack, w);
      assert g.Keys - w1.visited <= g.Keys - w.visited;
      SubsetCard(g.Keys - w1.visited, g.Keys - w.visited);
      var r := CheckSubframes(g, children[1..], stack, w1);
      assert forall c :: c in children ==> c == children[0] || c in children[1..];
      r
  }

  lemma SubsetCard<T>(a: set<T>, b: set<T>)
    requires a <= b
    ensures |a| <= |b|
    ensures a < b ==> |a| < |b|
  {
    assert b == a + (b - a);
    if a < b {
      var x :| x in b - a;
      assert |b - a| >= |{x}|;
    }
  }

  // ---------------------------------------------------------------------
  // Paths and reachability

  /** `p` is a chain of subframe edges starting at `root`. */
  ghost predicate IsRootPath(g: Graph, root: FrameId, p: seq<FrameId>) {
    && |p| > 0
    && p[0] == root
    && (forall i :: 0 <= i < |p| ==> p[i] in g)
    && (forall i :: 0 <= i < |p| - 1 ==> p[i + 1] in g[p[i]].subframes)
  }

  ghost predicate PathTo(g: Graph, root: FrameId, p: seq<FrameId>, f: FrameId) {
    IsRootPath(g, root, p) && p[|p| - 1] == f
  }

  ghost predicate Reachable(g: Graph, root: FrameId, f: FrameId) {
    exists p :: PathTo(g, root, p, f)
  }

  /** The frames reachable from `root` through subframe edges, the root included. */
  ghost function ReachableSet(g: Graph, root: FrameId): set<FrameId> {
    set f | f in g.Keys && Reachable(g, root, f)
  }

  lemma ExtendRootPath(g: Graph, root: FrameId, p: seq<FrameId>, c: FrameId)
    requires Closed(g) && IsRootPath(g, root, p) && c in g[p[|p| - 1]].subframes
    ensures IsRootPath(g, root, p + [c])
  {
    var q := p + [c];
    forall i | 0 <= i < |q| - 1 ensures q[i + 1] in g[q[i]].subframes {
      if i < |p| - 1 {
        assert q[i] == p[i] && q[i + 1] == p[i + 1];
      }
    }
  }

  /** A set that holds the root and is closed under subframe edges holds
      every frame along every root path. */
  lemma {:induction false} PathStaysInClosedSet(g: Graph, root: FrameId, p: seq<FrameId>, v: set<FrameId>)
    requires IsRootPath(g, root, p) && root in v
    requires forall f, c :: f in v && f in g && c in g[f].subframes ==> c in v
    ensures forall i :: 0 <= i < |p| ==> p[i] in v
    decreases |p|
  {
    if |p| > 1 {
      var q := p[..|p| - 1];
      assert IsRootPath(g, root, q) by {
        assert forall i :: 0 <= i < |q| ==> q[i] == p[i];
      }
      PathStaysInClosedSet(g, root, q, v);
      assert p[|p| - 2] == q[|q| - 1];
      assert p[|p| - 1] in g[p[|p| - 2]].subframes;
      forall i | 0 <= i < |p| ensures p[i] in v {
        if i < |p| - 1 { assert p[i] == q[i]; }
      }
    }
  }

  // ---------------------------------------------------------------------
  // What a walk keeps true

  function FoundFrames(found: seq<Found>): (r: seq<FrameId>)
    ensures |r| == |found| && forall i :: 0 <= i < |found| ==> r[i] == found[i].frame
  {
    seq(|found|, i requires 0 <= i < |found| => found[i].frame)
  }

  /** The facts about `allFrames` and `unknownWithStacks` that hold between
      any two steps of a walk from `root`. */
  ghost predicate WalkInv(g: Graph, root: FrameId, w: Walk) {
    && w.visited <= g.Keys
    && (forall f :: f in w.visited ==> Reachable(g, root, f))
    && (forall i :: 0 <= i < |w.found| ==>
          && w.found[i].frame in w.visited
          && g[w.found[i].frame].unknownApplyNodes > 0
          && IsRootPath(g, root, w.found[i].stack + [w.found[i].frame]))
    && (forall i, j :: 0 <= i < j < |w.found| ==> w.found[i].frame != w.found[j].frame)
    && (forall f :: f in w.visited && g[f].unknownApplyNodes > 0 ==> f in FoundFrames(w.found))
  }

  /** Every visited frame outside `open` has had all its subframes visited. */
  ghost predicate ClosedExcept(g: Graph, v: set<FrameId>, open: set<FrameId>) {
    forall f, c :: f in v && f !in open && f in g && c in g[f].subframes ==> c in v
  }

  /** The first visit of `frame` (its insertion into `allFrames` and, when
      it holds unknown apply nodes, its record) keeps the walk invariant. */
  lemma FirstVisitSound(g: Graph, root: FrameId, frame: FrameId, stack: seq<FrameId>, w: Walk)
    requires Closed(g) && frame in g && frame !in w.visited
    requires WalkInv(g, root, w)
    requires IsRootPath(g, root, stack + [frame])
    ensures WalkInv(g, root, FirstVisit(g, frame, stack, w))
  {
    assert PathTo(g, root, stack + [frame], frame);
    if g[frame].unknownApplyNodes > 0 {
      RecordSound(g, root, frame, stack, w);
    }
  }

  /** Appending the record of a newly visited frame keeps the found list
      distinct and complete. */
  lemma RecordSound(g: Graph, root: FrameId, frame: FrameId, stack: seq<FrameId>, w: Walk)
    requires Closed(g) && frame in g && frame !in w.visited
    requires g[frame].unknownApplyNodes > 0 && Reachable(g, root, frame)
    requires WalkInv(g, root, w)
    requires IsRootPath(g, root, stack + [frame])
    ensures WalkInv(g, root, Walk(w.visited + {frame}, w.found + [Found(frame, stack)]))
  {
    var found := w.found + [Found(frame, stack)];
    var v := w.visited + {frame};
    assert forall i :: 0 <= i < |w.found| ==> found[i] == w.found[i];
    assert found[|found| - 1] == Found(frame, stack);
    assert forall i :: 0 <= i < |found| ==>
      && found[i].frame in v
      && g[found[i].frame].unknownApplyNodes > 0
      && IsRootPath(g, root, found[i].stack + [found[i].frame]);
    assert forall i, j :: 0 <= i < j < |found| ==> found[i].frame != found[j].frame;
    CompleteAfterRecord(g, frame, stack, w);
  }

  lemma CompleteAfterRecord(g: Graph, frame: FrameId, stack: seq<FrameId>, w: Walk)
    requires frame in g && w.visited <= g.Keys
    requires forall f :: f in w.visited && g[f].unknownApplyNodes > 0 ==> f in FoundFrames(w.found)
    ensures forall f :: f in w.visited + {frame} && g[f].unknownApplyNodes > 0 ==>
              f in FoundFrames(w.found + [Found(frame, stack)])
  {
    var found := w.found + [Found(frame, stack)];
    forall f | f in w.visited + {frame} && g[f].unknownApplyNodes > 0 ensures f in FoundFrames(found) {
      if f == frame {
        assert FoundFrames(found)[|found| - 1] == frame;
      } else {
        var i :| 0 <= i < |w.found| && FoundFrames(w.found)[i] == f;
        assert FoundFrames(found)[i] == f;
      }
    }
  }

  lemma {:induction false} CheckFrameSound(g: Graph, root: FrameId, frame: FrameId, stack: seq<FrameId>, w: Walk)
    requires Closed(g) && frame in g
    requires WalkInv(g, root, w)
    requires IsRootPath(g, root, stack + [frame])
    requires forall f :: f in stack ==> f in w.visited
    requires ClosedExcept(g, w.visited, set f | f in stack)
    ensures WalkInv(g, root, CheckFrame(g, frame, stack, w))
    ensures ClosedExcept(g, CheckFrame(g, frame, stack, w).visited, set f | f in stack)
    decreases |g.Keys - w.visited|, 0
  {
    if frame !in w.visited {
      var path := stack + [frame];
      var w1 := FirstVisit(g, frame, stack, w);
      assert g.Keys - w1.visited < g.Keys - w.visited by {
        assert frame in g.Keys - w.visited;
      }
      SubsetCard(g.Keys - w1.visited, g.Keys - w.visited);
      FirstVisitSound(g, root, frame, stack, w);
      var open1 := set f | f in path;
      assert ClosedExcept(g, w1.visited, open1);
      assert forall f :: f in path ==> f in w1.visited;
      assert path[|path| - 1] == frame;
      CheckSubframesSound(g, root, g[frame].subframes, path, w1);
      var r := CheckSubframes(g, g[frame].subframes, path, w1);
      assert r == CheckFrame(g, frame, stack, w);
      FinishFrame(g, frame, stack, r.visited);
    }
  }

  /** Once every subframe of `frame` is visited, `frame` leaves the open stack. */
  lemma FinishFrame(g: Graph, frame: FrameId, stack: seq<FrameId>, v: set<FrameId>)
    requires frame in g
    requires ClosedExcept(g, v, set f | f in stack + [frame])
    requires forall c :: c in g[frame].subframes ==> c in v
    ensures ClosedExcept(g, v, set f | f in stack)
  {
    forall f, c | f in v && f !in (set f | f in stack) && f in g && c in g[f].subframes
      ensures c in v
    {
      if f != frame {
        assert f !in (set f | f in stack + [frame]);
      }
    }
  }

  lemma {:induction false} CheckSubframesSound(g: Graph, root: FrameId, children: seq<FrameId>, stack: seq<FrameId>, w: Walk)
    requires Closed(g) && forall c :: c in children ==> c in g
    requires WalkInv(g, root, w)
    requires IsRootPath(g, root, stack)
    requires forall c :: c in children ==> c in g[stack[|stack| - 1]].subframes
    requires forall f :: f in stack ==> f in w.visited
    requires ClosedExcept(g, w.visited, set f | f in stack)
    ensures WalkInv(g, root, CheckSubframes(g, children, stack, w))
    ensures ClosedExcept(g, CheckSubframes(g, children, stack, w).visited, set f | f in stack)
    decreases |g.Keys - w.visited|, 1, |children|
  {
    if children != [] {
      assert children[0] in children;
      ExtendRootPath(g, root, stack, children[0]);
      CheckFrameSound(g, root, children[0], stack, w);
      var w1 := CheckFrame(g, children[0], stack, w);
      assert g.Keys - w1.visited <= g.Keys - w.visited;
      SubsetCard(g.Keys - w1.visited, g.Keys - w.visited);
      assert forall c :: c in children[1..] ==> c in children;
      CheckSubframesSound(g, root, children[1..], stack, w1);
    }
  }

  // ---------------------------------------------------------------------
  // The summary

  /** The figures `dumpReasonerSummary` reports. */
  datatype Summary = Summary(
    reachableFrames: nat,
    allFrameCount: int,
    badApplyNodes: nat,
    unknownWithStacks: seq<Found>)

  /** The loop summing the unknown apply nodes of the recorded frames. */
  function BadApplyNodes(g: Graph, found: seq<Found>): (r: nat)
    requires forall i :: 0 <= i < |found| ==> found[i].frame in g
    ensures r == 0 <==> forall i :: 0 <= i < |found| ==> g[found[i].frame].unknownApplyNodes == 0
    ensures r >= |found| || exists i :: 0 <= i < |found| && g[found[i].frame].unknownApplyNodes == 0
  {
    if found == [] then 0
    else
      var rest := BadApplyNodes(g, found[1..]);
      assert forall i :: 1 <= i < |found| ==> found[i] == found[1..][i - 1];
      g[found[0].frame].unknownApplyNodes + rest
  }

  /** `dumpReasonerSummary` over the frame graph reached from `root`;
      `allFrameCount` is the reasoner's own total, reported as given. */
  function DumpReasonerSummary(g: Graph, root: FrameId, allFrameCount: int): (s: Summary)
    requires Closed(g) && root in g
    ensures s.reachableFrames == |ReachableSet(g, root)|
    ensures s.allFrameCount == allFrameCount
    ensures forall f :: f in FoundFrames(s.unknownWithStacks) <==>
              f in ReachableSet(g, root) && g[f].unknownApplyNodes > 0
    ensures forall i, j :: 0 <= i < j < |s.unknownWithStacks| ==>
              s.unknownWithStacks[i].frame != s.unknownWithStacks[j].frame
    ensures forall i :: 0 <= i < |s.unknownWithStacks| ==>
              IsRootPath(g, root, s.unknownWithStacks[i].stack + [s.unknownWithStacks[i].frame])
    ensures s.badApplyNodes >= |s.unknownWithStacks|
    ensures s.badApplyNodes != 0 <==> exists f :: f in ReachableSet(g, root) && g[f].unknownApplyNodes > 0
  {
    var w := CheckFrame(g, root, [], Walk({}, []));
    RootWalkSound(g, root);
    var bad := BadApplyNodes(g, w.found);
    assert forall f :: f in FoundFrames(w.found) ==> f in w.visited && g[f].unknownApplyNodes > 0;
    assert bad != 0 ==> exists f :: f in ReachableSet(g, root) && g[f].unknownApplyNodes > 0 by {
      if bad != 0 {
        assert FoundFrames(w.found)[0] in w.visited;
      }
    }
    Summary(|w.visited|, allFrameCount, bad, w.found)
  }

  /** The walk from the root visits exactly the reachable frames and ends
      in the walk invariant. */
  lemma RootWalkSound(g: Graph, root: FrameId)
    requires Closed(g) && root in g
    ensures WalkInv(g, root, CheckFrame(g, root, [], Walk({}, [])))
    ensures CheckFrame(g, root, [], Walk({}, [])).visited == ReachableSet(g, root)
  {
    var w0 := Walk({}, []);
    assert PathTo(g, root, [root], root);
    CheckFrameSound(g, root, root, [], w0);
    var w := CheckFrame(g, root, [], w0);
    forall f | f in ReachableSet(g, root) ensures f in w.visited {
      var p :| PathTo(g, root, p, f);
      PathStaysInClosedSet(g, root, p, w.visited);
    }
  }

  /** Whether the closing "reaching N of M frames with K bad nodes" line is printed. */
  function PrintsSummaryLine(s: Summary): bool {
    s.badApplyNodes != 0
  }

  /** The indented lines printed under "Found N in": one normalised
      descriptor per frame of the stack, then the frame itself. */
  function FrameLines(g: Graph, e: Found): (lines: seq<string>)
    requires e.frame in g && forall f :: f in e.stack ==> f in g
    ensures |lines| == |e.stack| + 1
    ensures forall i :: 0 <= i < |lines| ==> Normalized(lines[i])
    ensures forall i :: 0 <= i < |lines| ==>
              var f := (e.stack + [e.frame])[i];
              NonBlank(lines[i]) == NonBlank(g[f].graphName + " " + g[f].entryJovs)
    ensures forall i :: 0 <= i < |lines| ==>
              var f := (e.stack + [e.frame])[i];
              lines[i] == Squeeze(Replace(Replace(g[f].graphName + " " + g[f].entryJovs, '\t', ' '), '\n', ' '))
  {
    var path := e.stack + [e.frame];
    var lines := seq(|path|, i requires 0 <= i < |path| => ReplaceWhitespace(g[path[i]].graphName + " " + g[path[i]].entryJovs));
    assert forall i :: 0 <= i < |lines| ==> NonBlank(lines[i]) == NonBlank(g[path[i]].graphName + " " + g[path[i]].entryJovs) by {
      forall i | 0 <= i < |lines| {
        ReplaceWhitespaceKeepsText(g[path[i]].graphName + " " + g[path[i]].entryJovs);
      }
    }
    forall i | 0 <= i < |lines| {
      ReplaceWhitespaceIsSqueeze(g[path[i]].graphName + " " + g[path[i]].entryJovs);
    }
    lines
  }

  /** Reference total: the unknown apply nodes of a set of frames, in no
      particular order. */
  ghost function UnknownTotal(g: Graph, s: set<FrameId>): nat
    requires s <= g.Keys
    decreases s
  {
    if s == {} then 0
    else
      var x :| x in s;
      g[x].unknownApplyNodes + UnknownTotal(g, s - {x})
  }

  /** Any frame of the set may be taken out first. */
  lemma {:induction false} UnknownTotalRemove(g: Graph, s: set<FrameId>, y: FrameId)
    requires s <= g.Keys && y in s
    ensures UnknownTotal(g, s) == g[y].unknownApplyNodes + UnknownTotal(g, s - {y})
    decreases s
  {
    var x :| x in s && UnknownTotal(g, s) == g[x].unknownApplyNodes + UnknownTotal(g, s - {x});
    if x != y {
      UnknownTotalRemove(g, s - {x}, y);
      UnknownTotalRemove(g, s - {y}, x);
      assert s - {x} - {y} == s - {y} - {x};
    }
  }

  /** The frames a found list records, as a set. */
  ghost function FoundSet(found: seq<Found>): set<FrameId> {
    set f | f in FoundFrames(found)
  }

  lemma FoundSetTail(found: seq<Found>)
    requires |found| > 0
    requires forall j :: 0 < j < |found| ==> found[0].frame != found[j].frame
    ensures FoundSet(found[1..]) == FoundSet(found) - {found[0].frame}
  {
    var tail := found[1..];
    forall f ensures f in FoundSet(tail) <==> f in FoundSet(found) - {found[0].frame} {
      if f in FoundSet(tail) {
        var k :| 0 <= k < |tail| && FoundFrames(tail)[k] == f;
        assert FoundFrames(found)[k + 1] == f;
      }
      if f in FoundSet(found) - {found[0].frame} {
        var k :| 0 <= k < |found| && FoundFrames(found)[k] == f;
        assert FoundFrames(tail)[k - 1] == f;
      }
    }
    assert FoundFrames(found)[0] == found[0].frame;
  }

  /** Summing along a list of distinct frames gives the order-free total
      of the frames it lists. */
  lemma {:induction false} BadApplyNodesIsTotal(g: Graph, found: seq<Found>)
    requires forall i :: 0 <= i < |found| ==> found[i].frame in g
    requires forall i, j :: 0 <= i < j < |found| ==> found[i].frame != found[j].frame
    ensures FoundSet(found) <= g.Keys
    ensures BadApplyNodes(g, found) == UnknownTotal(g, FoundSet(found))
  {
    if found == [] {
      assert FoundSet(found) == {};
    } else {
      var tail := found[1..];
      assert forall i :: 0 <= i < |tail| ==> tail[i] == found[i + 1];
      FoundSetTail(found);
      BadApplyNodesIsTotal(g, tail);
      assert found[0].frame in FoundSet(found) by {
        assert FoundFrames(found)[0] == found[0].frame;
      }
      UnknownTotalRemove(g, FoundSet(found), found[0].frame);
    }
  }

  /** The frames the summary's bad-node count is about: the reachable
      frames that still hold unknown apply nodes. */
  ghost function UnknownFrames(g: Graph, root: FrameId): set<FrameId> {
    set f | f in ReachableSet(g, root) && g[f].unknownApplyNodes > 0
  }

  /** `badApplyNodes` is the total of the unknown apply nodes over the
      reachable frames that have any, each frame counted once, whatever
      order the walk visited them in. */
  lemma BadNodesAreReachableTotal(g: Graph, root: FrameId, allFrameCount: int)
    requires Closed(g) && root in g
    ensures DumpReasonerSummary(g, root, allFrameCount).badApplyNodes == UnknownTotal(g, UnknownFrames(g, root))
  {
    var s := DumpReasonerSummary(g, root, allFrameCount);
    var found := s.unknownWithStacks;
    assert s.badApplyNodes == BadApplyNodes(g, found);
    assert FoundSet(found) == UnknownFrames(g, root);
    BadApplyNodesIsTotal(g, found);
  }

  /** With no unknown apply node anywhere, nothing is recorded and the
      closing summary line is suppressed. */
  lemma FullyResolvedGraphReportsNothing(g: Graph, root: FrameId, allFrameCount: int)
    requires Closed(g) && root in g
    requires forall f :: f in g ==> g[f].unknownApplyNodes == 0
    ensures DumpReasonerSummary(g, root, allFrameCount).unknownWithStacks == []
    ensures !PrintsSummaryLine(DumpReasonerSummary(g, root, allFrameCount))
  {
  }

  /** The diamond A -> {B, C} -> D, with unknown apply nodes only in D. */
  function Diamond(): Graph {
    map[0 := Frame(0, [1, 2], "A", ""), 1 := Frame(0, [3], "B", ""),
        2 := Frame(0, [3], "C", ""), 3 := Frame(2, [], "D", "")]
  }

  lemma DiamondClosed()
    ensures Closed(Diamond())
  {
  }

  lemma DiamondReachable()
    ensures ReachableSet(Diamond(), 0) == {0, 1, 2, 3}
  {
    var g := Diamond();
    assert g.Keys == {0, 1, 2, 3};
    assert IsRootPath(g, 0, [0]) && [0][0] == 0;
    assert IsRootPath(g, 0, [0, 1]) && [0, 1][1] == 1;
    assert IsRootPath(g, 0, [0, 2]) && [0, 2][1] == 2;
    assert IsRootPath(g, 0, [0, 1, 3]) && [0, 1, 3][2] == 3;
    assert PathTo(g, 0, [0], 0);
    assert PathTo(g, 0, [0, 1], 1);
    assert PathTo(g, 0, [0, 2], 2);
    assert PathTo(g, 0, [0, 1, 3], 3);
  }

  /** In the diamond the shared frame D is counted once: four reachable
      frames and a single record, for D. */
  lemma DiamondCountsSharedFrameOnce()
    ensures DumpReasonerSummary(Diamond(), 0, 4).reachableFrames == 4
    ensures |DumpReasonerSummary(Diamond(), 0, 4).unknownWithStacks| == 1
    ensures DumpReasonerSummary(Diamond(), 0, 4).unknownWithStacks[0].frame == 3
  {
    DiamondClosed();
    DiamondReachable();
    var g := Diamond();
    var s := DumpReasonerSummary(g, 0, 4);
    var fs := FoundFrames(s.unknownWithStacks);
    assert forall f :: f in fs <==> f == 3 by {
      forall f ensures f in fs <==> f == 3 {
        assert f in ReachableSet(g, 0) && g[f].unknownApplyNodes > 0 <==> f == 3;
      }
    }
    assert 3 in fs;
  }
}
