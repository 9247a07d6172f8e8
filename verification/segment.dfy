/**
 * Splitting the input into segments (packages/core/src/segment.ts).
 * `getBasicInputSegments` cuts the text into maximal runs of one character
 * class; `getOptimizedSegments` picks, for every run, the mode that encodes
 * it (its own class or a wider one) so that the summed bit cost is least,
 * by a shortest-path search over a layered graph, and then merges
 * neighbouring runs that ended up in the same mode.
 */
module Segmentation {
  import opened Types
  import opened Constants
  import opened Utils
  import Utf8
  import opened ShortestPath

  // ---------------------------------------------------------------- getBasicInputSegments

  /**
   * How much of `s` one match of the segmenting expression takes: the
   * longest run of characters of `s[0]`'s class at its front. The three
   * alternatives of the expression are the three classes, which cover every
   * character, so a match always starts where the previous one ended.
   */
  function RunLength(s: string): (n: nat)
    requires |s| > 0
    ensures 1 <= n <= |s|
    ensures InClass(s[..n], ClassOf(s[0]))
    ensures n < |s| ==> ClassOf(s[n]) != ClassOf(s[0])
  {
    if |s| == 1 || ClassOf(s[1]) != ClassOf(s[0]) then 1
    else
      var m := RunLength(s[1..]);
      assert s[..m + 1] == [s[0]] + s[1..][..m];
      m + 1
  }

  /** `getBasicInputSegments`: one segment per match, in the mode of the class it matched. */
  function BasicSegments(s: string): seq<Segment>
    decreases |s|
  {
    if |s| == 0 then []
    else
      var n := RunLength(s);
      [Segment(s[..n], ClassOf(s[0]))] + BasicSegments(s[n..])
  }

  /** `segs` cuts `s` into non-empty runs of one character class each, and neighbouring runs differ in class. */
  predicate ClassRuns(segs: seq<Segment>, s: string)
  {
    && Concat(segs) == s
    && (forall i | 0 <= i < |segs| :: segs[i].value != [] && InClass(segs[i].value, segs[i].mode))
    && Alternates(segs)
  }

  lemma ConcatCons(x: Segment, rest: seq<Segment>)
    ensures Concat([x] + rest) == x.value + Concat(rest)
  {
    ConcatAppend([x], rest);
    ConcatSingle(x);
  }

  /** The basic segments are class runs of the input. */
  lemma {:induction false} BasicSegmentsRuns(s: string)
    ensures ClassRuns(BasicSegments(s), s)
    decreases |s|
  {
    if |s| > 0 {
      var n := RunLength(s);
      var head := Segment(s[..n], ClassOf(s[0]));
      var rest := BasicSegments(s[n..]);
      BasicSegmentsRuns(s[n..]);
      ConcatCons(head, rest);
      assert s[..n] + s[n..] == s;
      if n < |s| {
        assert rest[0].mode == ClassOf(s[n]);
      }
      var segs := [head] + rest;
      forall i | 0 < i < |segs|
        ensures segs[i - 1].mode != segs[i].mode
      {
        if i > 1 {
          assert segs[i - 1] == rest[i - 2] && segs[i] == rest[i - 1];
        }
      }
    }
  }

  /** A run of `s[0]`'s class at the front of `s` that the next character ends is the run one match takes. */
  lemma {:induction false} RunLengthUnique(s: string, m: nat)
    requires 1 <= m <= |s| && InClass(s[..m], ClassOf(s[0]))
    requires m < |s| ==> ClassOf(s[m]) != ClassOf(s[0])
    ensures m == RunLength(s)
    decreases |s|
  {
    if m > 1 {
      assert s[..m][1] == s[1];
      var t := s[1..];
      assert t[..m - 1] == s[..m][1..];
      RunLengthUnique(t, m - 1);
    }
  }

  /** The class runs of a string are unique: any such cut is the one `getBasicInputSegments` makes. */
  /** Dropping the first run leaves runs of the rest of the text. */
  lemma ClassRunsTail(segs: seq<Segment>, t: string)
    requires |segs| > 0 && Concat(segs[1..]) == t
    requires forall i | 0 <= i < |segs| :: segs[i].value != [] && InClass(segs[i].value, segs[i].mode)
    requires Alternates(segs)
    ensures ClassRuns(segs[1..], t)
  {
    var rest := segs[1..];
    forall i | 0 < i < |rest|
      ensures rest[i - 1].mode != rest[i].mode
    {
      assert rest[i - 1] == segs[i] && rest[i] == segs[i + 1];
    }
  }

  lemma {:induction false} BasicSegmentsUnique(segs: seq<Segment>, s: string)
    requires ClassRuns(segs, s)
    ensures segs == BasicSegments(s)
    decreases |segs|
  {
    if |segs| > 0 {
      var head, rest := segs[0], segs[1..];
      assert segs == [head] + rest;
      ConcatCons(head, rest);
      var m := |head.value|;
      assert s[..m] == head.value;
      assert head.value[0] == s[0];
      assert head.mode == ClassOf(s[0]);
      if |rest| > 0 {
        ConcatCons(rest[0], rest[1..]);
        assert rest == [rest[0]] + rest[1..];
        assert s[m] == rest[0].value[0];
        assert segs[0].mode != segs[1].mode;
      }
      RunLengthUnique(s, m);
      assert s[m..] == Concat(rest);
      ClassRunsTail(segs, s[m..]);
      BasicSegmentsUnique(rest, s[m..]);
    }
  }

  // ---------------------------------------------------------------- the cost of a run

  /** The modes a run may be encoded in (`connects`): its own, and the wider modes whose characters include it. */
  function Connects(seg: Segment): (c: seq<Segment>)
    ensures 1 <= |c| <= 3 && c[0] == seg
    ensures forall j | 0 <= j < |c| :: c[j].value == seg.value
  {
    match seg.mode
    case Numeric => [seg, Segment(seg.value, AlphaNumeric), Segment(seg.value, Byte)]
    case AlphaNumeric => [seg, Segment(seg.value, Byte)]
    case _ => [seg]
  }

  /** Every way of encoding a run is a mode that can carry it, and no mode is offered twice. */
  lemma ConnectsEncodable(seg: Segment, j: nat, k: nat)
    requires Encodable(seg.value, seg.mode) && j < |Connects(seg)| && k < |Connects(seg)|
    ensures Encodable(Connects(seg)[j].value, Connects(seg)[j].mode)
    ensures j != k ==> Connects(seg)[j].mode != Connects(seg)[k].mode
  {
  }

  /** `getBitsLength` of a numeric run of `n` digits. */
  function NumericPayload(n: nat): nat
  {
    10 * (n / 3) + (if n % 3 != 0 then n % 3 * 3 + 1 else 0)
  }

  /** `getBitsLength` of an alphanumeric run of `n` characters. */
  function AlphaPayload(n: nat): nat
  {
    11 * (n / 2) + 6 * (n % 2)
  }

  lemma NumericPayloadStep(n: nat)
    ensures NumericPayload(n) <= NumericPayload(n + 1)
  {
    var q, r := n / 3, n % 3;
    assert n == 3 * q + r;
    if r == 2 {
      assert (n + 1) / 3 == q + 1 && (n + 1) % 3 == 0;
    } else {
      assert (n + 1) / 3 == q && (n + 1) % 3 == r + 1;
    }
  }

  lemma AlphaPayloadStep(n: nat)
    ensures AlphaPayload(n) <= AlphaPayload(n + 1)
  {
    var q, r := n / 2, n % 2;
    assert n == 2 * q + r;
    if r == 1 {
      assert (n + 1) / 2 == q + 1 && (n + 1) % 2 == 0;
    } else {
      assert (n + 1) / 2 == q && (n + 1) % 2 == 1;
    }
  }

  lemma {:induction false} PayloadMonotone(a: nat, b: nat)
    requires a <= b
    ensures NumericPayload(a) <= NumericPayload(b) && AlphaPayload(a) <= AlphaPayload(b)
    decreases b - a
  {
    if a < b {
      NumericPayloadStep(a);
      AlphaPayloadStep(a);
      PayloadMonotone(a + 1, b);
    }
  }

  /** Appending characters to a run never makes its payload shorter. */
  lemma BitsLengthGrows(a: string, b: string, m: Mode)
    ensures BitsLength(Segment(a, m)) <= BitsLength(Segment(a + b, m))
  {
    PayloadMonotone(|a|, |a + b|);
    Utf8.EncodeAppend(a, b);
  }

  /**
   * The weight of the edge into the node for `to` from the node for `from`
   * (`None` for the start node): when the modes agree, what appending `to`
   * adds to `from`'s payload; otherwise `to`'s payload plus a mode indicator
   * and a count field of the regime `cc`.
   */
  function Weight(from: Option<Segment>, to: Segment, cc: nat): nat
    requires cc < 3
  {
    if from.Some? && from.value.mode == to.mode then
      BitsLengthGrows(from.value.value, to.value, to.mode);
      BitsLength(Segment(from.value.value + to.value, to.mode)) - BitsLength(from.value)
    else
      BitsLength(to) + ModeIndicatorBits + CharacterCountIndicator(to.mode)[cc]
  }

  // ---------------------------------------------------------------- merging neighbours

  /**
   * The reference merge: neighbouring segments of the same mode become one
   * segment holding both texts.
   */
  function MergeRuns(xs: seq<Segment>): (data: seq<Segment>)
    ensures |xs| > 0 ==> |data| > 0 && data[|data| - 1].mode == xs[|xs| - 1].mode
  {
    if |xs| == 0 then []
    else
      var data := MergeRuns(xs[..|xs| - 1]);
      var x := xs[|xs| - 1];
      if |xs| > 1 && xs[|xs| - 2].mode == x.mode then
        data[..|data| - 1] + [Segment(data[|data| - 1].value + x.value, x.mode)]
      else
        data + [x]
  }

  /** `s` is a text mode `m` can carry, with at least one character. */
  predicate Carries(s: string, m: Mode)
  {
    s != [] && Encodable(s, m)
  }

  /** Every segment is a non-empty text its mode can carry. */
  predicate AllCarried(segs: seq<Segment>)
  {
    forall i | 0 <= i < |segs| :: Carries(segs[i].value, segs[i].mode)
  }

  /** No two neighbouring segments share a mode. */
  predicate Alternates(segs: seq<Segment>)
  {
    forall i | 0 < i < |segs| :: segs[i - 1].mode != segs[i].mode
  }

  lemma EncodableAppend(a: string, b: string, m: Mode)
    requires Encodable(a, m) && Encodable(b, m)
    ensures Encodable(a + b, m)
  {
    var s := a + b;
    if m == Numeric {
      assert forall i | 0 <= i < |s| :: ClassOf(s[i]) == if i < |a| then ClassOf(a[i]) else ClassOf(b[i - |a|]);
    } else if m == AlphaNumeric {
      assert forall i | 0 <= i < |s| :: ClassOf(s[i]) == if i < |a| then ClassOf(a[i]) else ClassOf(b[i - |a|]);
    }
  }

  /** Merging keeps the text. */
  lemma {:induction false} MergeRunsText(xs: seq<Segment>)
    ensures Concat(MergeRuns(xs)) == Concat(xs)
  {
    if |xs| > 0 {
      var init, x := xs[..|xs| - 1], xs[|xs| - 1];
      var prior := MergeRuns(init);
      MergeRunsText(init);
      if |xs| > 1 && xs[|xs| - 2].mode == x.mode {
        var last := prior[|prior| - 1];
        var merged := Segment(last.value + x.value, x.mode);
        assert prior == prior[..|prior| - 1] + [last];
        ConcatAppend(prior[..|prior| - 1], [last]);
        ConcatAppend(prior[..|prior| - 1], [merged]);
        ConcatSingle(last);
        ConcatSingle(merged);
      } else {
        ConcatAppend(prior, [x]);
        ConcatSingle(x);
      }
    }
  }

  /** Merging keeps every segment a non-empty text its mode can carry. */
  lemma {:induction false} MergeRunsCarries(xs: seq<Segment>)
    requires AllCarried(xs)
    ensures AllCarried(MergeRuns(xs))
  {
    if |xs| > 0 {
      var init, x := xs[..|xs| - 1], xs[|xs| - 1];
      var prior := MergeRuns(init);
      assert forall i | 0 <= i < |init| :: init[i] == xs[i];
      MergeRunsCarries(init);
      var data := MergeRuns(xs);
      if |xs| > 1 && xs[|xs| - 2].mode == x.mode {
        var last := prior[|prior| - 1];
        var merged := Segment(last.value + x.value, x.mode);
        assert data == prior[..|prior| - 1] + [merged];
        assert last.mode == x.mode;
        assert Carries(last.value, last.mode);
        EncodableAppend(last.value, x.value, x.mode);
        assert Carries(merged.value, merged.mode);
        forall i | 0 <= i < |data|
          ensures Carries(data[i].value, data[i].mode)
        {
          if i < |prior| - 1 {
            assert data[i] == prior[i];
          }
        }
      } else {
        assert data == prior + [x];
        forall i | 0 <= i < |data|
          ensures Carries(data[i].value, data[i].mode)
        {
          if i < |prior| {
            assert data[i] == prior[i];
          }
        }
      }
    }
  }

  /** After merging no two neighbouring segments share a mode. */
  lemma {:induction false} MergeRunsAlternate(xs: seq<Segment>)
    ensures Alternates(MergeRuns(xs))
  {
    if |xs| > 0 {
      var init, x := xs[..|xs| - 1], xs[|xs| - 1];
      var prior := MergeRuns(init);
      MergeRunsAlternate(init);
      var data := MergeRuns(xs);
      if |xs| > 1 && xs[|xs| - 2].mode == x.mode {
        var last := prior[|prior| - 1];
        var merged := Segment(last.value + x.value, x.mode);
        assert data == prior[..|prior| - 1] + [merged];
        assert merged.mode == last.mode;
        forall i | 0 < i < |data|
          ensures data[i - 1].mode != data[i].mode
        {
          assert data[i - 1] == prior[i - 1];
          assert data[i].mode == prior[i].mode;
          assert prior[i - 1].mode != prior[i].mode;
        }
      } else {
        assert data == prior + [x];
        forall i | 0 < i < |data|
          ensures data[i - 1].mode != data[i].mode
        {
          assert data[i - 1] == prior[i - 1];
          if i < |prior| {
            assert data[i] == prior[i];
          } else {
            assert prior[i - 1].mode == xs[|xs| - 2].mode;
          }
        }
      }
    }
  }

  // ---------------------------------------------------------------- the layered graph

  /*
   * Node numbering. `getOptimizedSegments` keys the node of run `i` encoded its `j`-th
   * way as the string of `i` followed by `j` (`j` < 3, so keys are distinct),
   * next to the keys "start" and "end". Here "start" is 0, run `i`'s `j`-th
   * way is `1 + 3 * i + j`, and "end" is `3 * n + 1`. Slots of runs with
   * fewer than three ways are nodes without edges, which the search never
   * reaches.
   */

  const StartNode: nat := 0

  function NodeId(i: nat, j: nat): nat
  {
    1 + 3 * i + j
  }

  function EndNode(n: nat): nat
  {
    3 * n + 1
  }

  /** `nodes[key]`: the segment a node stands for; the start, the end and unused slots stand for none. */
  function NodeSegment(segs: seq<Segment>, id: nat): Option<Segment>
  {
    if 1 <= id <= 3 * |segs| then WaySegment(segs, (id - 1) / 3, (id - 1) % 3) else None
  }

  /** Run `i` encoded its `j`-th way, if it has one. */
  function WaySegment(segs: seq<Segment>, i: nat, j: nat): Option<Segment>
    requires i < |segs|
  {
    if j < |Connects(segs[i])| then Some(Connects(segs[i])[j]) else None
  }

  /** The edges into run `i`'s nodes from a node standing for `from`, in the order of `connects`. */
  function LayerEdges(segs: seq<Segment>, cc: nat, from: Option<Segment>, i: nat): (es: seq<Edge>)
    requires i < |segs| && cc < 3
    ensures |es| == |Connects(segs[i])|
    ensures forall j | 0 <= j < |es| :: es[j] == Edge(NodeId(i, j), Weight(from, Connects(segs[i])[j], cc))
  {
    var c := Connects(segs[i]);
    seq(|c|, j requires 0 <= j < |c| => Edge(NodeId(i, j), Weight(from, c[j], cc)))
  }

  /**
   * The out-edges of a node: the start node leads to the first run's nodes,
   * a node of the last run leads to the end with weight 0, any other run's
   * node leads to the next run's nodes; the end and unused slots have none.
   */
  function OutEdges(segs: seq<Segment>, cc: nat, id: nat): seq<Edge>
    requires cc < 3
  {
    if id == StartNode then
      if |segs| == 0 then [] else LayerEdges(segs, cc, None, 0)
    else if id <= 3 * |segs| then
      WayEdges(segs, cc, (id - 1) / 3, (id - 1) % 3)
    else
      []
  }

  /** The out-edges of the node for run `i`'s `j`-th way. */
  function WayEdges(segs: seq<Segment>, cc: nat, i: nat, j: nat): seq<Edge>
    requires cc < 3 && i < |segs|
  {
    if j >= |Connects(segs[i])| then []
    else if i + 1 == |segs| then [Edge(EndNode(|segs|), 0)]
    else LayerEdges(segs, cc, Some(Connects(segs[i])[j]), i + 1)
  }

  /** The graph `getOptimizedSegments` builds, with the end node added. */
  function SegmentGraph(segs: seq<Segment>, cc: nat): (g: Graph)
    requires cc < 3
    ensures |g| == 3 * |segs| + 2
    ensures forall id | 0 <= id < |g| :: g[id] == OutEdges(segs, cc, id)
  {
    seq(3 * |segs| + 2, id requires 0 <= id < 3 * |segs| + 2 => OutEdges(segs, cc, id))
  }

  /** A node id other than the start's names a run and one of three slots. */
  lemma NodeIdParts(id: nat)
    requires id >= 1
    ensures id == NodeId((id - 1) / 3, (id - 1) % 3) && (id - 1) % 3 < 3
  {
  }

  /** The node of run `i`'s `j`-th way: what it stands for and where its edges go. */
  lemma WayNode(segs: seq<Segment>, cc: nat, i: nat, j: nat)
    requires cc < 3 && i < |segs| && j < 3
    ensures NodeSegment(segs, NodeId(i, j)) == WaySegment(segs, i, j)
    ensures OutEdges(segs, cc, NodeId(i, j)) == WayEdges(segs, cc, i, j)
  {
    var id := NodeId(i, j);
    assert (id - 1) / 3 == i && (id - 1) % 3 == j;
  }

  /** The graph is closed and every edge leads to a higher-numbered node. */
  lemma SegmentGraphShape(segs: seq<Segment>, cc: nat)
    requires cc < 3
    ensures Closed(SegmentGraph(segs, cc)) && Forward(SegmentGraph(segs, cc))
  {
    var g: Graph := SegmentGraph(segs, cc);
    forall u: nat | u < |g|
      ensures forall k | 0 <= k < |g[u]| :: u < g[u][k].to < |g|
    {
      if u != StartNode {
        NodeIdParts(u);
        var i, j := (u - 1) / 3, (u - 1) % 3;
        if i < |segs| {
          WayNode(segs, cc, i, j);
        }
      }
    }
  }

  // ---------------------------------------------------------------- mode choices and walks

  /** A way of encoding picked for every run. */
  predicate ValidChoice(segs: seq<Segment>, choice: seq<nat>)
  {
    |choice| == |segs| && forall i | 0 <= i < |choice| :: choice[i] < |Connects(segs[i])|
  }

  /** The runs, each encoded the way `choice` picks. */
  function Assign(segs: seq<Segment>, choice: seq<nat>): (a: seq<Segment>)
    requires ValidChoice(segs, choice)
    ensures |a| == |segs|
  {
    seq(|choice|, i requires 0 <= i < |choice| => Connects(segs[i])[choice[i]])
  }

  /** The walk from the start to the end through the nodes `choice` picks. */
  function ChoiceWalk(segs: seq<Segment>, choice: seq<nat>): seq<nat>
    requires ValidChoice(segs, choice)
  {
    [StartNode] + seq(|choice|, i requires 0 <= i < |choice| => NodeId(i, choice[i])) + [EndNode(|segs|)]
  }

  /** The weights of that walk's edges. */
  function ChoiceWeights(segs: seq<Segment>, choice: seq<nat>, cc: nat): seq<nat>
    requires ValidChoice(segs, choice) && cc < 3
  {
    StepWeights(Assign(segs, choice), cc)
  }

  /** The weights of the steps through the runs `a`, each after the one before it, then to the end. */
  function StepWeights(a: seq<Segment>, cc: nat): seq<nat>
    requires cc < 3
  {
    seq(|a|, i requires 0 <= i < |a| => Weight(if i == 0 then None else Some(a[i - 1]), a[i], cc)) + [0]
  }

  /** The bit cost the search puts on encoding the runs as `choice` picks. */
  function Cost(segs: seq<Segment>, choice: seq<nat>, cc: nat): nat
    requires ValidChoice(segs, choice) && cc < 3
  {
    Sum(ChoiceWeights(segs, choice, cc))
  }

  /** Every choice is a walk from the start to the end, weighing its cost. */
  lemma ChoiceIsWalk(segs: seq<Segment>, cc: nat, choice: seq<nat>)
    requires cc < 3 && |segs| > 0 && ValidChoice(segs, choice)
    ensures Walk(SegmentGraph(segs, cc), ChoiceWalk(segs, choice), ChoiceWeights(segs, choice, cc))
  {
    var g := SegmentGraph(segs, cc);
    var q, ws := ChoiceWalk(segs, choice), ChoiceWeights(segs, choice, cc);
    ChoiceWeightAt(segs, choice, cc, 0);
    forall t | 0 <= t < |ws|
      ensures q[t] < |g| && Edge(q[t + 1], ws[t]) in g[q[t]]
    {
      ChoiceEdge(segs, cc, choice, t);
    }
  }

  /** Step `t` of a choice's walk follows an edge of the graph with that step's weight. */
  predicate StepIsEdge(segs: seq<Segment>, cc: nat, choice: seq<nat>, t: nat)
    requires cc < 3 && ValidChoice(segs, choice) && t <= |segs|
  {
    var g, q, ws := SegmentGraph(segs, cc), ChoiceWalk(segs, choice), ChoiceWeights(segs, choice, cc);
    |q| == |segs| + 2 && |ws| == |segs| + 1 && q[t] < |g| && Edge(q[t + 1], ws[t]) in g[q[t]]
  }

  /** Step `t` of a choice's walk is an edge of the graph. */
  lemma ChoiceEdge(segs: seq<Segment>, cc: nat, choice: seq<nat>, t: nat)
    requires cc < 3 && |segs| > 0 && ValidChoice(segs, choice) && t <= |segs|
    ensures StepIsEdge(segs, cc, choice, t)
  {
    if t == 0 {
      FirstEdge(segs, cc, choice);
    } else if t < |segs| {
      MiddleEdge(segs, cc, choice, t);
    } else {
      LastEdge(segs, cc, choice);
    }
  }

  /** Node `t` of a choice's walk: the start, then the chosen way of each run, then the end. */
  lemma ChoiceWalkAt(segs: seq<Segment>, choice: seq<nat>, t: nat)
    requires ValidChoice(segs, choice) && t <= |segs| + 1
    ensures |ChoiceWalk(segs, choice)| == |segs| + 2
    ensures ChoiceWalk(segs, choice)[t] ==
      if t == 0 then StartNode else if t <= |segs| then NodeId(t - 1, choice[t - 1]) else EndNode(|segs|)
  {
  }

  /** The first step of a choice's walk leaves the start for the way chosen for the first run. */
  lemma FirstEdge(segs: seq<Segment>, cc: nat, choice: seq<nat>)
    requires cc < 3 && |segs| > 0 && ValidChoice(segs, choice)
    ensures StepIsEdge(segs, cc, choice, 0)
  {
    ChoiceWeightAt(segs, choice, cc, 0);
    ChoiceWalkAt(segs, choice, 0);
    ChoiceWalkAt(segs, choice, 1);
    var es := LayerEdges(segs, cc, None, 0);
    assert SegmentGraph(segs, cc)[StartNode] == es;
    assert es[choice[0]] == Edge(NodeId(0, choice[0]), Weight(None, Assign(segs, choice)[0], cc));
  }

  /** A middle step of a choice's walk goes from one run's chosen way to the next run's. */
  lemma MiddleEdge(segs: seq<Segment>, cc: nat, choice: seq<nat>, t: nat)
    requires cc < 3 && ValidChoice(segs, choice) && 0 < t < |segs|
    ensures StepIsEdge(segs, cc, choice, t)
  {
    var i, j, k := t - 1, choice[t - 1], choice[t];
    var w := Weight(Some(Connects(segs[i])[j]), Connects(segs[i + 1])[k], cc);
    WayEdge(segs, cc, i, j, k);
    ChoiceWalkAt(segs, choice, t);
    ChoiceWalkAt(segs, choice, t + 1);
    MiddleWeight(segs, choice, cc, t);
    EdgeStep(SegmentGraph(segs, cc), ChoiceWalk(segs, choice), ChoiceWeights(segs, choice, cc), t, NodeId(i, j), NodeId(i + 1, k), w);
  }

  /** The edge from run `i`'s `j`-th way to run `i + 1`'s `k`-th way weighs the step between the two. */
  lemma WayEdge(segs: seq<Segment>, cc: nat, i: nat, j: nat, k: nat)
    requires cc < 3 && i + 1 < |segs| && j < |Connects(segs[i])| && k < |Connects(segs[i + 1])|
    ensures NodeId(i, j) < |SegmentGraph(segs, cc)|
    ensures Edge(NodeId(i + 1, k), Weight(Some(Connects(segs[i])[j]), Connects(segs[i + 1])[k], cc))
      in SegmentGraph(segs, cc)[NodeId(i, j)]
  {
    WayNode(segs, cc, i, j);
    var es := LayerEdges(segs, cc, Some(Connects(segs[i])[j]), i + 1);
    assert es[k] == Edge(NodeId(i + 1, k), Weight(Some(Connects(segs[i])[j]), Connects(segs[i + 1])[k], cc));
  }

  /** A middle step of a choice's walk weighs the step between the ways chosen for runs `t - 1` and `t`. */
  lemma MiddleWeight(segs: seq<Segment>, choice: seq<nat>, cc: nat, t: nat)
    requires ValidChoice(segs, choice) && cc < 3 && 0 < t < |segs|
    ensures |ChoiceWeights(segs, choice, cc)| == |segs| + 1
    ensures ChoiceWeights(segs, choice, cc)[t] ==
      Weight(Some(Connects(segs[t - 1])[choice[t - 1]]), Connects(segs[t])[choice[t]], cc)
  {
    ChoiceWeightAt(segs, choice, cc, t);
  }

  /** A step whose ends and weight are those of an edge follows that edge. */
  lemma EdgeStep(g: Graph, q: seq<nat>, ws: seq<nat>, t: nat, u: nat, v: nat, w: nat)
    requires t + 1 < |q| && t < |ws| && q[t] == u && q[t + 1] == v && ws[t] == w
    requires u < |g| && Edge(v, w) in g[u]
    ensures q[t] < |g| && Edge(q[t + 1], ws[t]) in g[q[t]]
  {
  }

  /** The last step of a choice's walk goes from the last run's chosen way to the end, weighing nothing. */
  lemma LastEdge(segs: seq<Segment>, cc: nat, choice: seq<nat>)
    requires cc < 3 && |segs| > 0 && ValidChoice(segs, choice)
    ensures StepIsEdge(segs, cc, choice, |segs|)
  {
    var n := |segs|;
    ChoiceWeightAt(segs, choice, cc, n);
    ChoiceWalkAt(segs, choice, n);
    ChoiceWalkAt(segs, choice, n + 1);
    WayNode(segs, cc, n - 1, choice[n - 1]);
  }

  /** `id` is the node of one of run `i`'s ways. */
  predicate AtLayer(segs: seq<Segment>, i: nat, id: nat)
  {
    i < |segs| && NodeId(i, 0) <= id && id - NodeId(i, 0) < |Connects(segs[i])|
  }

  /** The segment the node of run `i` at `id` stands for. */
  function LayerSegment(segs: seq<Segment>, i: nat, id: nat): Segment
    requires AtLayer(segs, i, id)
  {
    Connects(segs[i])[id - NodeId(i, 0)]
  }

  /**
   * Step `t` of a walk from the start: it reaches run `t - 1`'s nodes, or
   * the end after the last run, over an edge weighing what the step adds.
   */
  lemma {:induction false} WalkStep(segs: seq<Segment>, cc: nat, q: seq<nat>, ws: seq<nat>, t: nat)
    requires cc < 3 && |segs| > 0 && Walk(SegmentGraph(segs, cc), q, ws) && q[0] == StartNode
    requires 1 <= t < |q|
    ensures t <= |segs| + 1
    ensures t <= |segs| ==> AtLayer(segs, t - 1, q[t])
    ensures t == 1 ==> ws[0] == Weight(None, LayerSegment(segs, 0, q[1]), cc)
    ensures 1 < t <= |segs| ==>
      && AtLayer(segs, t - 2, q[t - 1])
      && ws[t - 1] == Weight(Some(LayerSegment(segs, t - 2, q[t - 1])), LayerSegment(segs, t - 1, q[t]), cc)
    ensures t == |segs| + 1 ==> q[t] == EndNode(|segs|) && ws[t - 1] == 0
  {
    var g := SegmentGraph(segs, cc);
    var n := |segs|;
    var u, v, w := q[t - 1], q[t], ws[t - 1];
    assert Edge(v, w) in g[u];
    if t == 1 {
      var es := LayerEdges(segs, cc, None, 0);
      var k :| 0 <= k < |es| && es[k] == Edge(v, w);
    } else {
      WalkStep(segs, cc, q, ws, t - 1);
      if t - 1 == n + 1 {
        assert false;
      } else {
        var i := t - 2;
        var j := u - NodeId(i, 0);
        assert u == NodeId(i, j);
        WayNode(segs, cc, i, j);
        if t <= n {
          var es := LayerEdges(segs, cc, Some(Connects(segs[i])[j]), t - 1);
          var k :| 0 <= k < |es| && es[k] == Edge(v, w);
        }
      }
    }
  }

  /** The way a walk through every run picks at each run. */
  function ChoiceOf(segs: seq<Segment>, q: seq<nat>): (choice: seq<nat>)
    requires |q| > |segs|
    ensures |choice| == |segs|
  {
    seq(|segs|, i requires 0 <= i < |segs| => if q[i + 1] >= NodeId(i, 0) then q[i + 1] - NodeId(i, 0) else 0)
  }

  /** A walk from the start to the end passes each run once and picks a way there. */
  lemma WalkPicks(segs: seq<Segment>, cc: nat, q: seq<nat>, ws: seq<nat>)
    requires cc < 3 && |segs| > 0 && Walk(SegmentGraph(segs, cc), q, ws)
    requires q[0] == StartNode && q[|q| - 1] == EndNode(|segs|)
    ensures |q| == |segs| + 2
    ensures forall t | 1 <= t <= |segs| :: AtLayer(segs, t - 1, q[t])
  {
    WalkStep(segs, cc, q, ws, |q| - 1);
    forall t | 1 <= t <= |segs|
      ensures AtLayer(segs, t - 1, q[t])
    {
      WalkStep(segs, cc, q, ws, t);
    }
  }

  /** The walk of the choice a walk through every run makes is that walk. */
  lemma ChoiceOfWalk(segs: seq<Segment>, q: seq<nat>)
    requires |q| == |segs| + 2 && q[0] == StartNode && q[|q| - 1] == EndNode(|segs|)
    requires forall t | 1 <= t <= |segs| :: AtLayer(segs, t - 1, q[t])
    ensures ValidChoice(segs, ChoiceOf(segs, q))
    ensures q == ChoiceWalk(segs, ChoiceOf(segs, q))
  {
    var choice := ChoiceOf(segs, q);
    forall i | 0 <= i < |segs|
      ensures choice[i] == q[i + 1] - NodeId(i, 0) < |Connects(segs[i])|
    {
      assert AtLayer(segs, i, q[i + 1]);
    }
    var q' := ChoiceWalk(segs, choice);
    assert forall t | 0 <= t < |q| :: q[t] == q'[t];
  }

  /** A walk from the start to the end is the walk of the choice it makes. */
  lemma WalkChoice(segs: seq<Segment>, cc: nat, q: seq<nat>, ws: seq<nat>)
    requires cc < 3 && |segs| > 0 && Walk(SegmentGraph(segs, cc), q, ws)
    requires q[0] == StartNode && q[|q| - 1] == EndNode(|segs|)
    ensures |q| == |segs| + 2
    ensures ValidChoice(segs, ChoiceOf(segs, q))
    ensures q == ChoiceWalk(segs, ChoiceOf(segs, q))
  {
    WalkPicks(segs, cc, q, ws);
    ChoiceOfWalk(segs, q);
  }

  /** Every walk from the start to the end is the walk of a choice, with that choice's weights. */
  lemma WalkIsChoice(segs: seq<Segment>, cc: nat, q: seq<nat>, ws: seq<nat>)
    requires cc < 3 && |segs| > 0 && Walk(SegmentGraph(segs, cc), q, ws)
    requires q[0] == StartNode && q[|q| - 1] == EndNode(|segs|)
    ensures |q| == |segs| + 2
    ensures ValidChoice(segs, ChoiceOf(segs, q))
    ensures q == ChoiceWalk(segs, ChoiceOf(segs, q))
    ensures ws == ChoiceWeights(segs, ChoiceOf(segs, q), cc)
  {
    WalkChoice(segs, cc, q, ws);
    var ws' := ChoiceWeights(segs, ChoiceOf(segs, q), cc);
    forall t | 0 <= t < |ws|
      ensures ws[t] == ws'[t]
    {
      WeightAt(segs, cc, q, ws, t);
    }
  }

  /** Step `t` of a walk from the start to the end weighs what its choice's step `t` does. */
  lemma WeightAt(segs: seq<Segment>, cc: nat, q: seq<nat>, ws: seq<nat>, t: nat)
    requires cc < 3 && |segs| > 0 && Walk(SegmentGraph(segs, cc), q, ws)
    requires q[0] == StartNode && |q| == |segs| + 2
    requires ValidChoice(segs, ChoiceOf(segs, q)) && q == ChoiceWalk(segs, ChoiceOf(segs, q))
    requires t < |ws|
    ensures |ChoiceWeights(segs, ChoiceOf(segs, q), cc)| == |ws|
    ensures ws[t] == ChoiceWeights(segs, ChoiceOf(segs, q), cc)[t]
  {
    var n := |segs|;
    var choice := ChoiceOf(segs, q);
    WalkStep(segs, cc, q, ws, t + 1);
    ChoiceWeightAt(segs, choice, cc, t);
    if 0 < t < n {
      LayerAssigned(segs, q, t - 1);
    }
    if t < n {
      LayerAssigned(segs, q, t);
    }
  }

  /** Step `t` of a choice's walk weighs the step from run `t - 1`'s way to run `t`'s, the last one nothing. */
  lemma ChoiceWeightAt(segs: seq<Segment>, choice: seq<nat>, cc: nat, t: nat)
    requires ValidChoice(segs, choice) && cc < 3 && t <= |segs|
    ensures |ChoiceWeights(segs, choice, cc)| == |segs| + 1
    ensures var a := Assign(segs, choice);
      ChoiceWeights(segs, choice, cc)[t] ==
        if t == |segs| then 0 else Weight(if t == 0 then None else Some(a[t - 1]), a[t], cc)
  {
    StepWeightAt(Assign(segs, choice), cc, t);
  }

  /** Step `t` through the runs `a` weighs the step from run `t - 1` to run `t`, the last one nothing. */
  lemma StepWeightAt(a: seq<Segment>, cc: nat, t: nat)
    requires cc < 3 && t <= |a|
    ensures |StepWeights(a, cc)| == |a| + 1
    ensures StepWeights(a, cc)[t] == if t == |a| then 0 else Weight(if t == 0 then None else Some(a[t - 1]), a[t], cc)
  {
  }

  /** The segment of the node a walk reaches at run `i` is the way its choice assigns to run `i`. */
  lemma LayerAssigned(segs: seq<Segment>, q: seq<nat>, i: nat)
    requires |q| == |segs| + 2 && i < |segs| && AtLayer(segs, i, q[i + 1])
    requires ValidChoice(segs, ChoiceOf(segs, q))
    ensures LayerSegment(segs, i, q[i + 1]) == Assign(segs, ChoiceOf(segs, q))[i]
  {
  }

  // ---------------------------------------------------------------- getOptimizedSegments

  /**
   * The filter-and-merge loop over the segments the path's nodes stand for
   * (`None` for the start and the end): a node standing for nothing is
   * skipped; a node whose predecessor on the path has the same mode is
   * appended to the last segment; any other node starts a new segment.
   */
  function MergePath(items: seq<Option<Segment>>): (data: seq<Segment>)
    ensures |items| > 0 && items[|items| - 1].Some? ==>
      |data| > 0 && data[|data| - 1].mode == items[|items| - 1].value.mode
  {
    if |items| == 0 then []
    else
      var data := MergePath(items[..|items| - 1]);
      var element := items[|items| - 1];
      var prevElement := if |items| > 1 then items[|items| - 2] else None;
      if prevElement.Some? && element.Some? && prevElement.value.mode == element.value.mode then
        data[..|data| - 1] + [Segment(data[|data| - 1].value + element.value.value, element.value.mode)]
      else if element.Some? then
        data + [element.value]
      else
        data
  }

  /** What the nodes of a path stand for. */
  function PathItems(segs: seq<Segment>, path: seq<nat>): seq<Option<Segment>>
  {
    seq(|path|, i requires 0 <= i < |path| => NodeSegment(segs, path[i]))
  }

  /**
   * `getOptimizedSegments(segments, ccIndex)`: build the graph, run
   * `dijkstra` from the start, take `getPath` to the end and merge the
   * segments along it.
   */
  function OptimizedSegments(segs: seq<Segment>, cc: nat): seq<Segment>
    requires cc < 3
  {
    var g := SegmentGraph(segs, cc);
    SegmentGraphShape(segs, cc);
    DijkstraBackward(g, StartNode);
    var path := GetPath(Dijkstra(g, StartNode).previous, StartNode, EndNode(|segs|));
    MergePath(PathItems(segs, path))
  }

  /** Segments standing in a row, with the start's nothing in front. */
  function Wrapped(xs: seq<Segment>): seq<Option<Segment>>
  {
    [None] + seq(|xs|, i requires 0 <= i < |xs| => Some(xs[i]))
  }

  /** Over a row of segments behind the start, the loop is the reference merge. */
  lemma {:induction false} MergePathWrapped(xs: seq<Segment>)
    ensures MergePath(Wrapped(xs)) == MergeRuns(xs)
  {
    if |xs| > 0 {
      var init, w := xs[..|xs| - 1], Wrapped(xs);
      assert w[..|xs|] == Wrapped(init);
      assert w[|xs|] == Some(xs[|xs| - 1]);
      assert w[|xs| - 1] == if |xs| > 1 then Some(xs[|xs| - 2]) else None;
      MergePathWrapped(init);
    }
  }

  /** The path of a choice stands for its runs, each encoded the chosen way, between two nodes standing for nothing. */
  lemma ChoiceItems(segs: seq<Segment>, cc: nat, choice: seq<nat>)
    requires cc < 3 && ValidChoice(segs, choice)
    ensures PathItems(segs, ChoiceWalk(segs, choice)) == Wrapped(Assign(segs, choice)) + [None]
  {
    var q := ChoiceWalk(segs, choice);
    var items, want := PathItems(segs, q), Wrapped(Assign(segs, choice)) + [None];
    forall t | 0 <= t < |items|
      ensures items[t] == want[t]
    {
      if t == 0 {
        assert q[0] == StartNode && want[0] == None;
      } else if t <= |segs| {
        assert q[t] == NodeId(t - 1, choice[t - 1]);
        assert want[t] == Some(Assign(segs, choice)[t - 1]);
        WayNode(segs, cc, t - 1, choice[t - 1]);
      } else {
        assert q[t] == EndNode(|segs|) && want[t] == None;
      }
    }
  }

  /** The merge of a choice's path is the reference merge of the runs encoded that way. */
  lemma MergeChoice(segs: seq<Segment>, cc: nat, choice: seq<nat>)
    requires cc < 3 && ValidChoice(segs, choice)
    ensures MergePath(PathItems(segs, ChoiceWalk(segs, choice))) == MergeRuns(Assign(segs, choice))
  {
    var w := Wrapped(Assign(segs, choice));
    ChoiceItems(segs, cc, choice);
    assert (w + [None])[..|w|] == w;
    MergePathWrapped(Assign(segs, choice));
  }

  /** With no runs there is nothing to encode. */
  lemma OptimizedEmpty(cc: nat)
    requires cc < 3
    ensures OptimizedSegments([], cc) == []
  {
    var g := SegmentGraph([], cc);
    SegmentGraphShape([], cc);
    var pw := ShortestPathCorrect(g, StartNode, EndNode(0), [], []);
  }

  /**
   * `getOptimizedSegments` encodes the runs in a way of least cost: its
   * result is the merge of the runs encoded as some choice, and no other
   * choice costs less.
   */
  lemma OptimizedChoice(segs: seq<Segment>, cc: nat, other: seq<nat>) returns (choice: seq<nat>)
    requires cc < 3 && |segs| > 0
    ensures ValidChoice(segs, choice)
    ensures OptimizedSegments(segs, cc) == MergeRuns(Assign(segs, choice))
    ensures ValidChoice(segs, other) ==> Cost(segs, choice, cc) <= Cost(segs, other, cc)
  {
    var g := SegmentGraph(segs, cc);
    SegmentGraphShape(segs, cc);
    var rival := if ValidChoice(segs, other) then other else seq(|segs|, i => 0);
    ChoiceIsWalk(segs, cc, rival);
    var pw := ShortestPathCorrect(g, StartNode, EndNode(|segs|), ChoiceWalk(segs, rival), ChoiceWeights(segs, rival, cc));
    var path := GetPath(Dijkstra(g, StartNode).previous, StartNode, EndNode(|segs|));
    WalkIsChoice(segs, cc, path, pw);
    choice := ChoiceOf(segs, path);
    MergeChoice(segs, cc, choice);
  }

  lemma {:induction false} ConcatSameValues(a: seq<Segment>, b: seq<Segment>)
    requires |a| == |b| && forall i | 0 <= i < |a| :: a[i].value == b[i].value
    ensures Concat(a) == Concat(b)
  {
    if |a| > 0 {
      ConcatSameValues(a[..|a| - 1], b[..|b| - 1]);
    }
  }

  /** Encoding every run a chosen way keeps the text and keeps every run a text its mode can carry. */
  lemma AssignKeeps(segs: seq<Segment>, choice: seq<nat>)
    requires ValidChoice(segs, choice) && AllCarried(segs)
    ensures Concat(Assign(segs, choice)) == Concat(segs) && AllCarried(Assign(segs, choice))
  {
    var a := Assign(segs, choice);
    forall i | 0 <= i < |a|
      ensures a[i].value == segs[i].value && Carries(a[i].value, a[i].mode)
    {
      ConnectsEncodable(segs[i], choice[i], choice[i]);
    }
    ConcatSameValues(a, segs);
  }

  /** Class runs are texts their modes can carry. */
  lemma ClassRunsCarried(segs: seq<Segment>, s: string)
    requires ClassRuns(segs, s)
    ensures AllCarried(segs)
  {
    forall i | 0 <= i < |segs|
      ensures Carries(segs[i].value, segs[i].mode)
    {
      var v := segs[i].value;
      assert InClass(v, segs[i].mode);
      assert ClassOf(v[0]) == segs[i].mode;
      if segs[i].mode == AlphaNumeric {
        assert forall j | 0 <= j < |v| :: ClassOf(v[j]) != Byte;
      }
    }
  }

  /**
   * `getOptimizedSegments` keeps the text, cuts it into non-empty segments
   * each in a mode that can carry it, never leaves two neighbours in the
   * same mode, and returns at least one segment when there is a run.
   */
  lemma OptimizedSegmentsCorrect(segs: seq<Segment>, cc: nat)
    requires cc < 3 && AllCarried(segs)
    ensures var out := OptimizedSegments(segs, cc);
      && Concat(out) == Concat(segs)
      && AllCarried(out)
      && Alternates(out)
      && (|segs| > 0 <==> |out| > 0)
  {
    if |segs| == 0 {
      OptimizedEmpty(cc);
    } else {
      var choice := OptimizedChoice(segs, cc, []);
      var a := Assign(segs, choice);
      AssignKeeps(segs, choice);
      MergeRunsText(a);
      MergeRunsCarries(a);
      MergeRunsAlternate(a);
    }
  }
}
