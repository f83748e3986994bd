/** The prefix normal form of a word: build the chart node by node, then take nodes off it. */
module NormalForms {
  import opened Automata
  import opened Charts
  import opened CircularLists

  const BOTTOM_CHAR := -42

  // ---- links in both directions ----

  /** outs holds the links of ins in the other direction. */
  ghost predicate Reversed(ins: seq<Link>, outs: seq<Link>) {
    && |ins| == |outs|
    && (forall i: nat, j: nat :: i < |outs| ==> (outs[i] == To(j) <==> j < |ins| && ins[j] == To(i)))
  }

  /** A link from a new node to node i, if there is one. */
  function Connected(outs: seq<Link>, link: Link): seq<Link> {
    (if link.To? && link.i < |outs| then outs[link.i := To(|outs|)] else outs) + [None]
  }

  lemma ReversedMore(ins: seq<Link>, outs: seq<Link>, link: Link)
    requires Reversed(ins, outs) && (link.To? ==> link.i < |outs| && outs[link.i] == None)
    requires forall j :: 0 <= j < |ins| && ins[j].To? ==> ins[j].i < |ins|
    ensures Reversed(ins + [link], Connected(outs, link))
  {
  }

  // ---- the chart grows ----

  /** The next event of a process is linked to its event y, so only the last one is free. */
  lemma {:induction false} NextLinked(p: Protocol, c: Chart, y: nat, k: nat) returns (j: nat)
    requires IsChart(p, c) && y < k < |c.w| && p.process[c.w[y]] == p.process[c.w[k]]
    ensures j < |c.w| && c.procIn[j] == To(y)
    decreases k
  {
    assert ProcOk(p, c.w, k, c.procIn[k]);
    var i := c.procIn[k].i;
    if i == y {
      j := k;
    } else {
      j := NextLinked(p, c, y, i);
    }
  }

  /** Behind every event there is a free one of its process. */
  lemma {:induction false} SomeFree(p: Protocol, c: Chart, outs: seq<Link>, y: nat) returns (z: nat)
    requires IsChart(p, c) && Reversed(c.procIn, outs) && y < |c.w|
    ensures y <= z < |c.w| && p.process[c.w[z]] == p.process[c.w[y]] && outs[z] == None
    decreases |c.w| - y
  {
    if outs[y] == None {
      z := y;
    } else {
      var j := outs[y].i;
      assert ProcOk(p, c.w, j, c.procIn[j]);
      z := SomeFree(p, c, outs, j);
    }
  }

  /** The link to the last free event of the process of l, among the first n nodes. */
  ghost predicate LastFree(p: Protocol, w: Word, outs: seq<Link>, l: nat, n: nat, link: Link)
    requires p.Knows(w) && |outs| == |w| && l < p.Bound() && n <= |w|
  {
    match link
    case None => forall i :: 0 <= i < n ==> outs[i].To? || p.process[w[i]] != p.process[l]
    case To(x) =>
      && x < n && outs[x] == None && p.process[w[x]] == p.process[l]
      && forall i :: x < i < n ==> outs[i].To? || p.process[w[i]] != p.process[l]
  }

  lemma LastFreeOk(p: Protocol, c: Chart, outs: seq<Link>, l: nat, link: Link)
    requires IsChart(p, c) && Reversed(c.procIn, outs) && l < p.Bound() && LastFree(p, c.w, outs, l, |c.w|, link)
    ensures p.Knows(c.w + [l]) && ProcOk(p, c.w + [l], |c.w|, link)
  {
    var w := c.w + [l];
    if link == None {
      forall i | 0 <= i < |c.w|
        ensures p.process[w[i]] != p.process[l]
      {
        if p.process[c.w[i]] == p.process[l] {
          var z := SomeFree(p, c, outs, i);
        }
      }
    } else {
      forall k | link.i < k < |c.w|
        ensures p.process[w[k]] != p.process[l]
      {
        if p.process[c.w[k]] == p.process[l] {
          var j := NextLinked(p, c, link.i, k);
        }
      }
    }
  }

  /** Event i sends a message of the kind of l that nobody has received. */
  ghost predicate Open(p: Protocol, w: Word, outs: seq<Link>, l: nat, i: nat)
    requires p.Knows(w) && |outs| == |w|
  {
    i < |w| && w[i] / 2 == l / 2 && !p.Receives(w[i]) && outs[i] == None
  }

  /** The link to the first open send event for l, among the first n nodes. */
  ghost predicate FirstOpen(p: Protocol, w: Word, outs: seq<Link>, l: nat, n: nat, link: Link)
    requires p.Knows(w) && |outs| == |w| && l < p.Bound() && n <= |w|
  {
    match link
    case None => forall i: nat :: i < n ==> !Open(p, w, outs, l, i)
    case To(x) => x < n && Open(p, w, outs, l, x) && forall i: nat :: i < x ==> !Open(p, w, outs, l, i)
  }

  lemma OpenIsFree(p: Protocol, c: Chart, outs: seq<Link>, l: nat, link: Link, i: nat)
    requires IsChart(p, c) && Reversed(c.bufIn, outs) && l < p.Bound() && i < |c.w|
    ensures p.Knows(c.w + [l])
    ensures FreeSend(p, c.w + [l], c.bufIn + [link], |c.w|, i) <==> Open(p, c.w, outs, l, i)
  {
    var n := |c.w|;
    if outs[i].To? {
      assert (c.bufIn + [link])[outs[i].i] == To(i);
    }
    if k :| 0 <= k < n && (c.bufIn + [link])[k] == To(i) {
      assert c.bufIn[k] == To(i) && outs[i] == To(k);
    }
  }

  lemma FirstOpenOk(p: Protocol, c: Chart, outs: seq<Link>, l: nat, link: Link)
    requires IsChart(p, c) && Reversed(c.bufIn, outs) && l < p.Bound()
    requires if p.Receives(l) then FirstOpen(p, c.w, outs, l, |c.w|, link) else link == None
    ensures p.Knows(c.w + [l]) && BufOk(p, c.w + [l], c.bufIn + [link], |c.w|, link)
  {
    forall i: nat | i < |c.w|
      ensures FreeSend(p, c.w + [l], c.bufIn + [link], |c.w|, i) <==> Open(p, c.w, outs, l, i)
    {
      OpenIsFree(p, c, outs, l, link, i);
    }
  }

  /** Older events do not see a new one. */
  lemma ChartMore(p: Protocol, c: Chart, l: nat, link1: Link, link2: Link)
    requires IsChart(p, c) && l < p.Bound() && p.Knows(c.w + [l])
    requires ProcOk(p, c.w + [l], |c.w|, link1) && BufOk(p, c.w + [l], c.bufIn + [link2], |c.w|, link2)
    ensures IsChart(p, Chart(c.w + [l], c.procIn + [link1], c.bufIn + [link2]))
  {
    var d := Chart(c.w + [l], c.procIn + [link1], c.bufIn + [link2]);
    forall j | 0 <= j < |d.w|
      ensures ProcOk(p, d.w, j, d.procIn[j]) && BufOk(p, d.w, d.bufIn, j, d.bufIn[j])
    {
      if j < |c.w| {
        assert ProcOk(p, c.w, j, c.procIn[j]) && BufOk(p, c.w, c.bufIn, j, c.bufIn[j]);
        OldLinks(p, c, l, link2, j);
      }
    }
  }

  lemma OldLinks(p: Protocol, c: Chart, l: nat, link: Link, j: nat)
    requires IsChart(p, c) && l < p.Bound() && p.Knows(c.w + [l]) && j < |c.w|
    ensures ProcOk(p, c.w + [l], j, c.procIn[j]) && BufOk(p, c.w + [l], c.bufIn + [link], j, c.bufIn[j])
  {
    assert ProcOk(p, c.w, j, c.procIn[j]) && BufOk(p, c.w, c.bufIn, j, c.bufIn[j]);
    forall i: nat
      ensures FreeSend(p, c.w + [l], c.bufIn + [link], j, i) <==> FreeSend(p, c.w, c.bufIn, j, i)
    {
      TakenSame(c.bufIn, link, j, i);
    }
  }

  lemma TakenSame(bufIn: seq<Link>, link: Link, j: nat, i: nat)
    requires j < |bufIn|
    ensures Taken(bufIn + [link], j, i) <==> Taken(bufIn, j, i)
  {
    if k :| 0 <= k < j && bufIn[k] == To(i) {
      assert (bufIn + [link])[k] == To(i);
    }
    if k :| 0 <= k < j && (bufIn + [link])[k] == To(i) {
      assert bufIn[k] == To(i);
    }
  }

  // ---- the nodes that are left ----

  /** The link of a node that is left: none if the other end is done. */
  function Left(link: Link, done: set<nat>): Link {
    if link.To? && link.i !in done then link else None
  }

  /** The links of the nodes that are left, in both directions. */
  ghost predicate LinksLeft(all: seq<Link>, ins: seq<Link>, outs: seq<Link>, done: set<nat>) {
    && |all| == |ins| == |outs|
    && (forall j: nat :: j < |ins| && j !in done ==> ins[j] == Left(all[j], done))
    && (forall i: nat, j: nat :: i < |outs| && i !in done ==>
          (outs[i] == To(j) <==> j < |all| && j !in done && all[j] == To(i)))
  }

  /** Cut the link that leaves node x. */
  function CutIn(ins: seq<Link>, outs: seq<Link>, x: nat): seq<Link>
    requires x < |outs|
  {
    if outs[x].To? && outs[x].i < |ins| then ins[outs[x].i := None] else ins
  }

  lemma LinksCut(all: seq<Link>, ins: seq<Link>, outs: seq<Link>, done: set<nat>, x: nat)
    requires LinksLeft(all, ins, outs, done) && x < |all| && x !in done && !Waits(all[x], done)
    ensures LinksLeft(all, CutIn(ins, outs, x), outs[x := None], done + {x})
  {
    var ins' := CutIn(ins, outs, x);
    forall j: nat | j < |ins| && j !in done + {x}
      ensures ins'[j] == Left(all[j], done + {x})
    {
      assert outs[x] == To(j) <==> all[j] == To(x);
    }
  }

  /** The list holds exactly the nodes that are left. */
  ghost predicate ListLeft(graph: seq<nat>, n: nat, done: set<nat>) {
    Distinct(graph) && forall j: nat :: j in graph <==> j < n && j !in done
  }

  lemma ListCut(graph: seq<nat>, n: nat, done: set<nat>, k: nat)
    requires ListLeft(graph, n, done) && k < |graph|
    ensures ListLeft(graph[..k] + graph[k + 1..], n, done + {graph[k]})
  {
    var rest := graph[..k] + graph[k + 1..];
    forall j: nat
      ensures j in rest <==> j < n && j !in done + {graph[k]}
    {
      if j in graph && j != graph[k] {
        var i :| 0 <= i < |graph| && graph[i] == j;
        assert if i < k then rest[i] == j else rest[i - 1] == j;
      }
      if i :| 0 <= i < |rest| && rest[i] == j {
        assert j == graph[if i < k then i else i + 1];
      }
    }
  }

  /** A node that is left and has no incoming links waits for nothing. */
  lemma NodeMinimal(c: Chart, processIn: seq<Link>, processOut: seq<Link>, bufferIn: seq<Link>, bufferOut: seq<Link>,
                    done: set<nat>, j: nat)
    requires |c.procIn| == |c.bufIn| == |c.w| && j < |c.w| && j !in done
    requires LinksLeft(c.procIn, processIn, processOut, done) && LinksLeft(c.bufIn, bufferIn, bufferOut, done)
    ensures Minimal(c, done, j) <==> processIn[j] == None && bufferIn[j] == None
  {
  }

  /** The first node that is left waits for nothing. */
  lemma FirstMinimal(p: Protocol, c: Chart, done: set<nat>, j: nat) returns (k: nat)
    requires IsChart(p, c) && j < |c.w| && j !in done
    ensures Minimal(c, done, k)
    decreases j
  {
    assert ProcOk(p, c.w, j, c.procIn[j]) && BufOk(p, c.w, c.bufIn, j, c.bufIn[j]);
    if Waits(c.procIn[j], done) {
      k := FirstMinimal(p, c, done, c.procIn[j].i);
    } else if Waits(c.bufIn[j], done) {
      k := FirstMinimal(p, c, done, c.bufIn[j].i);
    } else {
      k := j;
    }
  }

  /** A best one of the nodes in front of place n in the list that wait for nothing. */
  ghost predicate BestSoFar(p: Protocol, c: Chart, done: set<nat>, graph: seq<nat>, n: nat, best: Link)
    requires IsChart(p, c) && n <= |graph|
  {
    match best
    case None => forall i :: 0 <= i < n ==> !Minimal(c, done, graph[i])
    case To(x) =>
      && x in graph[..n] && Minimal(c, done, x)
      && forall i :: 0 <= i < n && Minimal(c, done, graph[i]) ==> !p.Better(c.w[graph[i]], c.w[x])
  }

  lemma BestNext(p: Protocol, c: Chart, done: set<nat>, graph: seq<nat>, n: nat, best: Link, best': Link)
    requires IsChart(p, c) && n < |graph| && BestSoFar(p, c, done, graph, n, best)
    requires Minimal(c, done, graph[n]) ==>
               best' == if best == None || p.Better(c.w[graph[n]], c.w[best.i]) then To(graph[n]) else best
    requires !Minimal(c, done, graph[n]) ==> best' == best
    ensures BestSoFar(p, c, done, graph, n + 1, best')
  {
    assert graph[..n + 1] == graph[..n] + [graph[n]];
  }

  lemma BestIsBest(p: Protocol, c: Chart, done: set<nat>, graph: seq<nat>, best: Link)
    requires IsChart(p, c) && ListLeft(graph, |c.w|, done) && graph != []
    requires BestSoFar(p, c, done, graph, |graph|, best)
    ensures best.To? && best.i in graph && Best(p, c, done, best.i)
  {
    assert graph[0] in graph;
    var k := FirstMinimal(p, c, done, graph[0]);
    assert k in graph;
    forall j: nat | best.To? && Minimal(c, done, j)
      ensures !p.Better(c.w[j], c.w[best.i])
    {
      assert j in graph;
    }
  }

  // ---- the graph ----

  class Msc {
    const p: Protocol
    var labels: seq<nat>
    var processIn: seq<Link>
    var processOut: seq<Link>
    var bufferIn: seq<Link>
    var bufferOut: seq<Link>
    var graph: seq<nat>

    /** While the chart is built all nodes are there. */
    ghost predicate Built(c: Chart)
      reads this
    {
      && IsChart(p, c) && labels == c.w && processIn == c.procIn && bufferIn == c.bufIn
      && Reversed(processIn, processOut) && Reversed(bufferIn, bufferOut)
      && |graph| == |labels| && forall i :: 0 <= i < |graph| ==> graph[i] == i
    }

    /** While nodes are taken off, those in ord are gone. */
    ghost predicate Reducing(c: Chart, ord: seq<nat>)
      reads this
    {
      && IsChart(p, c) && labels == c.w && Greedy(p, c, ord)
      && LinksLeft(c.procIn, processIn, processOut, Elements(ord))
      && LinksLeft(c.bufIn, bufferIn, bufferOut, Elements(ord)) && ListLeft(graph, |c.w|, Elements(ord))
    }

    constructor (p: Protocol)
      ensures this.p == p && Built(Chart([], [], []))
    {
      this.p := p;
      labels, processIn, processOut, bufferIn, bufferOut, graph := [], [], [], [], [], [];
    }

    /** The youngest node of the process that is not connected. */
    method YoungestOfProcess(event: nat, ghost c: Chart) returns (extrema: Link)
      requires Built(c) && event < p.Bound()
      ensures LastFree(p, c.w, processOut, event, |c.w|, extrema)
    {
      extrema := None;
      for n := 0 to |graph|
        invariant LastFree(p, c.w, processOut, event, n, extrema)
      {
        var ni := graph[n];
        if processOut[ni] == None && p.process[labels[ni]] == p.process[event] {
          if extrema == None || extrema.i < ni {
            extrema := To(ni);
          }
        }
      }
    }

    /** The oldest send event of the kind that is not connected. */
    method OldestSend(event: nat, ghost c: Chart) returns (extrema: Link)
      requires Built(c) && event < p.Bound()
      ensures FirstOpen(p, c.w, bufferOut, event, |c.w|, extrema)
    {
      extrema := None;
      for n := 0 to |graph|
        invariant FirstOpen(p, c.w, bufferOut, event, n, extrema)
      {
        var ni := graph[n];
        if labels[ni] / 2 == event / 2 && !p.Receives(labels[ni]) && bufferOut[ni] == None {
          if extrema == None || ni < extrema.i {
            extrema := To(ni);
          }
        }
      }
    }

    /** One more event: connect it to the one before in its process, and to the one that sends its message. */
    method GraphAddNode(event: nat, ghost c: Chart) returns (ghost d: Chart)
      requires Built(c) && event < p.Bound()
      modifies this
      ensures Built(d) && d.w == c.w + [event]
    {
      hide IsChart;
      var before := YoungestOfProcess(event, c);
      LastFreeOk(p, c, processOut, event, before);
      var sender := None;
      if p.Receives(event) {
        sender := OldestSend(event, c);
      }
      FirstOpenOk(p, c, bufferOut, event, sender);
      ChartMore(p, c, event, before, sender);
      LinksInside(p, c);
      ReversedMore(processIn, processOut, before);
      ReversedMore(bufferIn, bufferOut, sender);
      d := Chart(c.w + [event], c.procIn + [before], c.bufIn + [sender]);
      processIn, processOut := processIn + [before], Connected(processOut, before);
      bufferIn, bufferOut := bufferIn + [sender], Connected(bufferOut, sender);
      graph := graph + [|labels|];
      labels := labels + [event];
    }

    lemma LinksInside(p: Protocol, c: Chart)
      requires IsChart(p, c)
      ensures |c.procIn| == |c.bufIn| == |c.w|
      ensures forall j :: 0 <= j < |c.procIn| && c.procIn[j].To? ==> c.procIn[j].i < |c.w|
      ensures forall j :: 0 <= j < |c.bufIn| && c.bufIn[j].To? ==> c.bufIn[j].i < |c.w|
    {
      forall j | 0 <= j < |c.w|
        ensures ProcOk(p, c.w, j, c.procIn[j]) && BufOk(p, c.w, c.bufIn, j, c.bufIn[j])
      {
      }
    }

    /** A finished chart is where the reduction starts. */
    lemma StartReducing(c: Chart)
      requires Built(c)
      ensures Reducing(c, [])
    {
      LinksInside(p, c);
      hide ProcOk, BufOk;
      assert Elements([]) == {};
      forall j: nat
        ensures j in graph <==> j < |c.w|
      {
        if j < |c.w| {
          assert graph[j] == j;
        }
      }
    }

    /** The best node without incoming edges. */
    method FindExtrema(ghost c: Chart, ghost ord: seq<nat>) returns (extrema: Link, place: nat)
      requires Reducing(c, ord) && graph != []
      ensures extrema.To? && place < |graph| && graph[place] == extrema.i && Best(p, c, Elements(ord), extrema.i)
    {
      hide ProcOk, BufOk, Greedy, Minimal;
      extrema, place := None, 0;
      ghost var done := Elements(ord);
      for n := 0 to |graph|
        invariant BestSoFar(p, c, done, graph, n, extrema)
        invariant extrema.To? ==> place < |graph| && graph[place] == extrema.i
      {
        var ni := graph[n];
        ghost var best := extrema;
        assert ni in graph;
        NodeMinimal(c, processIn, processOut, bufferIn, bufferOut, done, ni);
        if processIn[ni] == None && bufferIn[ni] == None {
          if extrema == None || p.Better(labels[ni], labels[extrema.i]) {
            extrema, place := To(ni), n;
          }
        }
        BestNext(p, c, done, graph, n, best, extrema);
      }
      BestIsBest(p, c, done, graph, extrema);
    }

    /** The links and the list without the best node. */
    lemma ReducedLinks(c: Chart, ord: seq<nat>, place: nat)
      requires Reducing(c, ord) && place < |graph| && Best(p, c, Elements(ord), graph[place])
      ensures var x, done := graph[place], Elements(ord + [graph[place]]);
              x < |labels| == |processIn| == |processOut| == |bufferIn| == |bufferOut|
              && LinksLeft(c.procIn, CutIn(processIn, processOut, x), processOut[x := None], done)
              && LinksLeft(c.bufIn, CutIn(bufferIn, bufferOut, x), bufferOut[x := None], done)
              && ListLeft(graph[..place] + graph[place + 1..], |c.w|, done)
              && Greedy(p, c, ord + [x])
    {
      var x := graph[place];
      LinksCut(c.procIn, processIn, processOut, Elements(ord), x);
      LinksCut(c.bufIn, bufferIn, bufferOut, Elements(ord), x);
      ListCut(graph, |c.w|, Elements(ord), place);
      assert (ord + [x])[..|ord|] == ord && Elements(ord + [x]) == Elements(ord) + {x};
    }

    /** Take the best node off the graph. */
    method GraphReduce(ghost c: Chart, ghost ord: seq<nat>) returns (event: nat, ghost x: nat)
      requires Reducing(c, ord) && graph != []
      modifies this
      ensures Reducing(c, ord + [x]) && x < |c.w| && event == c.w[x] && |graph| < old(|graph|)
    {
      hide ProcOk, BufOk, LinksLeft, ListLeft, Greedy;
      var extrema, place := FindExtrema(c, ord);
      var i := extrema.i;
      x := i;
      ReducedLinks(c, ord, place);
      event := labels[i];
      processIn, processOut := CutIn(processIn, processOut, i), processOut[i := None];
      bufferIn, bufferOut := CutIn(bufferIn, bufferOut, i), bufferOut[i := None];
      graph := graph[..place] + graph[place + 1..];
    }

    /** Take the nodes off until none is left. */
    method ReadOff(ghost c: Chart) returns (ret: seq<int>, ghost ord: seq<nat>)
      requires Reducing(c, [])
      modifies this
      ensures IsChart(p, c) && Greedy(p, c, ord) && |ord| == |c.w| == |ret|
      ensures forall k :: 0 <= k < |ord| ==> ord[k] < |c.w| && ret[k] == c.w[ord[k]]
    {
      hide ProcOk, BufOk, LinksLeft, ListLeft, Greedy, IsChart;
      ord := [];
      ret := [];
      while graph != []
        invariant Reducing(c, ord) && |ord| == |ret|
        invariant forall k :: 0 <= k < |ord| ==> ord[k] < |c.w| && ret[k] == c.w[ord[k]]
        decreases |graph|
      {
        var event;
        ghost var x;
        event, x := GraphReduce(c, ord);
        ret := ret + [event];
        ord := ord + [x];
      }
      AllTaken(p, c, ord, graph);
    }
  }

  /** When no node is left the order is complete. */
  lemma AllTaken(p: Protocol, c: Chart, ord: seq<nat>, graph: seq<nat>)
    requires IsChart(p, c) && Greedy(p, c, ord) && ListLeft(graph, |c.w|, Elements(ord)) && graph == []
    ensures |ord| == |c.w|
  {
    GreedyInside(p, c, ord);
    Pigeonhole(ord, |c.w|);
    var all: seq<nat> := seq(|c.w|, i requires 0 <= i < |c.w| => i);
    forall k | 0 <= k < |all|
      ensures all[k] in ord
    {
      assert k !in graph && k in Elements(ord);
    }
    SubsetLength(all, ord);
  }

  /** The word as labels. */
  ghost function AsWord(w: seq<int>): (u: Word)
    requires forall i :: 0 <= i < |w| ==> w[i] >= 0
    ensures |u| == |w| && forall i :: 0 <= i < |w| ==> u[i] == w[i]
  {
    seq(|w|, i requires 0 <= i < |w| => w[i])
  }

  /** The prefix normal form, or bottom if the word has a label that is not known. */
  method PrefixNormalForm(p: Protocol, w: seq<int>) returns (ret: seq<int>, bottom: bool)
    ensures bottom <==> exists i :: 0 <= i < |w| && !(0 <= w[i] < p.Bound())
    ensures bottom ==> ret == [BOTTOM_CHAR]
    ensures !bottom ==> (forall i :: 0 <= i < |w| ==> w[i] >= 0) && (forall i :: 0 <= i < |ret| ==> ret[i] >= 0)
    ensures !bottom ==> IsNormalForm(p, AsWord(w), AsWord(ret))
    ensures !bottom && p.Consistent() && AllReceived(p, AsWord(w)) ==> IsFirst(p, AsWord(w), AsWord(ret))
  {
    hide ProcOk, BufOk, LinksLeft, ListLeft, Greedy, IsChart;
    var msc := new Msc(p);
    ghost var c := Chart([], [], []);
    for i := 0 to |w|
      invariant msc.Built(c) && fresh(msc) && msc.p == p
      invariant |c.w| == i && forall k :: 0 <= k < i ==> 0 <= w[k] < p.Bound() && c.w[k] == w[k]
    {
      if w[i] < 0 || w[i] >= p.Bound() {
        return [BOTTOM_CHAR], true;
      }
      c := msc.GraphAddNode(w[i], c);
    }
    msc.StartReducing(c);
    ghost var ord: seq<nat>;
    ret, ord := msc.ReadOff(c);
    bottom := false;
    NormalFormFound(p, w, c, ord, ret);
    if p.Consistent() && AllReceived(p, AsWord(w)) {
      NormalFormFirst(p, AsWord(w), AsWord(ret));
    }
  }

  lemma NormalFormFound(p: Protocol, w: seq<int>, c: Chart, ord: seq<nat>, ret: seq<int>)
    requires |c.w| == |w| && forall k :: 0 <= k < |w| ==> c.w[k] == w[k]
    requires IsChart(p, c) && Greedy(p, c, ord) && |ord| == |c.w| && |ret| == |ord|
    requires forall k :: 0 <= k < |ord| ==> ord[k] < |c.w| && ret[k] == c.w[ord[k]]
    ensures (forall i :: 0 <= i < |w| ==> w[i] >= 0) && (forall i :: 0 <= i < |ret| ==> ret[i] >= 0)
    ensures IsNormalForm(p, AsWord(w), AsWord(ret))
  {
    assert AsWord(w) == c.w && AsWord(ret) == Out(c, ord);
    hide Greedy, IsChart;
    assert ReadsOff(p, c, ord, AsWord(ret));
  }
}
