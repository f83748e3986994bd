/** Message sequence charts: the events of a word with the order of each process and with the messages, and the words
    that are read off a chart by always taking the best event that waits for nothing. */
module Charts {
  import opened Automata

  /** The labels 2m and 2m + 1 are the two ends of message m; odd numbers in the order are receive events. */
  datatype Protocol = Protocol(order: seq<nat>, process: seq<int>)
  {
    function Bound(): (b: nat)
      ensures b <= |order| && b <= |process|
    {
      if |order| < |process| then |order| else |process|
    }

    predicate Receives(l: nat)
      requires l < Bound()
    {
      order[l] % 2 == 1
    }

    /** Receive events first, then the smaller number. */
    predicate Better(a: nat, b: nat)
      requires a < Bound() && b < Bound()
    {
      (Receives(a) && !Receives(b)) || (Receives(a) == Receives(b) && order[a] < order[b])
    }

    /** Different labels have different numbers, and the first label of a message sends it. */
    ghost predicate Consistent() {
      && (forall a, b :: 0 <= a < b < Bound() ==> order[a] != order[b])
      && (forall a :: 0 <= a < Bound() ==> order[a] % 2 == a % 2)
    }

    ghost predicate Knows(w: Word) {
      forall i :: 0 <= i < |w| ==> w[i] < Bound()
    }
  }

  // ---- what the processes see ----

  /** The events of process x in w. */
  ghost function Side(p: Protocol, w: Word, x: int): (s: Word)
    requires p.Knows(w)
    ensures |s| <= |w|
    decreases |w|
  {
    if w == [] then []
    else
      var l := w[|w| - 1];
      Side(p, w[..|w| - 1], x) + if p.process[l] == x then [l] else []
  }

  ghost function Occ(w: Word, l: nat): nat
    decreases |w|
  {
    if w == [] then 0 else Occ(w[..|w| - 1], l) + if w[|w| - 1] == l then 1 else 0
  }

  lemma SideSnoc(p: Protocol, w: Word, l: nat, x: int)
    requires p.Knows(w) && l < p.Bound()
    ensures p.Knows(w + [l])
    ensures Side(p, w + [l], x) == Side(p, w, x) + if p.process[l] == x then [l] else []
  {
    assert (w + [l])[..|w|] == w;
  }

  lemma OccSnoc(w: Word, l: nat, m: nat)
    ensures Occ(w + [l], m) == Occ(w, m) + if l == m then 1 else 0
  {
    assert (w + [l])[..|w|] == w;
  }

  /** Longer prefixes of w have longer sides. */
  lemma {:induction false} SidePrefix(p: Protocol, w: Word, i: nat, j: nat, x: int)
    requires p.Knows(w) && i <= j <= |w|
    ensures p.Knows(w[..i]) && p.Knows(w[..j]) && Side(p, w[..i], x) <= Side(p, w[..j], x)
    ensures i < j && p.process[w[i]] == x ==> Side(p, w[..i], x) + [w[i]] <= Side(p, w[..j], x)
    decreases j - i
  {
    if i < j {
      SidePrefix(p, w, i, j - 1, x);
      assert w[..j] == w[..j - 1] + [w[j - 1]];
      SideSnoc(p, w[..j - 1], w[j - 1], x);
    }
  }

  /** Between neighbours of a process nothing of it happens. */
  lemma {:induction false} SideSame(p: Protocol, w: Word, i: nat, j: nat, x: int)
    requires p.Knows(w) && i <= j <= |w| && forall k :: i <= k < j ==> p.process[w[k]] != x
    ensures Side(p, w[..i], x) == Side(p, w[..j], x)
    decreases j - i
  {
    if i < j {
      SideSame(p, w, i, j - 1, x);
      assert w[..j] == w[..j - 1] + [w[j - 1]];
      SideSnoc(p, w[..j - 1], w[j - 1], x);
    }
  }

  /** Every event of a side happens somewhere in w. */
  lemma {:induction false} SideFind(p: Protocol, w: Word, x: int, n: nat) returns (j: nat)
    requires p.Knows(w) && n < |Side(p, w, x)|
    ensures j < |w| && p.process[w[j]] == x && |Side(p, w[..j], x)| == n && w[j] == Side(p, w, x)[n]
    decreases |w|
  {
    var m := |w| - 1;
    if n < |Side(p, w[..m], x)| {
      j := SideFind(p, w[..m], x, n);
      assert w[..m][..j] == w[..j] && w[..m][j] == w[j];
      assert Side(p, w, x)[n] == Side(p, w[..m], x)[n];
    } else {
      j := m;
    }
  }

  /** Occurrences of a label are seen by its process. */
  lemma {:induction false} OccSide(p: Protocol, w: Word, l: nat)
    requires p.Knows(w) && l < p.Bound()
    ensures Occ(w, l) == Occ(Side(p, w, p.process[l]), l)
    decreases |w|
  {
    if w != [] {
      var m := |w| - 1;
      var before := Side(p, w[..m], p.process[l]);
      OccSide(p, w[..m], l);
      if p.process[w[m]] == p.process[l] {
        OccSnoc(before, w[m], l);
      } else {
        assert Side(p, w, p.process[l]) == before;
      }
    }
  }

  lemma {:induction false} OccPrefix(u: Word, v: Word, l: nat)
    requires u <= v
    ensures Occ(u, l) <= Occ(v, l)
    decreases |v|
  {
    if u == v {
    } else {
      OccPrefix(u, v[..|v| - 1], l);
    }
  }

  // ---- charts ----

  datatype Link = None | To(i: nat)

  /** For every event the one before it in its process, and for receive events the one that sends. */
  datatype Chart = Chart(w: Word, procIn: seq<Link>, bufIn: seq<Link>)

  ghost predicate Taken(bufIn: seq<Link>, j: nat, i: nat)
    requires j <= |bufIn|
  {
    exists k :: 0 <= k < j && bufIn[k] == To(i)
  }

  /** Event i sends the message that event j could receive, and no event before j receives it. */
  ghost predicate FreeSend(p: Protocol, w: Word, bufIn: seq<Link>, j: nat, i: nat)
    requires p.Knows(w) && j < |w| && j <= |bufIn|
  {
    i < j && w[i] / 2 == w[j] / 2 && !p.Receives(w[i]) && !Taken(bufIn, j, i)
  }

  ghost predicate ProcOk(p: Protocol, w: Word, j: nat, link: Link)
    requires p.Knows(w) && j < |w|
  {
    match link
    case None => forall i :: 0 <= i < j ==> p.process[w[i]] != p.process[w[j]]
    case To(i) =>
      i < j && p.process[w[i]] == p.process[w[j]] && forall k :: i < k < j ==> p.process[w[k]] != p.process[w[j]]
  }

  /** The oldest send event that is free, for a receive event. */
  ghost predicate BufOk(p: Protocol, w: Word, bufIn: seq<Link>, j: nat, link: Link)
    requires p.Knows(w) && j < |w| && j <= |bufIn|
  {
    match link
    case None => p.Receives(w[j]) ==> forall i: nat :: !FreeSend(p, w, bufIn, j, i)
    case To(i) =>
      p.Receives(w[j]) && FreeSend(p, w, bufIn, j, i) && forall k: nat :: k < i ==> !FreeSend(p, w, bufIn, j, k)
  }

  ghost predicate IsChart(p: Protocol, c: Chart) {
    && p.Knows(c.w) && |c.procIn| == |c.bufIn| == |c.w|
    && forall j :: 0 <= j < |c.w| ==> ProcOk(p, c.w, j, c.procIn[j]) && BufOk(p, c.w, c.bufIn, j, c.bufIn[j])
  }

  // ---- reading a word off a chart ----

  ghost predicate Waits(link: Link, done: set<nat>) {
    link.To? && link.i !in done
  }

  /** Event j is not done and waits for nothing. */
  ghost predicate Minimal(c: Chart, done: set<nat>, j: nat)
    requires |c.procIn| == |c.bufIn| == |c.w|
  {
    j < |c.w| && j !in done && !Waits(c.procIn[j], done) && !Waits(c.bufIn[j], done)
  }

  ghost predicate Best(p: Protocol, c: Chart, done: set<nat>, j: nat)
    requires IsChart(p, c)
  {
    Minimal(c, done, j) && forall k: nat :: Minimal(c, done, k) ==> !p.Better(c.w[k], c.w[j])
  }

  ghost function Elements(ord: seq<nat>): set<nat> {
    set j | j in ord
  }

  /** The events are taken one by one, each of them a best one. */
  ghost predicate Greedy(p: Protocol, c: Chart, ord: seq<nat>)
    requires IsChart(p, c)
    decreases |ord|
  {
    ord == [] ||
    (Greedy(p, c, ord[..|ord| - 1]) && Best(p, c, Elements(ord[..|ord| - 1]), ord[|ord| - 1]))
  }

  ghost function Out(c: Chart, ord: seq<nat>): (u: Word)
    requires forall k :: 0 <= k < |ord| ==> ord[k] < |c.w|
    ensures |u| == |ord|
  {
    seq(|ord|, k requires 0 <= k < |ord| => c.w[ord[k]])
  }

  lemma BestInside(p: Protocol, c: Chart, done: set<nat>, j: nat)
    requires IsChart(p, c) && Best(p, c, done, j)
    ensures j < |c.w| && j !in done
  {
  }

  lemma {:induction false} GreedyInside(p: Protocol, c: Chart, ord: seq<nat>)
    requires IsChart(p, c) && Greedy(p, c, ord)
    ensures forall k :: 0 <= k < |ord| ==> ord[k] < |c.w|
    ensures Distinct(ord)
    decreases |ord|
  {
    hide ProcOk, BufOk, Minimal;
    if ord != [] {
      BestInside(p, c, Elements(ord[..|ord| - 1]), ord[|ord| - 1]);
    }
    if ord != [] {
      var n := |ord| - 1;
      GreedyInside(p, c, ord[..n]);
      forall k | 0 <= k < n
        ensures ord[k] < |c.w| && ord[k] != ord[n]
      {
        assert ord[k] == ord[..n][k] && ord[k] in Elements(ord[..n]);
      }
      assert Distinct(ord[..n]) && ord == ord[..n] + [ord[n]];
    }
  }

  /** Every process has done the first events of its side in out. */
  ghost predicate InStep(p: Protocol, c: Chart, done: set<nat>, out: Word)
    requires IsChart(p, c)
  {
    && p.Knows(out)
    && (forall x :: Side(p, out, x) <= Side(p, c.w, x))
    && (forall j: nat :: j < |c.w| ==> (j in done <==> Index(p, c, j) < |Side(p, out, p.process[c.w[j]])|))
  }

  /** The place of event j in its process. */
  ghost function Index(p: Protocol, c: Chart, j: nat): nat
    requires IsChart(p, c) && j < |c.w|
  {
    SidePrefix(p, c.w, j, |c.w|, p.process[c.w[j]]);
    |Side(p, c.w[..j], p.process[c.w[j]])|
  }

  lemma SideAt(p: Protocol, c: Chart, j: nat)
    requires IsChart(p, c) && j < |c.w|
    ensures var s := Side(p, c.w, p.process[c.w[j]]); Index(p, c, j) < |s| && s[Index(p, c, j)] == c.w[j]
    ensures Side(p, c.w[..j], p.process[c.w[j]]) == Side(p, c.w, p.process[c.w[j]])[..Index(p, c, j)]
  {
    SidePrefix(p, c.w, j, |c.w|, p.process[c.w[j]]);
    assert c.w[..|c.w|] == c.w;
  }

  lemma IndexOrder(p: Protocol, c: Chart, i: nat, j: nat)
    requires IsChart(p, c) && i < j < |c.w| && p.process[c.w[i]] == p.process[c.w[j]]
    ensures Index(p, c, i) < Index(p, c, j)
  {
    SidePrefix(p, c.w, i, j, p.process[c.w[i]]);
  }

  /** The event before j in its process has the place before. */
  lemma IndexPrevious(p: Protocol, c: Chart, j: nat)
    requires IsChart(p, c) && j < |c.w|
    ensures c.procIn[j] == None ==> Index(p, c, j) == 0
    ensures c.procIn[j].To? ==> Index(p, c, j) == Index(p, c, c.procIn[j].i) + 1
  {
    var x := p.process[c.w[j]];
    assert ProcOk(p, c.w, j, c.procIn[j]);
    if c.procIn[j] == None {
      SideSame(p, c.w, 0, j, x);
      assert c.w[..0] == [];
    } else {
      var i := c.procIn[j].i;
      SideSame(p, c.w, i + 1, j, x);
      assert c.w[..i + 1] == c.w[..i] + [c.w[i]];
      SideSnoc(p, c.w[..i], c.w[i], x);
    }
  }

  /** Event j waits for nothing of its process exactly if its place comes next. */
  lemma NextOfProcess(p: Protocol, c: Chart, done: set<nat>, out: Word, j: nat)
    requires IsChart(p, c) && InStep(p, c, done, out) && j < |c.w|
    ensures j !in done && !Waits(c.procIn[j], done) <==> Index(p, c, j) == |Side(p, out, p.process[c.w[j]])|
  {
    IndexPrevious(p, c, j);
    assert ProcOk(p, c.w, j, c.procIn[j]);
  }

  lemma PrefixMore(u: Word, v: Word)
    requires u <= v && |u| < |v|
    ensures u + [v[|u|]] <= v
  {
  }

  lemma StepSides(p: Protocol, c: Chart, done: set<nat>, out: Word, j: nat, x: int)
    requires IsChart(p, c) && InStep(p, c, done, out) && Minimal(c, done, j)
    ensures p.Knows(out + [c.w[j]]) && Side(p, out + [c.w[j]], x) <= Side(p, c.w, x)
  {
    hide Side, Index;
    NextOfProcess(p, c, done, out, j);
    SideAt(p, c, j);
    SideSnoc(p, out, c.w[j], x);
    if p.process[c.w[j]] == x {
      PrefixMore(Side(p, out, x), Side(p, c.w, x));
    }
  }

  lemma StepEvents(p: Protocol, c: Chart, done: set<nat>, out: Word, j: nat, i: nat)
    requires IsChart(p, c) && InStep(p, c, done, out) && Minimal(c, done, j) && i < |c.w|
    ensures p.Knows(out + [c.w[j]])
    ensures i in done + {j} <==> Index(p, c, i) < |Side(p, out + [c.w[j]], p.process[c.w[i]])|
  {
    hide Index, Side;
    var l := c.w[j];
    NextOfProcess(p, c, done, out, j);
    SideSnoc(p, out, l, p.process[c.w[i]]);
    if p.process[c.w[i]] == p.process[l] {
      if i < j {
        IndexOrder(p, c, i, j);
      } else if j < i {
        IndexOrder(p, c, j, i);
      }
    }
  }

  lemma StepDone(p: Protocol, c: Chart, done: set<nat>, out: Word, j: nat)
    requires IsChart(p, c) && InStep(p, c, done, out) && Minimal(c, done, j)
    ensures InStep(p, c, done + {j}, out + [c.w[j]])
  {
    hide Index, Side;
    forall x
      ensures p.Knows(out + [c.w[j]]) && Side(p, out + [c.w[j]], x) <= Side(p, c.w, x)
    {
      StepSides(p, c, done, out, j, x);
    }
    forall i: nat | i < |c.w|
      ensures i in done + {j} <==> Index(p, c, i) < |Side(p, out + [c.w[j]], p.process[c.w[i]])|
    {
      StepEvents(p, c, done, out, j, i);
    }
  }

  lemma {:induction false} GreedyInStep(p: Protocol, c: Chart, ord: seq<nat>)
    requires IsChart(p, c) && Greedy(p, c, ord)
    ensures (forall k :: 0 <= k < |ord| ==> ord[k] < |c.w|) && InStep(p, c, Elements(ord), Out(c, ord))
    decreases |ord|
  {
    hide InStep, Minimal, ProcOk, BufOk;
    GreedyInside(p, c, ord);
    if ord == [] {
      NothingDone(p, c);
      assert Out(c, ord) == [] && Elements(ord) == {};
    } else {
      var n := |ord| - 1;
      GreedyInStep(p, c, ord[..n]);
      StepDone(p, c, Elements(ord[..n]), Out(c, ord[..n]), ord[n]);
      LastEvent(c, ord);
    }
  }

  lemma NothingDone(p: Protocol, c: Chart)
    requires IsChart(p, c)
    ensures InStep(p, c, {}, [])
  {
  }

  lemma LastEvent(c: Chart, ord: seq<nat>)
    requires ord != [] && forall k :: 0 <= k < |ord| ==> ord[k] < |c.w|
    ensures var n := |ord| - 1;
            Out(c, ord) == Out(c, ord[..n]) + [c.w[ord[n]]] && Elements(ord) == Elements(ord[..n]) + {ord[n]}
  {
    var n := |ord| - 1;
    assert ord == ord[..n] + [ord[n]];
  }

  // ---- messages ----

  /** A receive event has its message: before it, more of these messages are sent than received. */
  ghost predicate ReceivedAt(w: Word, j: nat)
    requires j < |w|
  {
    w[j] % 2 == 1 ==> Occ(w[..j], w[j] - 1) > Occ(w[..j], w[j])
  }

  ghost predicate AllReceived(p: Protocol, w: Word)
    requires p.Knows(w)
  {
    forall j :: 0 <= j < |w| ==> ReceivedAt(w, j)
  }

  lemma {:induction false} FindOcc(w: Word, l: nat, n: nat) returns (i: nat)
    requires n < Occ(w, l)
    ensures i < |w| && w[i] == l && Occ(w[..i], l) == n
    decreases |w|
  {
    var m := |w| - 1;
    if n < Occ(w[..m], l) {
      i := FindOcc(w[..m], l, n);
      assert w[..m][..i] == w[..i];
    } else {
      i := m;
    }
  }

  lemma OccAt(w: Word, l: nat, i: nat, j: nat)
    requires i <= j <= |w|
    ensures Occ(w[..i], l) <= Occ(w[..j], l)
    ensures i < j && w[i] == l ==> Occ(w[..i], l) < Occ(w[..j], l)
  {
    OccPrefix(w[..i], w[..j], l);
    if i < j && w[i] == l {
      OccSnoc(w[..i], w[i], l);
      assert w[..i + 1] == w[..i] + [w[i]];
      OccPrefix(w[..i + 1], w[..j], l);
    }
  }

  /** Event j receives, and event i sends, the message with the same number among those of its kind. */
  ghost predicate SameMessage(w: Word, i: nat, j: nat) {
    i < j < |w| && w[j] % 2 == 1 && w[i] == w[j] - 1 && Occ(w[..i], w[i]) == Occ(w[..j], w[j])
  }

  /** The send events that are taken before j are the first ones, as many as there are receive events. */
  ghost predicate FirstTaken(p: Protocol, c: Chart, j: nat, i: nat)
    requires IsChart(p, c) && j <= |c.w| && i < |c.w|
  {
    Taken(c.bufIn, j, i) <==> Occ(c.w[..i], c.w[i]) < Occ(c.w[..j], c.w[i] + 1)
  }

  /** A receive event is linked to the send event with its number. */
  lemma ReceiveLink(p: Protocol, c: Chart, j: nat)
    requires IsChart(p, c) && p.Consistent() && AllReceived(p, c.w) && j < |c.w| && c.w[j] % 2 == 1
    requires forall i: nat :: i < |c.w| && c.w[i] % 2 == 0 ==> FirstTaken(p, c, j, i)
    ensures c.bufIn[j].To? && SameMessage(c.w, c.bufIn[j].i, j)
  {
    hide Occ, ProcOk;
    var l, n := c.w[j] - 1, Occ(c.w[..j], c.w[j]);
    assert ReceivedAt(c.w, j);
    var h := FindOcc(c.w[..j], l, n);
    assert c.w[..j][..h] == c.w[..h];
    assert BufOk(p, c.w, c.bufIn, j, c.bufIn[j]);
    assert FirstTaken(p, c, j, h);
    assert FreeSend(p, c.w, c.bufIn, j, h);
    var i := c.bufIn[j].i;
    assert FreeSend(p, c.w, c.bufIn, j, i) && c.w[i] == l && FirstTaken(p, c, j, i);
    if h < i {
      OccAt(c.w, l, h, i);
    } else {
      OccAt(c.w, l, i, h);
    }
  }

  lemma SameOcc(w: Word, i: nat, h: nat)
    requires i < |w| && h < |w| && w[i] == w[h] && Occ(w[..i], w[i]) == Occ(w[..h], w[h])
    ensures i == h
  {
    if i < h {
      OccAt(w, w[i], i, h);
    } else if h < i {
      OccAt(w, w[i], h, i);
    }
  }

  lemma NextTaken(p: Protocol, c: Chart, j: nat, i: nat)
    requires IsChart(p, c) && p.Consistent() && AllReceived(p, c.w) && j < |c.w| && i < |c.w| && c.w[i] % 2 == 0
    requires forall k: nat :: k < |c.w| && c.w[k] % 2 == 0 ==> FirstTaken(p, c, j, k)
    ensures FirstTaken(p, c, j + 1, i)
  {
    hide Occ, FreeSend, BufOk, ProcOk;
    assert c.w[..j + 1] == c.w[..j] + [c.w[j]];
    OccSnoc(c.w[..j], c.w[j], c.w[i] + 1);
    TakenNext(c.bufIn, j, i);
    assert FirstTaken(p, c, j, i);
    if c.w[j] == c.w[i] + 1 {
      ReceiveLink(p, c, j);
      var h := c.bufIn[j].i;
      if Occ(c.w[..i], c.w[i]) == Occ(c.w[..h], c.w[h]) {
        SameOcc(c.w, i, h);
      }
    } else {
      OtherLink(p, c, j, i);
    }
  }

  lemma TakenNext(bufIn: seq<Link>, j: nat, i: nat)
    requires j < |bufIn|
    ensures Taken(bufIn, j + 1, i) <==> Taken(bufIn, j, i) || bufIn[j] == To(i)
  {
  }

  lemma OtherLink(p: Protocol, c: Chart, j: nat, i: nat)
    requires IsChart(p, c) && p.Consistent() && j < |c.w| && i < |c.w| && c.w[i] % 2 == 0 && c.w[j] != c.w[i] + 1
    ensures c.bufIn[j] != To(i)
  {
    assert BufOk(p, c.w, c.bufIn, j, c.bufIn[j]);
  }

  lemma {:induction false} AllFirstTaken(p: Protocol, c: Chart, j: nat)
    requires IsChart(p, c) && p.Consistent() && AllReceived(p, c.w) && j <= |c.w|
    ensures forall i: nat :: i < |c.w| && c.w[i] % 2 == 0 ==> FirstTaken(p, c, j, i)
    decreases j
  {
    if j == 0 {
      assert c.w[..0] == [];
    } else {
      AllFirstTaken(p, c, j - 1);
      forall i: nat | i < |c.w| && c.w[i] % 2 == 0
        ensures FirstTaken(p, c, j, i)
      {
        NextTaken(p, c, j - 1, i);
      }
    }
  }

  /** In a word with all messages, every receive event is linked to the send event of its message. */
  lemma LinkedMessage(p: Protocol, c: Chart, j: nat)
    requires IsChart(p, c) && p.Consistent() && AllReceived(p, c.w) && j < |c.w|
    ensures c.w[j] % 2 == 1 ==> c.bufIn[j].To? && SameMessage(c.w, c.bufIn[j].i, j)
    ensures c.w[j] % 2 == 0 ==> c.bufIn[j] == None
  {
    assert BufOk(p, c.w, c.bufIn, j, c.bufIn[j]);
    if c.w[j] % 2 == 1 {
      AllFirstTaken(p, c, j);
      ReceiveLink(p, c, j);
    }
  }

  // ---- the events that may come next ----

  /** Label l may come next after out: its process has it next, and the message it receives is sent. */
  ghost predicate Ready(p: Protocol, w: Word, out: Word, l: nat)
    requires p.Knows(w) && p.Knows(out)
  {
    && l < p.Bound() && Side(p, out, p.process[l]) + [l] <= Side(p, w, p.process[l])
    && (l % 2 == 1 ==> Occ(out, l - 1) > Occ(out, l))
  }

  /** A send event is done exactly if more events of its kind are done than there are before it. */
  lemma SentDone(p: Protocol, c: Chart, done: set<nat>, out: Word, i: nat)
    requires IsChart(p, c) && InStep(p, c, done, out) && i < |c.w|
    ensures i in done <==> Occ(out, c.w[i]) > Occ(c.w[..i], c.w[i])
  {
    var l, x := c.w[i], p.process[c.w[i]];
    var s, t, all := Side(p, c.w[..i], x), Side(p, out, x), Side(p, c.w, x);
    SideAt(p, c, i);
    OccSide(p, out, l);
    OccSide(p, c.w[..i], l);
    if i in done {
      PrefixMore(s, all);
      assert s + [l] <= t;
      OccPrefix(s + [l], t, l);
      OccSnoc(s, l, l);
    } else {
      assert t <= s;
      OccPrefix(t, s, l);
    }
  }

  /** The next event of a process has seen as many events of its kind as are done. */
  lemma NextOcc(p: Protocol, c: Chart, done: set<nat>, out: Word, j: nat)
    requires IsChart(p, c) && InStep(p, c, done, out) && j < |c.w|
    requires Index(p, c, j) == |Side(p, out, p.process[c.w[j]])|
    ensures Side(p, out, p.process[c.w[j]]) == Side(p, c.w[..j], p.process[c.w[j]])
    ensures Occ(out, c.w[j]) == Occ(c.w[..j], c.w[j])
  {
    SideAt(p, c, j);
    OccSide(p, out, c.w[j]);
    OccSide(p, c.w[..j], c.w[j]);
  }

  /** An event waits for nothing exactly if its place comes next and its label is ready. */
  lemma MinimalReady(p: Protocol, c: Chart, done: set<nat>, out: Word, j: nat)
    requires IsChart(p, c) && p.Consistent() && AllReceived(p, c.w) && InStep(p, c, done, out) && j < |c.w|
    ensures Minimal(c, done, j) <==>
              Index(p, c, j) == |Side(p, out, p.process[c.w[j]])| && Ready(p, c.w, out, c.w[j])
  {
    hide Index, Side, Occ, ProcOk, BufOk;
    var l, x := c.w[j], p.process[c.w[j]];
    NextOfProcess(p, c, done, out, j);
    LinkedMessage(p, c, j);
    if Index(p, c, j) == |Side(p, out, x)| {
      SideAt(p, c, j);
      PrefixMore(Side(p, out, x), Side(p, c.w, x));
      NextOcc(p, c, done, out, j);
      if l % 2 == 1 {
        SentDone(p, c, done, out, c.bufIn[j].i);
      }
    }
  }

  /** A label that is ready belongs to an event that waits for nothing. */
  lemma ReadyMinimal(p: Protocol, c: Chart, done: set<nat>, out: Word, l: nat) returns (j: nat)
    requires IsChart(p, c) && p.Consistent() && AllReceived(p, c.w) && InStep(p, c, done, out)
    requires Ready(p, c.w, out, l)
    ensures Minimal(c, done, j) && c.w[j] == l
  {
    var x := p.process[l];
    var n := |Side(p, out, x)|;
    j := SideFind(p, c.w, x, n);
    assert (Side(p, out, x) + [l])[n] == l;
    MinimalReady(p, c, done, out, j);
  }

  // ---- normal forms ----

  /** w is the word that a complete best order reads off the chart. */
  ghost predicate ReadsOff(p: Protocol, c: Chart, ord: seq<nat>, u: Word)
    requires IsChart(p, c)
  {
    && Greedy(p, c, ord) && |ord| == |c.w|
    && (forall k :: 0 <= k < |ord| ==> ord[k] < |c.w|) && u == Out(c, ord)
  }

  ghost predicate IsNormalForm(p: Protocol, w: Word, u: Word) {
    exists c: Chart, ord: seq<nat> :: c.w == w && IsChart(p, c) && ReadsOff(p, c, ord, u)
  }

  /** The two words look the same to every process. */
  ghost predicate SameSides(p: Protocol, v: Word, w: Word)
    requires p.Knows(v) && p.Knows(w)
  {
    forall x :: Side(p, v, x) == Side(p, w, x)
  }

  /** All events of a complete order are done. */
  lemma CompleteDone(c: Chart, ord: seq<nat>)
    requires Distinct(ord) && |ord| == |c.w| && forall k :: 0 <= k < |ord| ==> ord[k] < |c.w|
    ensures forall j: nat :: j < |c.w| ==> j in Elements(ord)
  {
    forall j: nat | j < |c.w|
      ensures j in Elements(ord)
    {
      if j !in ord {
        Pigeonhole(ord + [j], |c.w|);
      }
    }
  }

  lemma SideDone(p: Protocol, c: Chart, done: set<nat>, out: Word, x: int)
    requires IsChart(p, c) && InStep(p, c, done, out) && forall j: nat :: j < |c.w| ==> j in done
    ensures p.Knows(out) && Side(p, out, x) == Side(p, c.w, x)
  {
    if Side(p, c.w, x) != [] {
      var j := SideFind(p, c.w, x, |Side(p, c.w, x)| - 1);
      assert j in done && Index(p, c, j) == |Side(p, c.w, x)| - 1;
    }
  }

  /** The word that is read off a chart looks the same to every process. */
  lemma NormalFormSides(p: Protocol, c: Chart, ord: seq<nat>, u: Word)
    requires IsChart(p, c) && ReadsOff(p, c, ord, u)
    ensures p.Knows(u) && SameSides(p, u, c.w)
  {
    GreedyInside(p, c, ord);
    GreedyInStep(p, c, ord);
    CompleteDone(c, ord);
    hide Greedy, IsChart, InStep, Side;
    forall x
      ensures p.Knows(u) && Side(p, u, x) == Side(p, c.w, x)
    {
      SideDone(p, c, Elements(ord), u, x);
    }
  }

  /** Every event comes after the one before it in its process, and a receive event after its send event. */
  lemma GreedyOrder(p: Protocol, c: Chart, ord: seq<nat>, k: nat)
    requires IsChart(p, c) && Greedy(p, c, ord) && k < |ord|
    ensures Greedy(p, c, ord[..k]) && Best(p, c, Elements(ord[..k]), ord[k])
    decreases |ord|
  {
    hide ProcOk, BufOk, Minimal, Best;
    var n := |ord| - 1;
    if k < n {
      GreedyOrder(p, c, ord[..n], k);
      assert ord[..n][..k] == ord[..k];
    }
  }

  lemma MinimalFacts(p: Protocol, c: Chart, done: set<nat>, out: Word, j: nat)
    requires IsChart(p, c) && p.Consistent() && AllReceived(p, c.w) && InStep(p, c, done, out)
    requires Minimal(c, done, j)
    ensures j < |c.w| && Ready(p, c.w, out, c.w[j])
  {
    MinimalReady(p, c, done, out, j);
  }

  lemma StageReady(p: Protocol, c: Chart, ord: seq<nat>, k: nat)
    requires IsChart(p, c) && Greedy(p, c, ord) && p.Consistent() && AllReceived(p, c.w) && k < |ord|
    ensures forall i :: 0 <= i < |ord| ==> ord[i] < |c.w|
    ensures p.Knows(Out(c, ord[..k])) && Ready(p, c.w, Out(c, ord[..k]), c.w[ord[k]])
  {
    hide Ready;
    GreedyInside(p, c, ord);
    GreedyOrder(p, c, ord, k);
    GreedyInStep(p, c, ord[..k]);
    MinimalFacts(p, c, Elements(ord[..k]), Out(c, ord[..k]), ord[k]);
  }

  lemma ReadyReceived(p: Protocol, w: Word, out: Word, u: Word, k: nat)
    requires p.Knows(w) && p.Knows(out) && k < |u| && out == u[..k] && Ready(p, w, out, u[k])
    ensures ReceivedAt(u, k)
  {
    hide Occ, Side;
  }

  lemma OutPrefix(c: Chart, ord: seq<nat>, k: nat)
    requires k < |ord| && forall i :: 0 <= i < |ord| ==> ord[i] < |c.w|
    ensures Out(c, ord[..k]) == Out(c, ord)[..k] && Out(c, ord)[k] == c.w[ord[k]]
  {
  }

  lemma StageReceived(p: Protocol, c: Chart, ord: seq<nat>, u: Word, k: nat)
    requires IsChart(p, c) && ReadsOff(p, c, ord, u) && p.Consistent() && AllReceived(p, c.w) && k < |u|
    ensures ReceivedAt(u, k)
  {
    hide ReceivedAt, Ready, Greedy, Out;
    OutPrefix(c, ord, k);
    StageReady(p, c, ord, k);
    ReadyReceived(p, c.w, Out(c, ord[..k]), u, k);
  }

  /** The word that is read off still has all its messages. */
  lemma NormalFormReceived(p: Protocol, c: Chart, ord: seq<nat>, u: Word)
    requires IsChart(p, c) && ReadsOff(p, c, ord, u) && p.Consistent() && AllReceived(p, c.w)
    ensures p.Knows(u) && AllReceived(p, u)
  {
    NormalFormSides(p, c, ord, u);
    forall k | 0 <= k < |u|
      ensures ReceivedAt(u, k)
    {
      StageReceived(p, c, ord, u, k);
    }
  }

  lemma NotBetter(p: Protocol, a: nat, b: nat)
    requires p.Consistent() && a < p.Bound() && b < p.Bound() && !p.Better(a, b) && !p.Better(b, a)
    ensures a == b
  {
  }

  /** The next labels of two words that look the same to every process are the same. */
  lemma SameNext(p: Protocol, c: Chart, c': Chart, done: set<nat>, done': set<nat>, out: Word, j: nat, j': nat)
    requires IsChart(p, c) && IsChart(p, c') && p.Consistent() && AllReceived(p, c.w) && AllReceived(p, c'.w)
    requires SameSides(p, c.w, c'.w) && InStep(p, c, done, out) && InStep(p, c', done', out)
    requires Best(p, c, done, j) && Best(p, c', done', j')
    ensures c.w[j] == c'.w[j']
  {
    hide Minimal, Side;
    MinimalFacts(p, c, done, out, j);
    MinimalFacts(p, c', done', out, j');
    var k := ReadyMinimal(p, c, done, out, c'.w[j']);
    var k' := ReadyMinimal(p, c', done', out, c.w[j]);
    NotBetter(p, c.w[j], c'.w[j']);
  }

  /** Words that look the same to every process are read off in step. */
  lemma {:induction false} SameOut(p: Protocol, c: Chart, ord: seq<nat>, c': Chart, ord': seq<nat>)
    requires IsChart(p, c) && IsChart(p, c') && p.Consistent() && AllReceived(p, c.w) && AllReceived(p, c'.w)
    requires SameSides(p, c.w, c'.w) && Greedy(p, c, ord) && Greedy(p, c', ord') && |ord| == |ord'|
    ensures (forall k :: 0 <= k < |ord| ==> ord[k] < |c.w|) && (forall k :: 0 <= k < |ord'| ==> ord'[k] < |c'.w|)
    ensures Out(c, ord) == Out(c', ord')
    decreases |ord|
  {
    GreedyInside(p, c, ord);
    GreedyInside(p, c', ord');
    if ord != [] {
      var n := |ord| - 1;
      SameOut(p, c, ord[..n], c', ord'[..n]);
      GreedyInStep(p, c, ord[..n]);
      GreedyInStep(p, c', ord'[..n]);
      LastEvent(c, ord);
      LastEvent(c', ord');
      SameNext(p, c, c', Elements(ord[..n]), Elements(ord'[..n]), Out(c, ord[..n]), ord[n], ord'[n]);
    }
  }

  /** An order cannot go on when the other one is complete. */
  lemma NotLonger(p: Protocol, c: Chart, ord: seq<nat>, u: Word, c': Chart, ord': seq<nat>, u': Word)
    requires IsChart(p, c) && IsChart(p, c') && p.Consistent() && AllReceived(p, c.w) && AllReceived(p, c'.w)
    requires SameSides(p, c.w, c'.w) && ReadsOff(p, c, ord, u) && ReadsOff(p, c', ord', u')
    ensures |ord'| <= |ord|
  {
    if |ord| < |ord'| {
      var m := |ord|;
      GreedyOrder(p, c', ord', m);
      SameOut(p, c, ord, c', ord'[..m]);
      NormalFormSides(p, c, ord, u);
      StageReady(p, c', ord', m);
    }
  }

  /** Two words with all messages have the same normal form exactly if they look the same to every process. */
  lemma NormalFormCanonical(p: Protocol, v: Word, u: Word, v': Word, u': Word)
    requires p.Consistent() && p.Knows(v) && p.Knows(v') && AllReceived(p, v) && AllReceived(p, v')
    requires IsNormalForm(p, v, u) && IsNormalForm(p, v', u')
    ensures u == u' <==> SameSides(p, v, v')
  {
    var c: Chart, ord: seq<nat> :| c.w == v && IsChart(p, c) && ReadsOff(p, c, ord, u);
    var c': Chart, ord': seq<nat> :| c'.w == v' && IsChart(p, c') && ReadsOff(p, c', ord', u');
    NormalFormSides(p, c, ord, u);
    NormalFormSides(p, c', ord', u');
    if SameSides(p, v, v') {
      NotLonger(p, c, ord, u, c', ord', u');
      NotLonger(p, c', ord', u', c, ord, u);
      SameOut(p, c, ord, c', ord');
    }
  }

  /** A normal form is its own normal form. */
  lemma NormalFormIdempotent(p: Protocol, w: Word, u: Word, v: Word)
    requires p.Consistent() && p.Knows(w) && AllReceived(p, w) && IsNormalForm(p, w, u)
    requires IsNormalForm(p, u, v)
    ensures v == u
  {
    var c: Chart, ord: seq<nat> :| c.w == w && IsChart(p, c) && ReadsOff(p, c, ord, u);
    NormalFormSides(p, c, ord, u);
    NormalFormReceived(p, c, ord, u);
    NormalFormCanonical(p, w, u, u, v);
  }

  // ---- the normal form among all words that look the same ----

  /** u is v, or at the first difference it has a receive event for a send event, or the smaller number. */
  ghost predicate ComesFirst(p: Protocol, u: Word, v: Word)
    requires p.Knows(u) && p.Knows(v)
  {
    u == v || exists i ::
      && 0 <= i < |u| && i < |v| && u[..i] == v[..i] && u[i] != v[i]
      && (p.order[u[i]] % 2 == p.order[v[i]] % 2 ==> p.order[u[i]] < p.order[v[i]])
      && (p.order[u[i]] % 2 != p.order[v[i]] % 2 ==> p.order[u[i]] % 2 == 1)
  }

  /** Of all words with all messages that look like w to every process, u comes first. */
  ghost predicate IsFirst(p: Protocol, w: Word, u: Word)
    requires p.Knows(w)
  {
    && p.Knows(u) && SameSides(p, w, u) && AllReceived(p, u)
    && forall v :: p.Knows(v) && SameSides(p, w, v) && AllReceived(p, v) ==> ComesFirst(p, u, v)
  }

  lemma {:induction false} FirstDifference(u: Word, v: Word) returns (i: nat)
    ensures i <= |u| && i <= |v| && u[..i] == v[..i] && (i < |u| && i < |v| ==> u[i] != v[i])
    decreases |u|
  {
    if u == [] || v == [] || u[0] != v[0] {
      i := 0;
    } else {
      i := FirstDifference(u[1..], v[1..]);
      i := i + 1;
      assert u[..i] == [u[0]] + u[1..][..i - 1] && v[..i] == [v[0]] + v[1..][..i - 1];
    }
  }

  /** A word that looks the same is no shorter. */
  lemma SameLength(p: Protocol, u: Word, v: Word)
    requires p.Knows(u) && p.Knows(v) && SameSides(p, u, v) && |v| <= |u| && v == u[..|v|]
    ensures u == v
  {
    assert u[..|u|] == u;
    if |v| < |u| {
      SidePrefix(p, u, |v|, |u|, p.process[u[|v|]]);
    }
  }

  /** The next event of a word that looks like w is ready. */
  lemma NextReady(p: Protocol, w: Word, v: Word, i: nat)
    requires p.Knows(w) && p.Knows(v) && SameSides(p, w, v) && AllReceived(p, v) && i < |v|
    ensures p.Knows(v[..i]) && Ready(p, w, v[..i], v[i])
  {
    hide Occ;
    var x := p.process[v[i]];
    SidePrefix(p, v, i, |v|, x);
    assert v[..|v|] == v && Side(p, w, x) == Side(p, v, x);
    assert ReceivedAt(v, i);
  }

  /** Where another word goes on in another way, the best event comes first. */
  lemma BestComesFirst(p: Protocol, c: Chart, ord: seq<nat>, u: Word, v: Word, i: nat)
    requires IsChart(p, c) && ReadsOff(p, c, ord, u) && p.Consistent() && AllReceived(p, c.w)
    requires p.Knows(u) && p.Knows(c.w) && p.Knows(v) && SameSides(p, c.w, v) && AllReceived(p, v)
    requires i < |u| && i < |v| && u[..i] == v[..i] && u[i] != v[i]
    ensures ComesFirst(p, u, v)
  {
    hide IsChart, Greedy, Minimal, Ready, Side, AllReceived;
    NextReady(p, c.w, v, i);
    OutPrefix(c, ord, i);
    GreedyOrder(p, c, ord, i);
    GreedyInside(p, c, ord[..i]);
    GreedyInStep(p, c, ord[..i]);
    var k := ReadyMinimal(p, c, Elements(ord[..i]), Out(c, ord[..i]), v[i]);
    assert !p.Better(v[i], u[i]);
    assert p.order[u[i]] != p.order[v[i]];
  }

  /** The normal form is the first of all words with all messages that look the same. */
  lemma NormalFormFirst(p: Protocol, w: Word, u: Word)
    requires p.Consistent() && p.Knows(w) && AllReceived(p, w) && IsNormalForm(p, w, u)
    ensures IsFirst(p, w, u)
  {
    var c: Chart, ord: seq<nat> :| c.w == w && IsChart(p, c) && ReadsOff(p, c, ord, u);
    NormalFormSides(p, c, ord, u);
    NormalFormReceived(p, c, ord, u);
    hide IsChart, AllReceived, Side, Greedy;
    forall v | p.Knows(v) && SameSides(p, w, v) && AllReceived(p, v)
      ensures ComesFirst(p, u, v)
    {
      var i := FirstDifference(u, v);
      if i < |u| && i < |v| {
        BestComesFirst(p, c, ord, u, v, i);
      } else if i == |v| {
        SameLength(p, u, v);
      } else {
        SameLength(p, v, u);
      }
    }
  }

  // ---- independent events ----

  lemma {:induction false} SideConcat(p: Protocol, u: Word, v: Word, x: int)
    requires p.Knows(u) && p.Knows(v)
    ensures p.Knows(u + v) && Side(p, u + v, x) == Side(p, u, x) + Side(p, v, x)
    decreases |v|
  {
    if v == [] {
      assert u + v == u;
    } else {
      hide Side;
      var m := |v| - 1;
      var front, l := v[..m], v[m];
      SideConcat(p, u, front, x);
      assert u + v == (u + front) + [l] && v == front + [l];
      SideSnoc(p, u + front, l, x);
      SideSnoc(p, front, l, x);
    }
  }

  /** Neighbours of different processes may be exchanged: no process sees it. */
  lemma SwapSides(p: Protocol, u: Word, a: nat, b: nat, v: Word)
    requires p.Knows(u) && p.Knows(v) && a < p.Bound() && b < p.Bound() && p.process[a] != p.process[b]
    ensures p.Knows(u + [a, b] + v) && p.Knows(u + [b, a] + v) && SameSides(p, u + [a, b] + v, u + [b, a] + v)
  {
    forall x
      ensures p.Knows(u + [a, b] + v) && p.Knows(u + [b, a] + v)
      ensures Side(p, u + [a, b] + v, x) == Side(p, u + [b, a] + v, x)
    {
      PairSide(p, a, b, x);
      PairSide(p, b, a, x);
      SideConcat(p, u, [a, b], x);
      SideConcat(p, u, [b, a], x);
      SideConcat(p, u + [a, b], v, x);
      SideConcat(p, u + [b, a], v, x);
    }
  }

  lemma PairSide(p: Protocol, a: nat, b: nat, x: int)
    requires a < p.Bound() && b < p.Bound()
    ensures p.Knows([a, b])
    ensures Side(p, [a, b], x) == (if p.process[a] == x then [a] else []) + (if p.process[b] == x then [b] else [])
  {
    var none: Word := [];
    assert none + [a] + [b] == [a, b];
    SideSnoc(p, none, a, x);
    SideSnoc(p, none + [a], b, x);
  }

  lemma PairOcc(u: Word, a: nat, b: nat, l: nat)
    ensures Occ(u + [a], l) == Occ(u, l) + (if a == l then 1 else 0)
    ensures Occ(u + [a, b], l) == Occ(u, l) + (if a == l then 1 else 0) + (if b == l then 1 else 0)
  {
    OccSnoc(u, a, l);
    OccSnoc(u + [a], b, l);
    assert u + [a] + [b] == u + [a, b];
  }

  lemma {:induction false} OccConcat(u: Word, v: Word, l: nat)
    ensures Occ(u + v, l) == Occ(u, l) + Occ(v, l)
    decreases |v|
  {
    if v == [] {
      assert u + v == u;
    } else {
      assert (u + v)[..|u + v| - 1] == u + v[..|v| - 1];
      OccConcat(u, v[..|v| - 1], l);
    }
  }

  lemma SwapOcc(u: Word, a: nat, b: nat, v: Word, l: nat)
    ensures Occ(u + [a, b] + v, l) == Occ(u + [b, a] + v, l)
  {
    PairOcc(u, a, b, l);
    PairOcc(u, b, a, l);
    OccConcat(u + [a, b], v, l);
    OccConcat(u + [b, a], v, l);
  }

  lemma SwapReceivedBehind(p: Protocol, u: Word, a: nat, b: nat, v: Word, k: nat)
    requires p.Knows(u + [a, b] + v) && AllReceived(p, u + [a, b] + v) && k < |v| && v[k] % 2 == 1
    ensures ReceivedAt(u + [b, a] + v, |u| + 2 + k)
  {
    hide Occ;
    var w, w', j := u + [a, b] + v, u + [b, a] + v, |u| + 2 + k;
    assert w'[..j] == u + [b, a] + v[..k] && w[..j] == u + [a, b] + v[..k] && w[j] == v[k] == w'[j];
    assert ReceivedAt(w, j);
    SwapOcc(u, a, b, v[..k], v[k]);
    SwapOcc(u, a, b, v[..k], v[k] - 1);
  }

  lemma PairFront(u: Word, a: nat, b: nat, v: Word)
    ensures var w := u + [a, b] + v;
            |w| == |u| + 2 + |v| && w[..|u|] == u && w[|u|] == a && w[..|u| + 1] == u + [a] && w[|u| + 1] == b
  {
  }

  lemma SwapReceivedBefore(p: Protocol, u: Word, a: nat, b: nat, v: Word, j: nat)
    requires p.Knows(u + [a, b] + v) && AllReceived(p, u + [a, b] + v) && j < |u|
    ensures ReceivedAt(u + [b, a] + v, j)
  {
    hide Occ;
    var w, w' := u + [a, b] + v, u + [b, a] + v;
    assert w'[..j] == w[..j] && w'[j] == w[j] && ReceivedAt(w, j);
  }

  lemma FirstReceived(u: Word, a: nat, b: nat, w: Word, w': Word)
    requires |u| + 1 < |w| && w[..|u| + 1] == u + [a] && w[|u| + 1] == b && ReceivedAt(w, |u| + 1)
    requires |u| < |w'| && w'[..|u|] == u && w'[|u|] == b
    requires b % 2 == 1 && a == b - 1 ==> Occ(u, a) > Occ(u, b)
    ensures ReceivedAt(w', |u|)
  {
    hide Occ;
    if b % 2 == 1 {
      OccSnoc(u, a, b);
      OccSnoc(u, a, b - 1);
    }
  }

  lemma SwapReceivedFirst(p: Protocol, u: Word, a: nat, b: nat, v: Word)
    requires p.Knows(u + [a, b] + v) && AllReceived(p, u + [a, b] + v)
    requires b % 2 == 1 && a == b - 1 ==> Occ(u, a) > Occ(u, b)
    ensures ReceivedAt(u + [b, a] + v, |u|)
  {
    hide Occ;
    var w, w' := u + [a, b] + v, u + [b, a] + v;
    hide ReceivedAt;
    PairFront(u, a, b, v);
    PairFront(u, b, a, v);
    assert ReceivedAt(w, |u| + 1);
    FirstReceived(u, a, b, w, w');
  }

  lemma SwapReceivedSecond(p: Protocol, u: Word, a: nat, b: nat, v: Word)
    requires p.Knows(u + [a, b] + v) && AllReceived(p, u + [a, b] + v)
    requires a != b
    ensures ReceivedAt(u + [b, a] + v, |u| + 1)
  {
    hide Occ;
    var w, w', n := u + [a, b] + v, u + [b, a] + v, |u|;
    assert w'[n + 1] == a && w[..n] == u && w[n] == a && ReceivedAt(w, n);
    PairFront(u, b, a, v);
    if a % 2 == 1 {
      OccSnoc(u, b, a);
      OccSnoc(u, b, a - 1);
    }
  }

  /** Neighbours may be exchanged unless the second receives what the first sends; all messages stay. */
  lemma SwapReceived(p: Protocol, u: Word, a: nat, b: nat, v: Word)
    requires p.Knows(u + [a, b] + v) && p.Knows(u + [b, a] + v) && AllReceived(p, u + [a, b] + v)
    requires a != b && (b % 2 == 1 && a == b - 1 ==> Occ(u, a) > Occ(u, b))
    ensures AllReceived(p, u + [b, a] + v)
  {
    forall j | 0 <= j < |u + [b, a] + v|
      ensures ReceivedAt(u + [b, a] + v, j)
    {
      if j < |u| {
        SwapReceivedBefore(p, u, a, b, v, j);
      } else if j == |u| {
        SwapReceivedFirst(p, u, a, b, v);
      } else if j == |u| + 1 {
        SwapReceivedSecond(p, u, a, b, v);
      } else {
        SwapReceivedAfter(p, u, a, b, v, j);
      }
    }
  }

  lemma SwapReceivedAfter(p: Protocol, u: Word, a: nat, b: nat, v: Word, j: nat)
    requires p.Knows(u + [a, b] + v) && AllReceived(p, u + [a, b] + v) && |u| + 1 < j < |u| + 2 + |v|
    ensures ReceivedAt(u + [b, a] + v, j)
  {
    var k := j - |u| - 2;
    assert (u + [b, a] + v)[j] == v[k];
    if v[k] % 2 == 1 {
      SwapReceivedBehind(p, u, a, b, v, k);
    }
  }

  /** Exchanging independent neighbours keeps the normal form. */
  lemma SwapKeeps(p: Protocol, u: Word, a: nat, b: nat, v: Word, x: Word, y: Word)
    requires p.Consistent() && p.Knows(u) && p.Knows(v) && a < p.Bound() && b < p.Bound()
    requires p.process[a] != p.process[b] && (b % 2 == 1 && a == b - 1 ==> Occ(u, a) > Occ(u, b))
    requires p.Knows(u + [a, b] + v) && AllReceived(p, u + [a, b] + v)
    requires IsNormalForm(p, u + [a, b] + v, x) && IsNormalForm(p, u + [b, a] + v, y)
    ensures x == y
  {
    SwapSides(p, u, a, b, v);
    SwapReceived(p, u, a, b, v);
    NormalFormCanonical(p, u + [a, b] + v, x, u + [b, a] + v, y);
  }
}
