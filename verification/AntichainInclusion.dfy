/** Language inclusion by backward search over an antichain of game positions. */
module AntichainInclusion {
  import opened Automata
  import opened OrderedSets
  import opened FiniteAutomata
  import opened Antichains

  /** The positions found so far, kept by the state of the other automaton. */
  type Attractor = seq<Bucket>

  /** Every entry holds exactly the states of a that are safe for its word, and b accepts the word from q. */
  ghost predicate EntryOk(a: Fa, b: Fa, q: nat, e: Entry) {
    Sorted(e.states) && Elems(e.states) == a.Safe(e.word) && b.AcceptsFrom(q, e.word)
  }

  ghost predicate BucketOk(a: Fa, b: Fa, q: nat, bucket: Bucket) {
    && Antichain(bucket)
    && (forall e :: e in Members(bucket) ==> EntryOk(a, b, q, e) && !SeparatesFrom(a, b, q, e.word))
  }

  /** An antichain of sound positions for every state, none of them winning. */
  ghost predicate AttractorOk(a: Fa, b: Fa, att: Attractor) {
    |att| == b.states && forall q :: 0 <= q < b.states ==> BucketOk(a, b, q, att[q])
  }

  /** All positions one letter in front of the entry e of state q are covered. */
  ghost predicate PredecessorsCovered(a: Fa, b: Fa, att: Attractor, q: nat, e: Entry) {
    |att| == b.states &&
    forall x, p :: 0 <= x < b.letters && 0 <= p < b.states && p in b.Pre(q, x) ==>
      CoversSet(att[p], a.Safe([x] + e.word))
  }

  /** Every entry that is not scheduled has its predecessors covered. */
  ghost predicate Frontier(a: Fa, b: Fa, att: Attractor, ext: Attractor) {
    |att| == |ext| == b.states &&
    forall q, e :: 0 <= q < b.states && e in Members(att[q]) && e !in Members(ext[q]) ==>
      PredecessorsCovered(a, b, att, q, e)
  }

  /** Every position reached with at most k letters is covered. */
  ghost predicate Level(a: Fa, b: Fa, att: Attractor, k: nat) {
    |att| == b.states &&
    forall q, w :: 0 <= q < b.states && |w| <= k && b.AcceptsFrom(q, w) ==> CoversSet(att[q], a.Safe(w))
  }

  /** What the one covers the other covers too. */
  ghost predicate CoversMore(att: Attractor, att': Attractor) {
    |att| == |att'| &&
    forall q, s :: 0 <= q < |att| && CoversSet(att[q], s) ==> CoversSet(att'[q], s)
  }

  lemma SafeMonotone(a: Fa, x: nat, v: Word, w: Word)
    requires a.Valid() && a.Safe(v) <= a.Safe(w)
    ensures a.Safe([x] + v) <= a.Safe([x] + w)
  {
    SafeStep(a, x, v);
    SafeStep(a, x, w);
  }

  /** A position covered by an entry whose predecessors are covered has its predecessors covered. */
  lemma CoveredPredecessor(a: Fa, b: Fa, att: Attractor, target: Attractor, t: nat, p: nat, x: nat, w: Word)
    requires a.Valid() && b.Valid() && |att| == |target| == b.states && t < b.states && x < b.letters
    requires p in b.Pre(t, x) && CoversSet(att[t], a.Safe(w))
    requires AllPredecessorsCovered(a, b, att, target)
    ensures p < b.states && CoversSet(target[p], a.Safe([x] + w))
  {
    var e :| e in Members(att[t]) && a.Safe(w) <= Elems(e.states);
    SafeMonotone(a, x, w, e.word);
    assert PredecessorsCovered(a, b, target, t, e);
    assert (p, x, t) in b.trans;
    var f :| f in Members(target[p]) && a.Safe([x] + e.word) <= Elems(f.states);
    assert a.Safe([x] + w) <= Elems(f.states);
  }

  ghost predicate AllPredecessorsCovered(a: Fa, b: Fa, att: Attractor, target: Attractor) {
    |att| == |target| == b.states &&
    forall q, e :: 0 <= q < b.states && e in Members(att[q]) ==>
      Elems(e.states) == a.Safe(e.word) && PredecessorsCovered(a, b, target, q, e)
  }

  lemma LevelUp(a: Fa, b: Fa, att: Attractor, target: Attractor, k: nat)
    requires a.Valid() && b.Valid() && Level(a, b, att, k) && CoversMore(att, target)
    requires AllPredecessorsCovered(a, b, att, target)
    ensures Level(a, b, target, k + 1)
  {
    forall q, w | 0 <= q < b.states && |w| <= k + 1 && b.AcceptsFrom(q, w)
      ensures CoversSet(target[q], a.Safe(w))
    {
      if |w| <= k {
        assert CoversSet(att[q], a.Safe(w));
      } else {
        assert w == [w[0]] + w[1..];
        AcceptsStep(b, q, w[0], w[1..]);
        var t: nat :| q in b.Pre(t, w[0]) && b.AcceptsFrom(t, w[1..]);
        assert (q, w[0], t) in b.trans;
        CoveredPredecessor(a, b, att, target, t, q, w[0], w[1..]);
      }
    }
  }

  /** When no entry is scheduled any more, every accepted word is covered. */
  lemma {:induction false} LevelClosed(a: Fa, b: Fa, att: Attractor, k: nat)
    requires a.Valid() && b.Valid() && Level(a, b, att, 0) && AllPredecessorsCovered(a, b, att, att)
    ensures Level(a, b, att, k)
  {
    if k > 0 {
      LevelClosed(a, b, att, k - 1);
      LevelUp(a, b, att, att, k - 1);
    }
  }

  /** As long as no entry wins, no word of the lengths covered separates the automata. */
  lemma NothingSeparates(a: Fa, b: Fa, att: Attractor, k: nat, w: Word)
    requires a.Valid() && b.Valid() && AttractorOk(a, b, att) && Level(a, b, att, k) && |w| <= k
    ensures !Separates(a, b, w)
  {
    SeparatesIff(a, b, w);
    forall q: nat
      ensures !SeparatesFrom(a, b, q, w)
    {
      if q in Elems(b.initial) && b.AcceptsFrom(q, w) {
        var e :| e in Members(att[q]) && a.Safe(w) <= Elems(e.states);
        assert BucketOk(a, b, q, att[q]);
        assert EntryOk(a, b, q, e) && !SeparatesFrom(a, b, q, e.word);
      }
    }
  }

  /** All words have length k. */
  ghost predicate AllLength(att: Attractor, k: nat) {
    forall q, e :: 0 <= q < |att| && e in Members(att[q]) ==> |e.word| == k
  }

  /** The bucket after g was put in: unchanged if g is below an entry, else g with the entries not below it. */
  ghost predicate Inserted(was: Bucket, g: Entry, now: Bucket) {
    if Superseded(was, g) then now == was
    else NoDuplicates(now) && Members(now) == (set e | e in Members(was) && !Below(e, g)) + {g}
  }

  lemma InsertCovers(a: Fa, b: Fa, att: Attractor, p: nat, g: Entry, r: Attractor)
    requires AttractorOk(a, b, att) && p < b.states && EntryOk(a, b, p, g) && !SeparatesFrom(a, b, p, g.word)
    requires |r| == |att| && (forall q :: 0 <= q < |att| && q != p ==> r[q] == att[q]) && Inserted(att[p], g, r[p])
    ensures AttractorOk(a, b, r) && CoversMore(att, r) && CoversSet(r[p], Elems(g.states))
    ensures forall k :: AllLength(att, k) && |g.word| == k ==> AllLength(r, k)
  {
    assert BucketOk(a, b, p, att[p]);
    if Superseded(att[p], g) {
      assert r == att;
    } else {
      InsertedBucket(a, b, p, att[p], g, r[p]);
      forall q | 0 <= q < b.states
        ensures BucketOk(a, b, q, r[q])
      {
        assert BucketOk(a, b, q, att[q]);
      }
    }
  }

  lemma InsertedBucket(a: Fa, b: Fa, p: nat, was: Bucket, g: Entry, now: Bucket)
    requires BucketOk(a, b, p, was) && EntryOk(a, b, p, g) && !SeparatesFrom(a, b, p, g.word)
    requires Inserted(was, g, now) && !Superseded(was, g)
    ensures BucketOk(a, b, p, now) && Members(now) <= Members(was) + {g} && g in Members(now)
    ensures forall s :: CoversSet(was, s) ==> CoversSet(now, s)
  {
    AntichainIff(was);
    AntichainIff(now);
    CoverAfterMerge(was, {g}, {g}, now);
  }

  lemma BucketFacts(a: Fa, b: Fa, att: Attractor, p: nat, g: Entry)
    requires AttractorOk(a, b, att) && p < b.states
    ensures forall q :: 0 <= q < |att| ==> NoDuplicates(att[q])
    ensures Between(att[p], g) && forall e :: e in Members(att[p]) ==> Sorted(e.states)
  {
    forall q | 0 <= q < |att|
      ensures NoDuplicates(att[q]) && Flat(Members(att[q]))
    {
      assert BucketOk(a, b, q, att[q]);
      AntichainIff(att[q]);
    }
    assert BucketOk(a, b, p, att[p]);
    forall e, f | e in Members(att[p]) && f in Members(att[p]) && Below(e, g) && Below(g, f)
      ensures e == f
    {
      assert Below(e, f);
    }
  }

  /** Put position (p, g) into the antichain unless it is below an entry; entries below it go. */
  method InsertNew(a: Fa, b: Fa, att: Attractor, p: nat, g: Entry) returns (r: Attractor)
    requires AttractorOk(a, b, att) && p < b.states && EntryOk(a, b, p, g) && !SeparatesFrom(a, b, p, g.word)
    ensures AttractorOk(a, b, r) && CoversMore(att, r) && CoversSet(r[p], Elems(g.states))
    ensures forall k :: AllLength(att, k) && |g.word| == k ==> AllLength(r, k)
  {
    BucketFacts(a, b, att, p, g);
    hide AttractorOk, EntryOk, SeparatesFrom, Antichain, NoDuplicates, Members, EntriesOf, CoversMore, CoversSet,
      AllLength, Between;
    var superseded, obsolete := Compare(att[p], g, p);
    forall q: nat | q != p
      ensures EntriesOf(obsolete, q) == {}
    {
      EntriesElsewhere(obsolete, q);
    }
    r := RemoveObsolete(att, obsolete);
    if !superseded {
      AppendNew(r[p], g);
      r := r[p := r[p] + [g]];
    } else {
      NoEntries(p);
    }
    InsertCovers(a, b, att, p, g, r);
  }

  lemma NoEntries(p: nat)
    ensures EntriesOf([], p) == {}
  {
  }

  /** The states all of whose successors under x lie in s. */
  ghost function ControlledPre(a: Fa, s: set<nat>, x: nat): set<nat> {
    set p: nat | p < a.states && a.Post(p, x) <= s
  }

  /** rows[x] holds the states without successors under letter x. */
  ghost predicate IsDeadTable(a: Fa, dead: seq<seq<nat>>) {
    && |dead| == a.letters
    && (forall x :: 0 <= x < a.letters ==> Sorted(dead[x]) && Elems(dead[x]) == ControlledPre(a, {}, x))
  }

  /** row holds the states below k without successors under x. */
  ghost predicate DeadUpTo(a: Fa, row: seq<nat>, x: nat, k: nat) {
    Sorted(row) && Elems(row) == set p | p in ControlledPre(a, {}, x) && p < k
  }

  lemma DeadNext(a: Fa, row: seq<nat>, x: nat, k: nat, post: seq<nat>)
    requires DeadUpTo(a, row, x, k) && k < a.states && Elems(post) == a.Post(k, x)
    ensures DeadUpTo(a, if post == [] then Insert(row, k) else row, x, k + 1)
  {
    InsertExact(row, k);
    if post != [] {
      assert post[0] in Elems(post);
    }
  }

  method StatesWithoutSuccessors(a: Fa, postmap: seq<seq<seq<nat>>>) returns (dead: seq<seq<nat>>)
    requires IsPostmap(a, postmap)
    ensures IsDeadTable(a, dead)
  {
    dead := [];
    for sigma := 0 to a.letters
      invariant |dead| == sigma
      invariant forall x :: 0 <= x < sigma ==> Sorted(dead[x]) && Elems(dead[x]) == ControlledPre(a, {}, x)
    {
      var row: seq<nat> := [];
      for state := 0 to a.states
        invariant DeadUpTo(a, row, sigma, state)
      {
        DeadNext(a, row, sigma, state, postmap[state][sigma]);
        if postmap[state][sigma] == [] {
          row := Insert(row, state);
        }
      }
      dead := dead + [row];
    }
  }

  /** The states that cannot leave the set when x is read: predecessors that are not uncontrollable, and the
      states without successors. */
  method Controllable(a: Fa, states: seq<nat>, x: nat, premap: seq<seq<seq<nat>>>, postmap: seq<seq<seq<nat>>>,
                      dead: seq<seq<nat>>) returns (r: seq<nat>)
    requires a.Valid() && IsPremap(a, premap) && IsPostmap(a, postmap) && IsDeadTable(a, dead)
    requires Sorted(states) && (forall s :: s in Elems(states) ==> s < a.states) && x < a.letters
    ensures Sorted(r) && Elems(r) == ControlledPre(a, Elems(states), x)
  {
    var thisPre := AllPredecessors(a, states, x, premap);
    var uncontrollable := Uncontrollable(a, states, x, thisPre, postmap);
    r := SetWithout(thisPre, uncontrollable);
    r := InsertAll(r, dead[x]);
    ControlledSplit(a, Elems(states), x);
  }

  method AllPredecessors(a: Fa, states: seq<nat>, x: nat, premap: seq<seq<seq<nat>>>) returns (r: seq<nat>)
    requires a.Valid() && IsPremap(a, premap) && (forall s :: s in Elems(states) ==> s < a.states) && x < a.letters
    ensures Sorted(r) && Elems(r) == Meeting(a, Elems(states), x)
  {
    r := [];
    for i := 0 to |states|
      invariant Sorted(r)
      invariant Elems(r) == Meeting(a, Elems(states[..i]), x)
    {
      ElemsStep(states, i);
      ElemsMember(states, states[i]);
      MeetsOneMore(a, states[i], x, Elems(states[..i]));
      r := InsertAll(r, premap[states[i]][x]);
    }
    assert states[..|states|] == states;
  }

  ghost function Meeting(a: Fa, s: set<nat>, x: nat): set<nat> {
    set p: nat | p < a.states && a.Post(p, x) * s != {}
  }

  lemma MeetsOneMore(a: Fa, s: nat, x: nat, others: set<nat>)
    requires a.Valid()
    ensures Meeting(a, others + {s}, x) == Meeting(a, others, x) + a.Pre(s, x)
  {
    PreMeetsPost(a, s, x);
    forall p: nat | p < a.states
      ensures a.Post(p, x) * (others + {s}) != {} <==> a.Post(p, x) * others != {} || s in a.Post(p, x)
    {
      assert a.Post(p, x) * (others + {s}) == a.Post(p, x) * others + a.Post(p, x) * {s};
      assert a.Post(p, x) * {s} != {} <==> s in a.Post(p, x) by {
        if s in a.Post(p, x) {
          assert s in a.Post(p, x) * {s};
        }
      }
    }
  }

  lemma PreMeetsPost(a: Fa, s: nat, x: nat)
    requires a.Valid()
    ensures a.Pre(s, x) == set p: nat | p < a.states && s in a.Post(p, x)
  {
    forall p: nat
      ensures p in a.Pre(s, x) <==> p < a.states && s in a.Post(p, x)
    {
      assert p in a.Pre(s, x) <==> (p, x, s) in a.trans;
      assert s in a.Post(p, x) <==> (p, x, s) in a.trans;
    }
  }

  /** r holds the states of m that can leave s when x is read. */
  ghost predicate Leaving(a: Fa, r: seq<nat>, m: set<nat>, s: set<nat>, x: nat) {
    Sorted(r) && Elems(r) == set p | p in m && !(a.Post(p, x) <= s)
  }

  lemma LeavingNext(a: Fa, r: seq<nat>, m: set<nat>, s: set<nat>, x: nat, p: nat)
    requires Leaving(a, r, m, s, x)
    ensures Leaving(a, if a.Post(p, x) <= s then r else Insert(r, p), m + {p}, s, x)
  {
    InsertExact(r, p);
  }

  method Uncontrollable(a: Fa, states: seq<nat>, x: nat, thisPre: seq<nat>, postmap: seq<seq<seq<nat>>>)
    returns (r: seq<nat>)
    requires a.Valid() && IsPostmap(a, postmap) && Sorted(states) && x < a.letters
    requires forall p :: p in Elems(thisPre) ==> p < a.states
    ensures Sorted(r) && Elems(r) == set p | p in Elems(thisPre) && !(a.Post(p, x) <= Elems(states))
  {
    r := [];
    for i := 0 to |thisPre|
      invariant Leaving(a, r, Elems(thisPre[..i]), Elems(states), x)
    {
      ElemsStep(thisPre, i);
      ElemsMember(thisPre, thisPre[i]);
      var controlled := SetIncludes(states, postmap[thisPre[i]][x]);
      LeavingNext(a, r, Elems(thisPre[..i]), Elems(states), x, thisPre[i]);
      if !controlled {
        r := Insert(r, thisPre[i]);
      }
    }
    assert thisPre[..|thisPre|] == thisPre;
  }

  lemma ControlledSplit(a: Fa, s: set<nat>, x: nat)
    ensures var pre := Meeting(a, s, x);
      var bad := set p | p in pre && !(a.Post(p, x) <= s);
      ControlledPre(a, s, x) == pre - bad + ControlledPre(a, {}, x)
  {
    forall p: nat | p < a.states
      ensures a.Post(p, x) <= s <==> (a.Post(p, x) * s != {} && a.Post(p, x) <= s) || a.Post(p, x) <= {}
    {
    }
  }

  /** The tables that the search looks up. */
  datatype Tables = Tables(thisPremap: seq<seq<seq<nat>>>, thisPostmap: seq<seq<seq<nat>>>,
                           otherPremap: seq<seq<seq<nat>>>, dead: seq<seq<nat>>)

  ghost predicate TablesOk(a: Fa, b: Fa, t: Tables) {
    && a.Valid() && b.Valid() && a.letters == b.letters
    && IsPremap(a, t.thisPremap) && IsPostmap(a, t.thisPostmap) && IsPremap(b, t.otherPremap)
    && IsDeadTable(a, t.dead)
  }

  /** Is the position winning: is its state initial in other, and does its set have all initial states of this? */
  method WinningCondition(a: Fa, b: Fa, p: nat, g: Entry) returns (win: bool)
    requires a.Valid() && b.Valid() && EntryOk(a, b, p, g)
    ensures win <==> SeparatesFrom(a, b, p, g.word)
  {
    ElemsMember(b.initial, p);
    if p !in b.initial {
      return false;
    }
    win := SetIncludes(g.states, a.initial);
  }

  /** The position one letter in front of e is as sound as e. */
  lemma PredecessorOk(a: Fa, b: Fa, q: nat, e: Entry, x: nat, p: nat, g: Entry)
    requires a.Valid() && b.Valid() && EntryOk(a, b, q, e) && p in b.Pre(q, x)
    requires Sorted(g.states) && Elems(g.states) == ControlledPre(a, Elems(e.states), x) && g.word == [x] + e.word
    ensures p < b.states && EntryOk(a, b, p, g)
  {
    assert (p, x, q) in b.trans;
    SafeStep(a, x, e.word);
    AcceptsStep(b, p, x, e.word);
  }

  /** Every state of m has an entry that includes s. */
  ghost predicate CoveredAt(r: Attractor, m: set<nat>, s: set<nat>) {
    forall p :: p in m ==> p < |r| && CoversSet(r[p], s)
  }

  lemma CoveredAtNext(was: Attractor, r: Attractor, m: set<nat>, s: set<nat>, p: nat)
    requires CoveredAt(was, m, s) && CoversMore(was, r) && p < |r| && CoversSet(r[p], s)
    ensures CoveredAt(r, m + {p}, s)
  {
    hide CoversSet;
  }

  /** All positions that letter x puts in front of the entry e of state q. */
  method ExpandLetter(a: Fa, b: Fa, t: Tables, q: nat, e: Entry, x: nat, att: Attractor)
    returns (won: bool, counterexample: Word, r: Attractor)
    requires TablesOk(a, b, t) && q < b.states && EntryOk(a, b, q, e) && x < b.letters
    requires AttractorOk(a, b, att) && AllLength(att, |e.word| + 1)
    ensures won ==> Separates(a, b, counterexample) && |counterexample| == |e.word| + 1
    ensures !won ==> AttractorOk(a, b, r) && AllLength(r, |e.word| + 1) && CoversMore(att, r)
    ensures !won ==> forall p :: 0 <= p < b.states && p in b.Pre(q, x) ==> CoversSet(r[p], a.Safe([x] + e.word))
  {
    won, counterexample, r := false, [], att;
    ghost var pre := b.Pre(q, x);
    if t.otherPremap[q][x] != [] {
      assert forall s :: s in Elems(e.states) ==> s < a.states;
      var states := Controllable(a, e.states, x, t.thisPremap, t.thisPostmap, t.dead);
      var g := Entry(states, [x] + e.word);
      SafeStep(a, x, e.word);
      for i := 0 to |t.otherPremap[q][x]|
        invariant AttractorOk(a, b, r) && AllLength(r, |e.word| + 1) && CoversMore(att, r)
        invariant CoveredAt(r, Elems(t.otherPremap[q][x][..i]), Elems(g.states))
      {
        var p := t.otherPremap[q][x][i];
        ElemsMember(t.otherPremap[q][x], p);
        PredecessorOk(a, b, q, e, x, p, g);
        var win := WinningCondition(a, b, p, g);
        if win {
          SeparatesIff(a, b, g.word);
          return true, g.word, r;
        }
        ghost var was := r;
        r := InsertNew(a, b, r, p, g);
        CoversMoreTransitive(att, was, r);
        ElemsStep(t.otherPremap[q][x], i);
        CoveredAtNext(was, r, Elems(t.otherPremap[q][x][..i]), Elems(g.states), p);
      }
      assert t.otherPremap[q][x][..|t.otherPremap[q][x]|] == t.otherPremap[q][x];
    }
  }

  lemma CoversMoreTransitive(x: Attractor, y: Attractor, z: Attractor)
    requires CoversMore(x, y) && CoversMore(y, z)
    ensures CoversMore(x, z)
  {
  }

  /** All positions in front of the entry e of state q. */
  method ExpandEntry(a: Fa, b: Fa, t: Tables, q: nat, e: Entry, att: Attractor)
    returns (won: bool, counterexample: Word, r: Attractor)
    requires TablesOk(a, b, t) && q < b.states && EntryOk(a, b, q, e)
    requires AttractorOk(a, b, att) && AllLength(att, |e.word| + 1)
    ensures won ==> Separates(a, b, counterexample) && |counterexample| == |e.word| + 1
    ensures !won ==> AttractorOk(a, b, r) && AllLength(r, |e.word| + 1) && CoversMore(att, r)
    ensures !won ==> PredecessorsCovered(a, b, r, q, e)
  {
    won, counterexample, r := false, [], att;
    for sigma := 0 to b.letters
      invariant AttractorOk(a, b, r) && AllLength(r, |e.word| + 1) && CoversMore(att, r)
      invariant forall x, p :: 0 <= x < sigma && 0 <= p < b.states && p in b.Pre(q, x) ==>
        CoversSet(r[p], a.Safe([x] + e.word))
    {
      ghost var was := r;
      won, counterexample, r := ExpandLetter(a, b, t, q, e, sigma, r);
      if won {
        return;
      }
      CoversMoreTransitive(att, was, r);
    }
  }

  lemma EntriesSound(a: Fa, b: Fa, ext: Attractor, q: nat, k: nat)
    requires AttractorOk(a, b, ext) && AllLength(ext, k) && q < b.states
    ensures |ext| == b.states
    ensures forall i :: 0 <= i < |ext[q]| ==> EntryOk(a, b, q, ext[q][i]) && |ext[q][i].word| == k
  {
    assert BucketOk(a, b, q, ext[q]);
    forall i | 0 <= i < |ext[q]|
      ensures ext[q][i] in Members(ext[q])
    {
      MembersStep(ext[q], i);
    }
  }

  /** All positions in front of the scheduled entries of one state. */
  method ExtendState(a: Fa, b: Fa, t: Tables, q: nat, bucket: Bucket, ghost k: nat, att: Attractor)
    returns (won: bool, counterexample: Word, r: Attractor)
    requires TablesOk(a, b, t) && q < b.states && AttractorOk(a, b, att) && AllLength(att, k + 1)
    requires forall i :: 0 <= i < |bucket| ==> EntryOk(a, b, q, bucket[i]) && |bucket[i].word| == k
    ensures won ==> Separates(a, b, counterexample) && |counterexample| == k + 1
    ensures !won ==> AttractorOk(a, b, r) && AllLength(r, k + 1) && CoversMore(att, r)
    ensures !won ==> forall e :: e in Members(bucket) ==> PredecessorsCovered(a, b, r, q, e)
  {
    won, counterexample, r := false, [], att;
    assert CoversMore(att, r) && Members(bucket[..0]) == {} && bucket[..|bucket|] == bucket;
    hide AttractorOk, AllLength, PredecessorsCovered, Members, CoversMore, EntryOk, TablesOk;
    for i := 0 to |bucket|
      invariant AttractorOk(a, b, r) && AllLength(r, k + 1) && CoversMore(att, r)
      invariant forall e :: e in Members(bucket[..i]) ==> PredecessorsCovered(a, b, r, q, e)
    {
      MembersStep(bucket, i);
      ghost var was := r;
      won, counterexample, r := ExpandEntry(a, b, t, q, bucket[i], r);
      if won {
        return;
      }
      CoveredMore(a, b, was, r);
      CoversMoreTransitive(att, was, r);
    }
  }

  lemma AttractorSize(a: Fa, b: Fa, att: Attractor)
    requires AttractorOk(a, b, att)
    ensures |att| == b.states
  {
  }

  lemma NothingFound(a: Fa, b: Fa, att: Attractor, k: nat)
    requires |att| == b.states && forall q :: 0 <= q < b.states ==> att[q] == []
    ensures AttractorOk(a, b, att) && AllLength(att, k)
  {
    assert Members([]) == {} && Antichain([]);
  }

  /** One round: all positions in front of the scheduled entries. */
  method Extend(a: Fa, b: Fa, t: Tables, ext: Attractor, ghost k: nat)
    returns (won: bool, counterexample: Word, r: Attractor)
    requires TablesOk(a, b, t) && AttractorOk(a, b, ext) && AllLength(ext, k)
    ensures won ==> Separates(a, b, counterexample) && |counterexample| == k + 1
    ensures !won ==> AttractorOk(a, b, r) && AllLength(r, k + 1)
    ensures !won ==> forall q, e :: 0 <= q < b.states && e in Members(ext[q]) ==> PredecessorsCovered(a, b, r, q, e)
  {
    hide AttractorOk, AllLength, PredecessorsCovered, Members, CoversMore, EntryOk;
    won, counterexample, r := false, [], seq(b.states, _ => []);
    AttractorSize(a, b, ext);
    NothingFound(a, b, r, k + 1);
    for q := 0 to b.states
      invariant AttractorOk(a, b, r) && AllLength(r, k + 1)
      invariant forall p, e :: 0 <= p < q && e in Members(ext[p]) ==> PredecessorsCovered(a, b, r, p, e)
    {
      EntriesSound(a, b, ext, q, k);
      ghost var was := r;
      won, counterexample, r := ExtendState(a, b, t, q, ext[q], k, r);
      if won {
        return;
      }
      CoveredMore(a, b, was, r);
    }
  }

  lemma CoveredMore(a: Fa, b: Fa, att: Attractor, r: Attractor)
    requires CoversMore(att, r)
    ensures forall q, e :: PredecessorsCovered(a, b, att, q, e) ==> PredecessorsCovered(a, b, r, q, e)
  {
  }

  ghost predicate Kept(e: Entry, inserted: set<Entry>) {
    forall x :: x in inserted ==> !Below(e, x)
  }

  /** Of the entries in `seen` those not superseded by an old one are scheduled: they form ext and stand behind
      the old ones. The old entries below a scheduled one are obsolete. */
  ghost predicate Scheduled(was: Bucket, seen: set<Entry>, now: Bucket, ext: Bucket, obsolete: set<Entry>) {
    && now == was + ext && NoDuplicates(now) && NoDuplicates(ext) && Members(ext) <= seen
    && (forall x :: x in seen ==> (x in Members(ext) <==> !Superseded(was, x)))
    && obsolete == set e | e in Members(was) && !Kept(e, Members(ext))
  }

  lemma ScheduleBetween(was: Bucket, seen: set<Entry>, now: Bucket, ext: Bucket, obsolete: set<Entry>, x: Entry)
    requires Scheduled(was, seen, now, ext, obsolete) && x !in seen && Flat(seen + {x}) && Flat(Members(was))
    ensures Between(now, x) && Members(now) == Members(was) + Members(ext)
    ensures Superseded(now, x) ==> Superseded(was, x)
    ensures forall e :: e in Members(ext) ==> !Below(e, x)
  {
    MembersConcat(was, ext);
    assert forall e :: e in Members(ext) ==>
      e in seen + {x} && e != x && x in seen + {x} && !Below(e, x) && !Below(x, e);
    forall e, f | e in Members(now) && f in Members(now) && Below(e, x) && Below(x, f)
      ensures e == f
    {
      assert e in Members(was) && f in Members(was) && Below(e, f);
    }
  }

  lemma ScheduleStep(was: Bucket, seen: set<Entry>, now: Bucket, ext: Bucket, obsolete: set<Entry>, x: Entry)
    requires Scheduled(was, seen, now, ext, obsolete) && x !in seen && Flat(seen + {x}) && Flat(Members(was))
    ensures Superseded(was, x) ==> Scheduled(was, seen + {x}, now, ext, obsolete)
    ensures !Superseded(was, x) ==>
      Scheduled(was, seen + {x}, now + [x], ext + [x], obsolete + set e | e in Members(was) && Below(e, x))
  {
    ScheduleBetween(was, seen, now, ext, obsolete, x);
    if !Superseded(was, x) {
      assert Below(x, x);
      AppendNew(now, x);
      AppendNew(ext, x);
      assert now + [x] == was + (ext + [x]);
      forall e
        ensures Kept(e, Members(ext + [x])) <==> Kept(e, Members(ext)) && !Below(e, x)
      {
      }
    }
  }

  lemma StartSchedule(was: Bucket, s: nat, more: Bucket, obsolete: seq<(nat, Entry)>)
    requires Antichain(was) && forall i :: 0 <= i < |obsolete| ==> obsolete[i].0 < s
    ensures Scheduled(was, Members(more[..0]), was, [], EntriesOf(obsolete, s))
  {
    EntriesElsewhere(obsolete, s);
    AntichainIff(was);
    assert was + [] == was;
    assert forall e :: Kept(e, Members([]));
  }

  lemma ScheduleFacts(was: Bucket, more: Bucket, i: nat, now: Bucket, ext: Bucket, obsolete: set<Entry>)
    requires Antichain(was) && Antichain(more) && i < |more|
    requires Scheduled(was, Members(more[..i]), now, ext, obsolete)
    requires forall e :: e in Members(was) ==> Sorted(e.states)
    requires forall e :: e in Members(more) ==> Sorted(e.states)
    ensures Flat(Members(was)) && more[i] !in Members(more[..i])
    ensures Members(more[..i + 1]) == Members(more[..i]) + {more[i]} && Flat(Members(more[..i]) + {more[i]})
    ensures Between(now, more[i]) && Sorted(more[i].states)
    ensures forall e :: e in Members(now) ==> Sorted(e.states)
  {
    AntichainIff(was);
    AntichainIff(more);
    NoDuplicateAt(more, i);
    MembersStep(more, i);
    ScheduleBetween(was, Members(more[..i]), now, ext, obsolete, more[i]);
  }

  /** What the comparison with the old and scheduled entries finds is about the old ones only. */
  lemma CompareResult(was: Bucket, s: nat, seen: set<Entry>, x: Entry, now: Bucket, ext: Bucket,
                      obsolete: seq<(nat, Entry)>, superficial: bool, below: seq<(nat, Entry)>)
    requires Scheduled(was, seen, now, ext, EntriesOf(obsolete, s)) && x !in seen && Flat(seen + {x})
    requires Flat(Members(was))
    requires was == [] ==> !superficial && below == []
    requires was != [] ==> (superficial <==> Superseded(now, x))
    requires was != [] && !superficial ==> EntriesOf(below, s) == set e | e in Members(now) && Below(e, x)
    requires superficial ==> below == []
    requires forall i :: 0 <= i < |below| ==> below[i].0 == s
    ensures superficial <==> Superseded(was, x)
    ensures EntriesOf(obsolete + below, s) ==
      EntriesOf(obsolete, s) + if superficial then {} else set e | e in Members(was) && Below(e, x)
    ensures forall q: nat :: q != s ==> EntriesOf(obsolete + below, q) == EntriesOf(obsolete, q)
  {
    ScheduleBetween(was, seen, now, ext, EntriesOf(obsolete, s), x);
    EntriesOfConcat(obsolete, below, s);
    forall q: nat | q != s
      ensures EntriesOf(obsolete + below, q) == EntriesOf(obsolete, q)
    {
      EntriesOfConcat(obsolete, below, q);
      EntriesElsewhere(below, q);
    }
    if Superseded(was, x) {
      var f :| f in Members(was) && Below(x, f);
      assert f in Members(now);
    }
  }

  /** Compare x with the entries at hand; without old entries there is nothing to compare with. */
  method CompareOne(was: Bucket, s: nat, now: Bucket, x: Entry, ghost seen: set<Entry>, ghost ext: Bucket,
                    obsolete: seq<(nat, Entry)>) returns (superficial: bool, below: seq<(nat, Entry)>)
    requires Scheduled(was, seen, now, ext, EntriesOf(obsolete, s)) && x !in seen && Flat(seen + {x})
    requires Flat(Members(was))
    requires Between(now, x) && Sorted(x.states) && forall e :: e in Members(now) ==> Sorted(e.states)
    ensures forall i :: 0 <= i < |below| ==> below[i].0 == s
    ensures superficial ==> Scheduled(was, seen + {x}, now, ext, EntriesOf(obsolete + below, s))
    ensures !superficial ==> Scheduled(was, seen + {x}, now + [x], ext + [x], EntriesOf(obsolete + below, s))
    ensures forall q: nat :: q != s ==> EntriesOf(obsolete + below, q) == EntriesOf(obsolete, q)
  {
    superficial, below := false, [];
    if |was| > 0 {
      superficial, below := Compare(now, x, s);
    }
    CompareResult(was, s, seen, x, now, ext, obsolete, superficial, below);
    ScheduleStep(was, seen, now, ext, EntriesOf(obsolete, s), x);
  }

  /** Insert the entries of `more` that no entry of att[s] supersedes, and list the entries they make obsolete. */
  method Schedule(att: Attractor, s: nat, more: Bucket, obsolete0: seq<(nat, Entry)>)
    returns (r: Attractor, extension: Bucket, obsolete: seq<(nat, Entry)>)
    requires s < |att| && Antichain(att[s]) && Antichain(more)
    requires forall e :: e in Members(att[s]) ==> Sorted(e.states)
    requires forall e :: e in Members(more) ==> Sorted(e.states)
    requires forall i :: 0 <= i < |obsolete0| ==> obsolete0[i].0 < s
    ensures |r| == |att| && (forall q :: 0 <= q < |att| && q != s ==> r[q] == att[q])
    ensures Scheduled(att[s], Members(more), r[s], extension, EntriesOf(obsolete, s))
    ensures forall i :: 0 <= i < |obsolete| ==> obsolete[i].0 <= s
    ensures forall q: nat :: q != s ==> EntriesOf(obsolete, q) == EntriesOf(obsolete0, q)
  {
    r, extension, obsolete := att, [], obsolete0;
    StartSchedule(att[s], s, more, obsolete0);
    hide Antichain, NoDuplicates, Members, EntriesOf, Scheduled, Flat, Superseded, Between;
    for i := 0 to |more|
      invariant |r| == |att| && (forall q :: 0 <= q < |att| && q != s ==> r[q] == att[q])
      invariant Scheduled(att[s], Members(more[..i]), r[s], extension, EntriesOf(obsolete, s))
      invariant forall k :: 0 <= k < |obsolete| ==> obsolete[k].0 <= s
      invariant forall q: nat :: q != s ==> EntriesOf(obsolete, q) == EntriesOf(obsolete0, q)
    {
      ScheduleFacts(att[s], more, i, r[s], extension, EntriesOf(obsolete, s));
      var superficial, below := CompareOne(att[s], s, r[s], more[i], Members(more[..i]), extension, obsolete);
      obsolete := obsolete + below;
      if !superficial {
        r := r[s := r[s] + [more[i]]];
        extension := extension + [more[i]];
      }
    }
    assert more[..|more|] == more;
  }

  /** The bucket of one state before and after the merge. */
  ghost predicate MergedAt(was: Bucket, more: Bucket, now: Bucket, ext: Bucket) {
    && NoDuplicates(now) && NoDuplicates(ext) && Members(ext) <= Members(more)
    && (forall x :: x in Members(more) ==> (x in Members(ext) <==> !Superseded(was, x)))
    && Members(now) == (set e | e in Members(was) && Kept(e, Members(ext))) + Members(ext)
  }

  lemma MergeOne(was: Bucket, more: Bucket, now: Bucket, ext: Bucket, obsolete: set<Entry>, r: Bucket)
    requires Scheduled(was, Members(more), now, ext, obsolete)
    requires NoDuplicates(r) && Members(r) == Members(now) - obsolete
    ensures MergedAt(was, more, r, ext) && obsolete !! Members(r)
  {
    MembersConcat(was, ext);
    forall x | x in Members(ext)
      ensures x !in Members(was)
    {
      assert !Superseded(was, x) && Below(x, x);
    }
  }

  /** Merge the new positions into the attractor; those that are really new are scheduled for the next round. */
  method Merge(a: Fa, b: Fa, att0: Attractor, more: Attractor) returns (att: Attractor, ext: Attractor)
    requires AttractorOk(a, b, att0) && AttractorOk(a, b, more)
    ensures |att| == |ext| == b.states
    ensures forall q :: 0 <= q < b.states ==> MergedAt(att0[q], more[q], att[q], ext[q])
  {
    att, ext := att0, seq(b.states, _ => []);
    var obsolete: seq<(nat, Entry)> := [];
    for s := 0 to b.states
      invariant |att| == |ext| == b.states
      invariant forall i :: 0 <= i < |obsolete| ==> obsolete[i].0 < s
      invariant forall q :: 0 <= q < s ==> MergedAt(att0[q], more[q], att[q], ext[q])
      invariant forall q :: 0 <= q < s ==> EntriesOf(obsolete, q) !! Members(att[q])
      invariant forall q :: s <= q < b.states ==> att[q] == att0[q]
    {
      assert BucketOk(a, b, s, att0[s]) && BucketOk(a, b, s, more[s]);
      var extension;
      att, extension, obsolete := MergeState(a, b, att0, more, att, ext, s, obsolete);
      ext := ext[s := extension];
    }
  }

  /** One state of the merge. */
  method MergeState(a: Fa, b: Fa, ghost att0: Attractor, more: Attractor, att: Attractor, ghost ext: Attractor,
                    s: nat, obsolete0: seq<(nat, Entry)>)
    returns (r: Attractor, extension: Bucket, obsolete: seq<(nat, Entry)>)
    requires AttractorOk(a, b, att0) && AttractorOk(a, b, more) && |att| == |ext| == b.states && s < b.states
    requires forall i :: 0 <= i < |obsolete0| ==> obsolete0[i].0 < s
    requires forall q :: 0 <= q < s ==> MergedAt(att0[q], more[q], att[q], ext[q])
    requires forall q :: 0 <= q < s ==> EntriesOf(obsolete0, q) !! Members(att[q])
    requires forall q :: s <= q < b.states ==> att[q] == att0[q]
    ensures |r| == b.states && forall i :: 0 <= i < |obsolete| ==> obsolete[i].0 < s + 1
    ensures forall q :: 0 <= q < s ==> MergedAt(att0[q], more[q], r[q], ext[q])
    ensures MergedAt(att0[s], more[s], r[s], extension)
    ensures forall q :: 0 <= q < s + 1 ==> EntriesOf(obsolete, q) !! Members(r[q])
    ensures forall q :: s < q < b.states ==> r[q] == att0[q]
  {
    hide EntriesOf, Members, Scheduled;
    assert BucketOk(a, b, s, att0[s]) && BucketOk(a, b, s, more[s]);
    r, extension, obsolete := Schedule(att, s, more[s], obsolete0);
    ghost var mid := r;
    forall q | 0 <= q < b.states
      ensures NoDuplicates(mid[q])
      ensures q > s ==> EntriesOf(obsolete, q) == {}
    {
      assert BucketOk(a, b, q, att0[q]);
      AntichainIff(att0[q]);
      ScheduledUnique(att0[s], Members(more[s]), mid[s], extension, EntriesOf(obsolete, s));
      if q > s {
        EntriesElsewhere(obsolete, q);
      }
    }
    r := RemoveObsolete(r, obsolete);
    MergeOne(att0[s], more[s], mid[s], extension, EntriesOf(obsolete, s), r[s]);
  }

  lemma ScheduledUnique(was: Bucket, seen: set<Entry>, now: Bucket, ext: Bucket, obsolete: set<Entry>)
    requires Scheduled(was, seen, now, ext, obsolete)
    ensures NoDuplicates(now)
  {
  }

  lemma MergedBucket(a: Fa, b: Fa, q: nat, was: Bucket, more: Bucket, now: Bucket, ext: Bucket)
    requires BucketOk(a, b, q, was) && BucketOk(a, b, q, more) && MergedAt(was, more, now, ext)
    ensures BucketOk(a, b, q, now) && BucketOk(a, b, q, ext)
    ensures forall s :: CoversSet(was, s) || CoversSet(more, s) ==> CoversSet(now, s)
    ensures ext != [] ==> CoversSet(now, Elems(ext[0].states)) && !CoversSet(was, Elems(ext[0].states))
  {
    AntichainIff(was);
    AntichainIff(more);
    AntichainIff(now);
    AntichainIff(ext);
    CoverAfterMerge(was, Members(more), Members(ext), now);
    if ext != [] {
      assert ext[0] in Members(ext) && ext[0] in Members(now) && !Superseded(was, ext[0]);
      assert forall e :: e in Members(was) ==> !Below(ext[0], e);
    }
  }

  /** The positions that are not covered yet; there are finitely many. */
  ghost function Uncovered(a: Fa, att: Attractor): set<(nat, set<nat>)> {
    set q: nat, s: set<nat> | q < |att| && s <= UpTo(a.states) && !CoversSet(att[q], s) :: (q, s)
  }

  ghost predicate NothingScheduled(ext: Attractor) {
    forall q :: 0 <= q < |ext| ==> ext[q] == []
  }

  lemma MergeResult(a: Fa, b: Fa, att0: Attractor, more: Attractor, att: Attractor, ext: Attractor)
    requires AttractorOk(a, b, att0) && AttractorOk(a, b, more) && |att| == |ext| == b.states
    requires forall q :: 0 <= q < b.states ==> MergedAt(att0[q], more[q], att[q], ext[q])
    ensures AttractorOk(a, b, att) && AttractorOk(a, b, ext) && CoversMore(att0, att) && CoversMore(more, att)
    ensures Uncovered(a, att) <= Uncovered(a, att0)
    ensures !NothingScheduled(ext) ==> Uncovered(a, att) < Uncovered(a, att0)
  {
    forall q | 0 <= q < b.states
      ensures BucketOk(a, b, q, att[q]) && BucketOk(a, b, q, ext[q])
      ensures forall s :: CoversSet(att0[q], s) || CoversSet(more[q], s) ==> CoversSet(att[q], s)
    {
      assert BucketOk(a, b, q, att0[q]) && BucketOk(a, b, q, more[q]);
      MergedBucket(a, b, q, att0[q], more[q], att[q], ext[q]);
    }
    if q :| 0 <= q < |ext| && ext[q] != [] {
      MergedBucket(a, b, q, att0[q], more[q], att[q], ext[q]);
      assert ext[q][0] in Members(ext[q]) && EntryOk(a, b, q, ext[q][0]);
      var s := Elems(ext[q][0].states);
      assert (q, s) in Uncovered(a, att0) && (q, s) !in Uncovered(a, att);
    }
  }

  /** What every round of the search keeps: a sound antichain without a winning position, its scheduled part of
      the words of length k, all words of at most k letters covered, and only scheduled entries still to be
      expanded. */
  ghost predicate RoundInv(a: Fa, b: Fa, att: Attractor, ext: Attractor, k: nat) {
    && AttractorOk(a, b, att) && AttractorOk(a, b, ext) && AllLength(ext, k)
    && Level(a, b, att, k) && Frontier(a, b, att, ext)
  }

  lemma Round(a: Fa, b: Fa, att0: Attractor, ext0: Attractor, more: Attractor, att: Attractor, ext: Attractor, k: nat)
    requires a.Valid() && b.Valid() && RoundInv(a, b, att0, ext0, k)
    requires AttractorOk(a, b, more) && AllLength(more, k + 1) && |att| == |ext| == b.states
    requires forall q, e :: 0 <= q < b.states && e in Members(ext0[q]) ==> PredecessorsCovered(a, b, more, q, e)
    requires forall q :: 0 <= q < b.states ==> MergedAt(att0[q], more[q], att[q], ext[q])
    ensures RoundInv(a, b, att, ext, k + 1)
  {
    MergeResult(a, b, att0, more, att, ext);
    CoveredMore(a, b, att0, att);
    CoveredMore(a, b, more, att);
    forall q, e | 0 <= q < b.states && e in Members(att0[q])
      ensures Elems(e.states) == a.Safe(e.word) && PredecessorsCovered(a, b, att, q, e)
    {
      assert BucketOk(a, b, q, att0[q]) && EntryOk(a, b, q, e);
      if e !in Members(ext0[q]) {
        assert PredecessorsCovered(a, b, att0, q, e);
      }
    }
    LevelUp(a, b, att0, att, k);
    forall q, e | 0 <= q < b.states && e in Members(att[q]) && e !in Members(ext[q])
      ensures PredecessorsCovered(a, b, att, q, e)
    {
      assert MergedAt(att0[q], more[q], att[q], ext[q]);
      assert e in Members(att0[q]);
    }
  }

  /** Nothing is scheduled: the search is complete. */
  lemma Complete(a: Fa, b: Fa, att: Attractor, ext: Attractor, k: nat)
    requires a.Valid() && b.Valid() && RoundInv(a, b, att, ext, k) && NothingScheduled(ext)
    ensures forall w :: b.Accepts(w) ==> a.Accepts(w)
  {
    forall q, e | 0 <= q < b.states && e in Members(att[q])
      ensures Elems(e.states) == a.Safe(e.word) && PredecessorsCovered(a, b, att, q, e)
    {
      assert BucketOk(a, b, q, att[q]) && EntryOk(a, b, q, e);
      assert e !in Members(ext[q]);
    }
    forall w | b.Accepts(w)
      ensures a.Accepts(w)
    {
      LevelClosed(a, b, att, |w|);
      NothingSeparates(a, b, att, |w|, w);
    }
  }

  /** A word found in round k + 1 is a shortest one. */
  lemma NothingShorter(a: Fa, b: Fa, att: Attractor, ext: Attractor, k: nat)
    requires a.Valid() && b.Valid() && RoundInv(a, b, att, ext, k)
    ensures forall w :: Separates(a, b, w) ==> k + 1 <= |w|
  {
    forall w | Separates(a, b, w)
      ensures k + 1 <= |w|
    {
      if |w| <= k {
        NothingSeparates(a, b, att, k, w);
      }
    }
  }

  /** The first positions: the final states of other, each with the states of this that are not final. */
  method InitialAttractor(a: Fa, b: Fa) returns (won: bool, counterexample: Word, att: Attractor)
    requires a.Valid() && b.Valid()
    ensures won ==> Separates(a, b, counterexample) && counterexample == []
    ensures !won ==> RoundInv(a, b, att, att, 0)
  {
    var rest := NotFinal(a);
    var g := Entry(rest, []);
    att := FinalPositions(b, g);
    won, counterexample := false, [];
    for q := 0 to b.states
      invariant forall p :: 0 <= p < q && p in Elems(b.final) ==> !SeparatesFrom(a, b, p, [])
    {
      for i := 0 to |att[q]|
        invariant i > 0 ==> !SeparatesFrom(a, b, q, [])
      {
        assert q in Elems(b.final) && att[q][i] == g;
        won := WinningCondition(a, b, q, g);
        if won {
          SeparatesIff(a, b, []);
          return true, att[q][i].word, att;
        }
      }
    }
    InitialRound(a, b, att, g);
  }

  method NotFinal(a: Fa) returns (rest: seq<nat>)
    requires a.Valid()
    ensures Sorted(rest) && Elems(rest) == a.Safe([])
  {
    rest := [];
    for i := 0 to a.states
      invariant Sorted(rest) && Elems(rest) == set s | s in a.Safe([]) && s < i
    {
      ElemsMember(a.final, i);
      if i !in a.final {
        InsertExact(rest, i);
        rest := Insert(rest, i);
      }
    }
  }

  /** The position g for every final state of other. */
  method FinalPositions(b: Fa, g: Entry) returns (att: Attractor)
    requires b.Valid()
    ensures |att| == b.states
    ensures forall q :: 0 <= q < b.states ==> att[q] == if q in Elems(b.final) then [g] else []
  {
    att := seq(b.states, _ => []);
    for i := 0 to |b.final|
      invariant |att| == b.states
      invariant forall q :: 0 <= q < b.states ==> att[q] == if q in Elems(b.final[..i]) then [g] else []
    {
      ElemsStep(b.final, i);
      ElemsMember(b.final, b.final[i]);
      FinalOnce(b.final, i);
      att := att[b.final[i] := att[b.final[i]] + [g]];
    }
    assert b.final[..|b.final|] == b.final;
  }

  lemma FinalOnce(s: seq<nat>, i: nat)
    requires Sorted(s) && i < |s|
    ensures s[i] !in Elems(s[..i])
  {
    SortedStep(s, i);
  }

  lemma InitialRound(a: Fa, b: Fa, att: Attractor, g: Entry)
    requires a.Valid() && b.Valid() && Sorted(g.states) && Elems(g.states) == a.Safe([]) && g.word == []
    requires |att| == b.states
    requires forall q :: 0 <= q < b.states ==> att[q] == if q in Elems(b.final) then [g] else []
    requires forall q :: 0 <= q < b.states && q in Elems(b.final) ==> !SeparatesFrom(a, b, q, [])
    ensures RoundInv(a, b, att, att, 0)
  {
    assert Members([]) == {} && Members([g]) == {g} && Antichain([]) && Antichain([g]);
    forall q, w: Word | 0 <= q < b.states && |w| <= 0 && b.AcceptsFrom(q, w)
      ensures CoversSet(att[q], a.Safe(w))
    {
      assert w == [];
      assert g in Members(att[q]);
    }
  }

  method NothingLeft(ext: Attractor) returns (r: bool)
    ensures r == NothingScheduled(ext)
  {
    for q := 0 to |ext|
      invariant forall p :: 0 <= p < q ==> ext[p] == []
    {
      if ext[q] != [] {
        return false;
      }
    }
    r := true;
  }

  /** One round: extend by one letter, and keep what was not in the attractor already. */
  method OneRound(a: Fa, b: Fa, t: Tables, att0: Attractor, ext0: Attractor, ghost k: nat)
    returns (won: bool, word: Word, att: Attractor, ext: Attractor)
    requires TablesOk(a, b, t) && RoundInv(a, b, att0, ext0, k)
    ensures won ==> Separates(a, b, word) && forall w :: Separates(a, b, w) ==> |word| <= |w|
    ensures !won ==> RoundInv(a, b, att, ext, k + 1) && Uncovered(a, att) <= Uncovered(a, att0)
    ensures !won && !NothingScheduled(ext) ==> Uncovered(a, att) < Uncovered(a, att0)
  {
    var more;
    att, ext := att0, ext0;
    won, word, more := Extend(a, b, t, ext0, k);
    if won {
      NothingShorter(a, b, att0, ext0, k);
    } else {
      att, ext := Merge(a, b, att0, more);
      MergeResult(a, b, att0, more, att, ext);
      Round(a, b, att0, ext0, more, att, ext, k);
    }
  }

  /** Is the language of other contained in the language of this? If not, the counterexample is a shortest word
      that other accepts and this does not. */
  method AntichainIsSupersetOf(a: Fa, b: Fa) returns (superset: bool, counterexample: Word)
    requires a.Valid() && b.Valid()
    ensures a.letters != b.letters ==> !superset && counterexample == []
    ensures a.letters == b.letters ==> (superset <==> forall w :: b.Accepts(w) ==> a.Accepts(w))
    ensures a.letters == b.letters && !superset ==> Separates(a, b, counterexample)
    ensures a.letters == b.letters && !superset ==> forall w :: Separates(a, b, w) ==> |counterexample| <= |w|
    ensures superset ==> counterexample == []
  {
    if a.letters != b.letters {
      return false, [];
    }
    hide AttractorOk, AllLength, Level, Frontier, MergedAt, PredecessorsCovered, Uncovered, Members, NothingScheduled;
    var thisPremap, thisPostmap := GetTransitionMaps(a);
    var otherPremap, otherPostmap := GetTransitionMaps(b);
    var won, word, att := InitialAttractor(a, b);
    if won {
      return false, word;
    }
    var dead := StatesWithoutSuccessors(a, thisPostmap);
    var t := Tables(thisPremap, thisPostmap, otherPremap, dead);
    var extension := att;
    ghost var k := 0;
    var done := NothingLeft(extension);
    while !done
      invariant RoundInv(a, b, att, extension, k) && done == NothingScheduled(extension)
      decreases Uncovered(a, att), !done
    {
      won, word, att, extension := OneRound(a, b, t, att, extension, k);
      if won {
        return false, word;
      }
      k := k + 1;
      done := NothingLeft(extension);
    }
    Complete(a, b, att, extension, k);
    return true, [];
  }
}
