/** Saturation: the configurations of a one-counter automaton that can reach added configurations, with runs. */
module PreStar {
  import opened Automata
  import opened CounterAutomata
  import opened Saturation
  import opened SaturationOrders

  class PAutomaton {
    const base: Mvca
    var stateCount: nat
    var final: set<nat>
    var added: set<(nat, nat)>
    var transitions: Transitions
    ghost var origin: map<nat, Origin>

    /** The transitions mean derivations, and the final states are the ends of the stacks of added configurations. */
    ghost predicate Sound()
      reads this
    {
      && base.Valid() && base.states <= stateCount && AllMean(base, origin, transitions)
      && (forall p, x, r :: (p, x, r) in transitions ==> p < stateCount && x <= base.bound && r < stateCount)
      && (forall r :: r in origin ==> base.states <= r < stateCount)
      && (forall r :: r in final ==> r in origin && IsEnd(base, origin[r]) && (origin[r].state, origin[r].m) in added)
      && (forall f, k :: (f, k) in added ==> f < base.states)
    }

    ghost predicate Valid()
      reads this
    {
      Sound() && AllAccepted(base, transitions, final, added)
    }

    constructor (base: Mvca)
      requires base.Valid()
      ensures Valid() && this.base == base && added == {}
      ensures stateCount == base.states && final == {} && transitions == map[]
    {
      this.base := base;
      stateCount := base.states;
      final, added, transitions, origin := {}, {}, map[], map[];
    }

    /** A new state behind p that is reached with the next symbol of the stack of the configuration (f, m). */
    method Append(p: nat, x: nat, ghost f: nat, ghost m: nat, ghost i: nat) returns (r: nat)
      requires Sound() && f < base.states && (f, m) in added && i < |Config(base.bound, m)|
      requires Config(base.bound, m)[i] == x
      requires x <= base.bound && OnPath(p, f, m, i)
      modifies this`stateCount, this`transitions, this`origin
      ensures Sound() && OnPath(r, f, m, i + 1)
      ensures transitions == old(transitions)[(p, x, r) := []] && (p, x, r) !in old(transitions)
      ensures r == old(stateCount) && stateCount == r + 1
    {
      hide AllMean, Config, ReadsWith, IsOrigin, IsEnd;
      ghost var c, t := Config(base.bound, m), transitions;
      r := stateCount;
      stateCount := stateCount + 1;
      transitions := transitions[(p, x, r) := []];
      origin := origin[r := Origin(f, m, i + 1)];
      assert c[..i + 1] == c[..i] + [x];
      ReadsKept(t, transitions, f, c[..i], p, []);
      ReadsSnoc(transitions, f, c[..i], p, [], x, r);
      ghost var none: Word := [];
      assert none + transitions[(p, x, r)] == none;
      assert origin - {r} == old(origin);
      AppendMeans(p, x, r, f, m, i, t);
    }

    lemma AppendMeans(p: nat, x: nat, r: nat, f: nat, m: nat, i: nat, t: Transitions)
      requires base.Valid() && f < base.states && i < |Config(base.bound, m)| && Config(base.bound, m)[i] == x
      requires r in origin && origin[r] == Origin(f, m, i + 1) && r >= base.states
      requires if i == 0 then p == f else p in origin && p >= base.states && origin[p] == Origin(f, m, i)
      requires AllMean(base, origin - {r}, t) && (forall k :: k in t ==> k.0 != r && k.2 != r)
      requires transitions == t[(p, x, r) := []]
      ensures AllMean(base, origin, transitions)
    {
      var c, none: Stack := Config(base.bound, m), [];
      if i == 0 {
        assert c[..1] == [x];
        assert Derives(base, f, [x], [], f, [x]);
      }
      assert Means(base, origin, p, x, r, []);
      forall q, y, o | (q, y, o) in transitions
        ensures Means(base, origin, q, y, o, transitions[(q, y, o)])
      {
        if (q, y, o) in t {
          assert Means(base, origin - {r}, q, y, o, t[(q, y, o)]);
        }
      }
    }

    /** The path of states for the configuration (f, m) has come to p, with i symbols behind it. */
    ghost predicate OnPath(p: nat, f: nat, m: nat, i: nat)
      reads this
    {
      && i <= |Config(base.bound, m)| && p < stateCount
      && (if i == 0 then p == f else p in origin && origin[p] == Origin(f, m, i))
      && ReadsWith(transitions, f, Config(base.bound, m)[..i], p, [])
    }

    /** The path of new states that reads the stack of (state, m). */
    method AddPath(state: nat, m: nat) returns (r: nat)
      requires Sound() && state < base.states && (state, m) in added
      modifies this`stateCount, this`transitions, this`origin
      ensures Sound() && OnPath(r, state, m, |Config(base.bound, m)|) && Extends(old(transitions), transitions)
      ensures Symbols(Config(base.bound, m)) && stateCount == old(stateCount) + |Config(base.bound, m)|
      ensures r == stateCount - 1
      ensures transitions == old(transitions) + PathTable(Config(base.bound, m), state, old(stateCount))
    {
      hide PathTable, Extends, Sound, AllMean, Config, ReadsWith, BehindPath, IsOrigin;
      ghost var c, i := Config(base.bound, m), 0;
      var p := state;
      StartPath(state, m);
      ConfigTop(base.bound, m);
      ghost var n, t: Transitions := stateCount, transitions;
      NoPath(t, c, state, n);
      var k: int := m;
      while k >= base.bound
        invariant -1 <= k <= m && Sound() && base.Valid() && i < |c| && c[i..] == Config(base.bound, k)
        invariant OnPath(p, state, m, i) && BehindPath(t, transitions, c, state, n, i, p, stateCount)
      {
        Rest(c, i, k);
        MorePath(t, transitions, c, state, n, i, p, stateCount);
        p := Append(p, base.bound, state, m, i);
        k := k - 1;
        i := i + 1;
      }
      Rest(c, i, k);
      if k > 0 {
        MorePath(t, transitions, c, state, n, i, p, stateCount);
        p := Append(p, k, state, m, i);
        i := i + 1;
      }
      LastSymbol(c, i);
      MorePath(t, transitions, c, state, n, i, p, stateCount);
      r := Append(p, 0, state, m, i);
      WholePath(t, transitions, c, state, n, i + 1, r, stateCount);
    }

    lemma StartPath(state: nat, m: nat)
      requires Sound() && state < base.states
      ensures base.Valid() && OnPath(state, state, m, 0) && Config(base.bound, m)[0..] == Config(base.bound, m)
    {
    }

    lemma LastSymbol(c: Stack, i: nat)
      requires i <= |c| && c[i..] == [0]
      ensures |c| == i + 1 && c[i] == 0
    {
    }

    /** Accept one more configuration, by a path of new states. */
    method AddAcceptingConfiguration(state: nat, m: nat)
      requires Valid() && state < base.states
      modifies this
      ensures Valid() && added == old(added) + {(state, m)} && Symbols(Config(base.bound, m))
      ensures (state, m) in old(added) ==> unchanged(this)
      ensures (state, m) !in old(added) ==>
                && stateCount == old(stateCount) + |Config(base.bound, m)|
                && final == old(final) + {stateCount - 1}
                && transitions == old(transitions) + PathTable(Config(base.bound, m), state, old(stateCount))
    {
      ConfigTop(base.bound, m);
      hide PathTable, Extends, AllMean, Config, ReadsWith, AllAccepted, OnPath, IsEnd, AtOnce;
      if (state, m) in added {
        return;
      }
      ghost var before, t, ends := added, transitions, final;
      added := added + {(state, m)};
      var r := AddPath(state, m);
      PathEnd(r, state, m);
      final := final + {r};
      AcceptedMore(base, t, transitions, ends, final, before);
      AcceptedOne(base, transitions, final, before, state, m, r);
    }

    lemma PathEnd(r: nat, state: nat, m: nat)
      requires Sound() && state < base.states && OnPath(r, state, m, |Config(base.bound, m)|)
      ensures r in origin && IsEnd(base, origin[r]) && origin[r].state == state && origin[r].m == m
      ensures ReadsWith(transitions, state, Config(base.bound, m), r, [])
    {
      hide AllMean, Config, ReadsWith;
      var c := Config(base.bound, m);
      assert c[..|c|] == c;
    }

    /** The next symbol of a stack. */
    lemma Rest(c: Stack, i: nat, k: int)
      requires i < |c| && c[i..] == Config(base.bound, k) && k >= -1
      ensures k >= base.bound ==> c[i] == base.bound && i + 1 < |c| && c[i + 1..] == Config(base.bound, k - 1)
      ensures k < base.bound && k > 0 ==> c[i] == k && i + 1 < |c| && c[i + 1..] == [0]
      ensures k < base.bound && k <= 0 ==> c[i..] == [0]
    {
      assert c[i] == c[i..][0] && c[i + 1..] == c[i..][1..];
    }

    // ---- following a stack ----

    /** From p: collect where the symbol x leads, with the shorter word for each target. */
    method AdvanceFrom(p: nat, run: Word, x: nat, next0: map<nat, Word>, ghost from: nat, ghost s: Stack)
      returns (next: map<nat, Word>)
      requires Sound() && p < stateCount && ReadsWith(transitions, from, s, p, run)
      requires WordsOk(transitions, next0, from, s + [x])
      ensures WordsOk(transitions, next, from, s + [x]) && next0.Keys <= next.Keys
      ensures forall r :: r in next0 ==> |next[r]| <= |next0[r]|
      ensures forall r :: (p, x, r) in transitions ==> r in next && |next[r]| <= |run| + |transitions[(p, x, r)]|
    {
      hide AllMean, Config, ReadsWith, IsEnd;
      next := next0;
      for r := 0 to stateCount
        invariant WordsOk(transitions, next, from, s + [x]) && next0.Keys <= next.Keys
        invariant forall q :: q in next0 ==> |next[q]| <= |next0[q]|
        invariant forall q :: q < r && (p, x, q) in transitions ==>
          q in next && |next[q]| <= |run| + |transitions[(p, x, q)]|
      {
        if (p, x, r) in transitions {
          var longer := run + transitions[(p, x, r)];
          ReadsSnoc(transitions, from, s, p, run, x, r);
          if r !in next || |next[r]| > |longer| {
            next := next[r := longer];
          }
        }
      }
    }

    /** One more symbol. */
    method Advance(current: map<nat, Word>, x: nat, ghost from: nat, ghost s: Stack) returns (next: map<nat, Word>)
      requires Sound() && WordsOk(transitions, current, from, s) && Least(transitions, current, from, s)
      requires forall p :: p in current ==> p < stateCount
      ensures WordsOk(transitions, next, from, s + [x]) && Least(transitions, next, from, s + [x])
    {
      hide AllMean, Config, ReadsWith, IsEnd, Least;
      next := map[];
      for p := 0 to stateCount
        invariant WordsOk(transitions, next, from, s + [x])
        invariant forall q, r :: q < p && q in current && (q, x, r) in transitions ==>
          r in next && |next[r]| <= |current[q]| + |transitions[(q, x, r)]|
      {
        if p in current {
          next := AdvanceFrom(p, current[p], x, next, from, s);
        }
      }
      LeastNext(transitions, current, next, from, s, x);
    }

    /** All states that a stack leads to, each with a shortest of the words of its paths. */
    method RunTransitionAccumulate(from: nat, word: Stack) returns (current: map<nat, Word>)
      requires Sound() && from < stateCount && forall i :: 0 <= i < |word| ==> word[i] >= 0
      ensures WordsOk(transitions, current, from, word) && Least(transitions, current, from, word)
      ensures forall r: nat :: r in current <==> Reads(transitions.Keys, from, word, r)
    {
      hide AllMean, Config;
      current := map[from := []];
      assert word[..0] == [];
      for i := 0 to |word|
        invariant WordsOk(transitions, current, from, word[..i]) && Least(transitions, current, from, word[..i])
      {
        InRange(current, from, word[..i]);
        current := Advance(current, word[i], from, word[..i]);
        assert word[..i] + [word[i]] == word[..i + 1];
      }
      assert word[..|word|] == word;
      forall r: nat | r in current
        ensures Reads(transitions.Keys, from, word, r)
      {
        ReadsForget(transitions, from, word, r, current[r]);
      }
      forall r: nat | Reads(transitions.Keys, from, word, r)
        ensures r in current
      {
        ReadsHasWord(transitions, from, word, r);
      }
    }

    lemma InRange(current: map<nat, Word>, from: nat, s: Stack)
      requires Sound() && from < stateCount && WordsOk(transitions, current, from, s)
      ensures forall p :: p in current ==> p < stateCount
    {
      forall p | p in current
        ensures p < stateCount
      {
        LastInRange(from, s, p, current[p]);
      }
    }

    lemma {:induction false} LastInRange(p: nat, s: Stack, r: nat, w: Word)
      requires Sound() && p < stateCount && ReadsWith(transitions, p, s, r, w)
      ensures r < stateCount
      decreases |s|
    {
      if s != [] {
        var q: nat, v: Word :| (p, s[0], q) in transitions && w == transitions[(p, s[0], q)] + v
          && ReadsWith(transitions, q, s[1..], r, v);
        LastInRange(q, s[1..], r, v);
      }
    }

    // ---- saturation ----

    /** Apply the rule at level l from p with the letter x to q to all paths that read what it leaves. */
    method ApplyRule(l: nat, p: nat, x: nat, q: nat) returns (more: bool)
      requires Valid() && (l, p, x, q) in base.delta && l + base.dir[x] >= 0
      modifies this`transitions
      ensures Valid() && RuleApplied(base, old(transitions), transitions, l, p, x, q, stateCount)
      ensures more <==> transitions != old(transitions)
      ensures !more ==> RuleClosed(base, transitions.Keys, l, p, x, q)
    {
      hide AllMean, Config, AllAccepted, IsEnd, StackTop, ReadsWith, Reads, RuleApplied;
      var s := StackTop(l, base.bound, base.dir[x]);
      StackTopSymbols(l, base.bound, base.dir[x]);
      var destinations := RunTransitionAccumulate(q, s);
      InRange(destinations, q, s);
      more := false;
      ghost var t := transitions;
      NothingApplied(base, t, l, p, x, q);
      for r := 0 to stateCount
        invariant Valid() && RuleApplied(base, t, transitions, l, p, x, q, r) && (more <==> transitions != t)
      {
        AppliedKeeps(base, t, transitions, l, p, x, q, r);
        if r in destinations && (p, l, r) !in transitions {
          ReadsKept(t, transitions, q, s, r, destinations[r]);
          RuleMeans(base, origin, transitions, l, p, x, q, r, destinations[r]);
          OneApplied(base, t, transitions, l, p, x, q, r, [x] + destinations[r]);
          Insert(p, l, r, [x] + destinations[r]);
          more := true;
        } else {
          NoneApplied(base, t, transitions, l, p, x, q, r);
        }
      }
      AllApplied(base, t, transitions, l, p, x, q, stateCount);
    }

    /** A new transition that means a derivation. */
    method Insert(p: nat, l: nat, r: nat, w: Word)
      requires Valid() && Means(base, origin, p, l, r, w) && p < stateCount && l <= base.bound && r < stateCount
      requires (p, l, r) !in transitions
      modifies this`transitions
      ensures Valid() && transitions == old(transitions)[(p, l, r) := w]
    {
      hide AllMean, Means, AllAccepted, IsEnd, Config;
      InsertMeans(base, origin, transitions, p, l, r, w);
      AcceptedMore(base, transitions, transitions[(p, l, r) := w], final, final, added);
      transitions := transitions[(p, l, r) := w];
      assert transitions.Keys == old(transitions).Keys + {(p, l, r)};
    }

    /** The rules at level l from p with the letter x. */
    method ApplyLetter(l: nat, p: nat, x: nat, ghost t: Transitions) returns (more: bool)
      requires Valid() && base.Valid() && x < base.letters
      requires RulesDone(base, t, transitions, stateCount, (l, p, x, 0))
      modifies this`transitions
      ensures Valid() && old(transitions).Keys <= transitions.Keys
      ensures more ==> old(transitions).Keys < transitions.Keys
      ensures !more ==> transitions == old(transitions)
      ensures !more ==> forall q :: (l, p, x, q) in base.delta ==> RuleClosed(base, transitions.Keys, l, p, x, q)
      ensures RulesDone(base, t, transitions, stateCount, (l, p, x + 1, 0))
    {
      hide Sound, AllAccepted, RuleClosed, RulesDone;
      more := false;
      if l + base.dir[x] < 0 {
        BelowZero(l, p, x);
        LetterOver(base, t, transitions, stateCount, l, p, x);
        return;
      }
      for q := 0 to base.states
        invariant Valid() && old(transitions).Keys <= transitions.Keys
        invariant more ==> old(transitions).Keys < transitions.Keys
        invariant !more ==> transitions == old(transitions)
        invariant !more ==> forall r :: r < q && (l, p, x, r) in base.delta ==>
          RuleClosed(base, transitions.Keys, l, p, x, r)
        invariant RulesDone(base, t, transitions, stateCount, (l, p, x, q))
      {
        ghost var v := transitions;
        if (l, p, x, q) in base.delta {
          var some := ApplyRule(l, p, x, q);
          more := more || some;
        }
        RuleDone(base, t, v, transitions, stateCount, l, p, x, q);
      }
      LetterOver(base, t, transitions, stateCount, l, p, x);
    }

    lemma SoundBase()
      requires Valid()
      ensures base.Valid()
    {
    }

    lemma BelowZero(l: nat, p: nat, x: nat)
      requires base.Valid() && x < base.letters && l + base.dir[x] < 0
      ensures forall q :: (l, p, x, q) in base.delta ==> RuleClosed(base, transitions.Keys, l, p, x, q)
    {
    }

    /** The rules at level l from p. */
    method ApplyState(l: nat, p: nat, ghost t: Transitions) returns (more: bool)
      requires Valid() && base.Valid() && RulesDone(base, t, transitions, stateCount, (l, p, 0, 0))
      modifies this`transitions
      ensures Valid() && old(transitions).Keys <= transitions.Keys
      ensures more ==> old(transitions).Keys < transitions.Keys
      ensures !more ==> transitions == old(transitions)
      ensures !more ==> forall x, q :: (l, p, x, q) in base.delta ==> RuleClosed(base, transitions.Keys, l, p, x, q)
      ensures RulesDone(base, t, transitions, stateCount, (l, p + 1, 0, 0))
    {
      hide Sound, AllAccepted, RuleClosed, RulesDone;
      more := false;
      for x := 0 to base.letters
        invariant Valid() && old(transitions).Keys <= transitions.Keys
        invariant more ==> old(transitions).Keys < transitions.Keys
        invariant !more ==> transitions == old(transitions)
        invariant !more ==>
          forall y, q :: y < x && (l, p, y, q) in base.delta ==> RuleClosed(base, transitions.Keys, l, p, y, q)
        invariant RulesDone(base, t, transitions, stateCount, (l, p, x, 0))
      {
        var some := ApplyLetter(l, p, x, t);
        more := more || some;
      }
      StateOver(base, t, transitions, stateCount, l, p);
    }

    /** The rules at level l. */
    method ApplyLevel(l: nat, ghost t: Transitions) returns (more: bool)
      requires Valid() && base.Valid() && RulesDone(base, t, transitions, stateCount, (l, 0, 0, 0))
      modifies this`transitions
      ensures Valid() && old(transitions).Keys <= transitions.Keys
      ensures more ==> old(transitions).Keys < transitions.Keys
      ensures !more ==> transitions == old(transitions)
      ensures !more ==> forall p, x, q :: (l, p, x, q) in base.delta ==> RuleClosed(base, transitions.Keys, l, p, x, q)
      ensures RulesDone(base, t, transitions, stateCount, (l + 1, 0, 0, 0))
    {
      hide Sound, AllAccepted, RuleClosed, RulesDone;
      more := false;
      for p := 0 to base.states
        invariant Valid() && old(transitions).Keys <= transitions.Keys
        invariant more ==> old(transitions).Keys < transitions.Keys
        invariant !more ==> transitions == old(transitions)
        invariant !more ==>
          forall o, x, q :: o < p && (l, o, x, q) in base.delta ==> RuleClosed(base, transitions.Keys, l, o, x, q)
        invariant RulesDone(base, t, transitions, stateCount, (l, p, 0, 0))
      {
        var some := ApplyState(l, p, t);
        more := more || some;
      }
      LevelOver(base, t, transitions, stateCount, l);
    }

    /** All rules once. */
    method Pass() returns (more: bool)
      requires Valid()
      modifies this`transitions
      ensures Valid() && old(transitions).Keys <= transitions.Keys
      ensures more ==> old(transitions).Keys < transitions.Keys
      ensures !more ==> Closed(base, transitions.Keys)
      ensures base.Valid() && PassDone(base, old(transitions), transitions, stateCount)
    {
      hide Sound, AllAccepted, RuleClosed, RulesDone, PassDone;
      SoundBase();
      ghost var t := transitions;
      NothingDone(base, t, stateCount);
      more := false;
      for l := 0 to base.bound + 1
        invariant Valid() && old(transitions).Keys <= transitions.Keys
        invariant more ==> old(transitions).Keys < transitions.Keys
        invariant !more ==> transitions == old(transitions)
        invariant !more ==>
          forall k, p, x, q :: k < l && (k, p, x, q) in base.delta ==> RuleClosed(base, transitions.Keys, k, p, x, q)
        invariant RulesDone(base, t, transitions, stateCount, (l, 0, 0, 0))
      {
        var some := ApplyLevel(l, t);
        more := more || some;
      }
      PassOver(base, t, transitions, stateCount);
    }

    lemma Shrinks(room: set<(nat, nat, nat)>, t: set<(nat, nat, nat)>, t': set<(nat, nat, nat)>)
      requires t' <= room
      ensures t < t' ==> room - t' < room - t
      ensures t <= t' ==> room - t' <= room - t
    {
      if t < t' {
        var k :| k in t' && k !in t;
        assert k in room - t;
      }
    }

    /** There are only finitely many transitions. */
    ghost function Room(): set<(nat, nat, nat)>
      reads `stateCount
    {
      set p, x, r | p in UpTo(stateCount) && x in UpTo(base.bound + 1) && r in UpTo(stateCount) :: (p, x, r)
    }

    lemma InRoom()
      requires Valid()
      ensures transitions.Keys <= Room()
    {
      forall e | e in transitions.Keys
        ensures e in Room()
      {
        var p, x, r := e.0, e.1, e.2;
        assert e == (p, x, r) && (p, x, r) in transitions;
        assert p in UpTo(stateCount) && x in UpTo(base.bound + 1) && r in UpTo(stateCount);
      }
    }

    /** Add transitions until no rule adds one. */
    method SaturatePreStar()
      requires Valid()
      modifies this`transitions
      ensures Valid() && (final != {} ==> Closed(base, transitions.Keys))
      ensures base.Valid() && if final == {} then transitions == old(transitions)
                              else Saturated(base, old(transitions), transitions, stateCount)
    {
      hide Closed, Sound, Saturated;
      SoundBase();
      if final == {} {
        return;
      }
      Saturate();
    }

    method Saturate()
      requires Valid()
      modifies this`transitions
      ensures Valid() && Closed(base, transitions.Keys)
      ensures base.Valid() && Saturated(base, old(transitions), transitions, stateCount)
    {
      hide Valid, Closed, Room, Passes, PassDone, RulesDone;
      SoundBase();
      ghost var room, start, i: nat := Room(), transitions, 0;
      NothingDone(base, start, stateCount);
      var more := true;
      while more
        invariant Valid() && base.Valid() && (!more ==> Closed(base, transitions.Keys))
        invariant Passes(base, start, transitions, stateCount, i) && (!more ==> i > 0)
        decreases room - transitions.Keys, more
      {
        ghost var t := transitions;
        more := Pass();
        PassesNext(base, start, t, transitions, stateCount, i);
        i := i + 1;
        InRoom();
        Shrinks(room, t.Keys, transitions.Keys);
      }
    }

    // ---- asking for runs ----

    /** A run that drives the state with counter m into an added configuration; no word of the transitions is
        shorter, and no run is if no rule finds a shorter word for a transition that is there. */
    method GetShortestValidRun(state: nat, m: nat) returns (ret: Word, reachable: bool)
      requires Valid() && (final != {} ==> Closed(base, transitions.Keys)) && state < base.states
      ensures reachable <==> CanReach(base, added, state, m)
      ensures reachable ==> exists f, k :: (f, k) in added && base.DrivesLow(state, m, ret, f, k)
      ensures !reachable ==> ret == []
      ensures reachable ==> exists r: nat :: r in final && ReadsWith(transitions, state, Config(base.bound, m), r, ret)
      ensures reachable ==> forall r, w :: r in final && ReadsWith(transitions, state, Config(base.bound, m), r, w) ==>
        |ret| <= |w|
      ensures reachable && NeverShorter(base, transitions) ==> NoShorterRun(base, added, state, m, |ret|)
    {
      hide Closed, RuleClosed, AllMean, AllAccepted, Config, ReadsWith, IsOrigin, NeverShorter, NoShorterRun;
      ret, reachable := [], false;
      if final == {} {
        NothingAdded(state, m);
        return;
      }
      var cfg := Config(base.bound, m);
      ConfigTop(base.bound, m);
      var targets := RunTransitionAccumulate(state, cfg);
      for t := 0 to stateCount
        invariant !reachable ==> ret == [] && forall r :: r < t && r in targets ==> r !in final
        invariant reachable ==> exists f, k :: (f, k) in added && base.DrivesLow(state, m, ret, f, k)
        invariant reachable ==> forall r :: r < t && r in targets && r in final ==> |ret| <= |targets[r]|
        invariant reachable ==> exists r: nat :: r in final && ReadsWith(transitions, state, cfg, r, ret)
      {
        if t in targets && t in final {
          FoundRunLow(base, origin, transitions, state, m, t, targets[t]);
          if !reachable {
            reachable := true;
            ret := targets[t];
          } else if |ret| >= |targets[t]| {
            ret := targets[t];
          }
        }
      }
      if reachable {
        InRange(targets, state, cfg);
        if NeverShorter(base, transitions) {
          AnswerLeast(state, m, ret);
        }
      } else {
        NothingFound(state, m, targets);
      }
    }

    /** A best one of the runs of the states in from. */
    method BestRun(from: set<nat>, m: nat) returns (word: Word, reachable: bool)
      requires Valid() && (final != {} ==> Closed(base, transitions.Keys)) && forall p :: p in from ==> p < base.states
      ensures base.Valid() && (reachable <==> exists p :: p in from && CanReach(base, added, p, m))
      ensures reachable ==> final != {} && exists p, f, k ::
                p in from && (f, k) in added && base.DrivesLow(p, m, word, f, k)
      ensures reachable ==> exists p: nat, r: nat ::
                p in from && r in final && ReadsWith(transitions, p, Config(base.bound, m), r, word)
      ensures reachable && NeverShorter(base, transitions) ==>
                forall p :: p in from ==> NoShorterRun(base, added, p, m, |word|)
      ensures !reachable ==> word == []
    {
      hide Sound, AllAccepted, Closed, CanReach, Config, ReadsWith, NoShorterRun, NeverShorter;
      SoundBase();
      word, reachable := [], false;
      for p := 0 to base.states
        invariant reachable <==> exists r :: r in from && r < p && CanReach(base, added, r, m)
        invariant reachable ==> final != {} && exists r, f, j ::
          r in from && (f, j) in added && base.DrivesLow(r, m, word, f, j)
        invariant reachable ==> exists q: nat, r: nat ::
          q in from && r in final && ReadsWith(transitions, q, Config(base.bound, m), r, word)
        invariant reachable && NeverShorter(base, transitions) ==>
          forall r :: r in from && r < p ==> NoShorterRun(base, added, r, m, |word|)
        invariant !reachable ==> word == []
      {
        if p in from {
          var run, found := GetShortestValidRun(p, m);
          ghost var n := |word|;
          if found && (!reachable || |run| < |word|) {
            word, reachable := run, true;
          }
          StillLeast(from, p, m, n, |run|, |word|);
        }
      }
    }

    lemma StillLeast(from: set<nat>, p: nat, m: nat, n: nat, i: nat, j: nat)
      requires base.Valid()
      ensures forall r :: !CanReach(base, added, r, m) ==> NoShorterRun(base, added, r, m, j)
      ensures j <= n ==> forall r :: NoShorterRun(base, added, r, m, n) ==> NoShorterRun(base, added, r, m, j)
      ensures j <= i ==> forall r :: NoShorterRun(base, added, r, m, i) ==> NoShorterRun(base, added, r, m, j)
    {
    }

    lemma AnswerLeast(state: nat, m: nat, ret: Word)
      requires Valid() && Closed(base, transitions.Keys) && NeverShorter(base, transitions)
      requires forall r, w :: r in final && ReadsWith(transitions, state, Config(base.bound, m), r, w) ==> |ret| <= |w|
      ensures NoShorterRun(base, added, state, m, |ret|)
    {
      hide Closed, NeverShorter, AllAccepted, Config, ReadsWith;
      forall w: Word, f: nat, k: nat | (f, k) in added && base.DrivesLow(state, m, w, f, k)
        ensures |ret| <= |w|
      {
        var e, v := RunLeast(base, transitions, final, added, state, m, w, f, k);
      }
    }

    lemma NothingAdded(state: nat, m: nat)
      requires Valid() && final == {}
      ensures !CanReach(base, added, state, m)
    {
    }

    lemma NothingFound(state: nat, m: nat, targets: map<nat, Word>)
      requires Valid() && Closed(base, transitions.Keys) && state < base.states
      requires forall r: nat :: r in targets <==> Reads(transitions.Keys, state, Config(base.bound, m), r)
      requires forall r :: r < stateCount && r in targets ==> r !in final
      ensures !CanReach(base, added, state, m)
    {
      hide Sound, Closed, AllAccepted;
      SoundBase();
      AcceptedAtOnce(base, transitions, final, added);
      if CanReach(base, added, state, m) {
        FoundSomewhere(base, transitions.Keys, final, added, state, m);
        var r: nat :| r in final && Reads(transitions.Keys, state, Config(base.bound, m), r);
        FinalInRange(r);
      }
    }

    lemma FinalInRange(r: nat)
      requires Valid() && r in final
      ensures r < stateCount
    {
    }
  }

  /** The automaton pa accepts exactly the states in to that are below n, with the counter k, and nothing more. */
  ghost predicate Accepts(pa: PAutomaton, a: Mvca, to: set<nat>, n: nat, k: nat)
    reads pa
  {
    && pa.Valid() && pa.base == a && (forall f, j :: (f, j) in pa.added <==> f in to && f < n && j == k)
    && pa.stateCount == StartCount(a, to, k, n) && pa.final == StartEnds(a, to, k, n)
  }

  /** A saturated automaton for the states in to with the counter k. */
  method Prepare(a: Mvca, to: set<nat>, k: nat) returns (pa: PAutomaton)
    requires a.Valid()
    ensures fresh(pa) && Accepts(pa, a, to, a.states, k) && (pa.final != {} ==> Closed(a, pa.transitions.Keys))
    ensures pa.final != {} ==> Saturated(a, StartTable(a, to, k, a.states), pa.transitions, pa.stateCount)
  {
    hide PAutomaton.Valid, Closed, PathTable, Saturated, Config;
    pa := new PAutomaton(a);
    for q := 0 to a.states
      invariant fresh(pa) && Accepts(pa, a, to, q, k) && pa.transitions == StartTable(a, to, k, q)
    {
      if q in to {
        pa.AddAcceptingConfiguration(q, k);
      }
    }
    pa.SaturatePreStar();
  }

  /** The word is read by the transitions that the passes over the rules have added. */
  ghost predicate Answer(a: Mvca, from: set<nat>, m: nat, to: set<nat>, k: nat, word: Word)
    requires a.Valid()
  {
    exists t: Transitions, p: nat, r: nat ::
      && Saturated(a, StartTable(a, to, k, a.states), t, StartCount(a, to, k, a.states))
      && p in from && r in StartEnds(a, to, k, a.states) && ReadsWith(t, p, Config(a.bound, m), r, word)
  }

  /** No tame run from one of the states in from to one of those in to has fewer than n letters. */
  ghost predicate LeastAnswer(a: Mvca, from: set<nat>, m: nat, to: set<nat>, k: nat, n: nat)
    requires a.Valid()
  {
    forall p, w, q :: p in from && q in to && a.DrivesLow(p, m, w, q, k) ==> n <= |w|
  }

  /** The condition under which no order of the rules hides a shorter run. */
  ghost predicate Favourable(a: Mvca, to: set<nat>, k: nat)
    requires a.Valid()
  {
    SimpleShortest(a, StartTable(a, to, k, a.states).Keys)
  }

  /** A run from one of the states in from with counter m to one of the states in to with counter k. */
  method ShortestRun(a: Mvca, from: set<nat>, m: nat, to: set<nat>, k: nat) returns (word: Word, reachable: bool)
    requires a.Valid() && (forall p :: p in from || p in to ==> p < a.states)
    ensures reachable <==> exists p, w, q :: p in from && q in to && a.DrivesLow(p, m, w, q, k)
    ensures reachable ==> exists p, q :: p in from && q in to && a.Drives(p, m, word, q, k)
    ensures !reachable ==> word == []
    ensures NeverClimbs(a) ==> (reachable <==> exists p, q :: p in from && q in to && CanDrive(a, p, m, q, k))
    ensures reachable ==> Answer(a, from, m, to, k, word)
    ensures reachable && Favourable(a, to, k) ==> LeastAnswer(a, from, m, to, k, |word|)
    ensures reachable && Favourable(a, to, k) && NeverClimbs(a) ==>
              forall p, w, q :: p in from && q in to && a.Drives(p, m, w, q, k) ==> |word| <= |w|
  {
    hide PAutomaton.Valid, Closed, CanReach, Saturated, StartTable, Config, ReadsWith, NoShorterRun, NeverShorter;
    var pa := Prepare(a, to, k);
    ghost var added, t := pa.added, pa.transitions;
    word, reachable := pa.BestRun(from, m);
    if reachable {
      ghost var r: nat, f: nat, j: nat :| r in from && (f, j) in added && a.DrivesLow(r, m, word, f, j);
      LowDrives(a, r, m, word, f, j);
      if Favourable(a, to, k) {
        Favoured(a, to, k, t, pa.stateCount);
        NoShorterAnswer(a, added, from, m, to, k, |word|);
      }
    } else {
      NoAnswer(a, added, from, m, to, k);
    }
    if NeverClimbs(a) {
      AllTame(a, from, m, to, k, |word|);
    }
  }

  lemma NoShorterAnswer(a: Mvca, added: set<(nat, nat)>, from: set<nat>, m: nat, to: set<nat>, k: nat, n: nat)
    requires a.Valid() && (forall q :: q in to ==> (q, k) in added)
    requires forall p :: p in from ==> NoShorterRun(a, added, p, m, n)
    ensures LeastAnswer(a, from, m, to, k, n)
  {
    forall p, w: Word, q | p in from && q in to && a.DrivesLow(p, m, w, q, k)
      ensures n <= |w|
    {
      assert NoShorterRun(a, added, p, m, n) && (q, k) in added;
    }
  }

  lemma NoAnswer(a: Mvca, added: set<(nat, nat)>, from: set<nat>, m: nat, to: set<nat>, k: nat)
    requires a.Valid() && (forall q :: q in to ==> (q, k) in added)
    requires forall p :: p in from ==> !CanReach(a, added, p, m)
    ensures forall p, w, q :: p in from && q in to ==> !a.DrivesLow(p, m, w, q, k)
  {
    forall p, w: Word, q | p in from && q in to
      ensures !a.DrivesLow(p, m, w, q, k)
    {
      assert !CanReach(a, added, p, m) && (q, k) in added;
    }
  }

  lemma Favoured(a: Mvca, to: set<nat>, k: nat, t: Transitions, n: nat)
    requires a.Valid() && Favourable(a, to, k) && Saturated(a, StartTable(a, to, k, a.states), t, n)
    ensures NeverShorter(a, t)
  {
    StartTableEmpty(a, to, k, a.states);
    SaturatedNeverShorter(a, StartTable(a, to, k, a.states), t, n);
  }

  /** Where nothing climbs all runs are tame. */
  lemma AllTame(a: Mvca, from: set<nat>, m: nat, to: set<nat>, k: nat, n: nat)
    requires a.Valid() && NeverClimbs(a)
    ensures (exists p, w, q :: p in from && q in to && a.DrivesLow(p, m, w, q, k))
            <==> (exists p, q :: p in from && q in to && CanDrive(a, p, m, q, k))
    ensures LeastAnswer(a, from, m, to, k, n) ==>
              forall p, w, q :: p in from && q in to && a.Drives(p, m, w, q, k) ==> n <= |w|
  {
    forall p, w: Word, q | a.Drives(p, m, w, q, k)
      ensures a.DrivesLow(p, m, w, q, k)
    {
      DrivesTame(a, p, m, w, q, k);
    }
    forall p, w: Word, q | a.DrivesLow(p, m, w, q, k)
      ensures CanDrive(a, p, m, q, k)
    {
      LowDrives(a, p, m, w, q, k);
    }
    if exists p, q :: p in from && q in to && CanDrive(a, p, m, q, k) {
      var p: nat, q: nat :| p in from && q in to && CanDrive(a, p, m, q, k);
      var w: Word :| a.Drives(p, m, w, q, k);
      assert a.DrivesLow(p, m, w, q, k);
    }
  }
}
