/** Random sequences that stand for trees with a given number of inner nodes: in how many ways the leaves of the trees
    can lead back to known states, and the random choice that weighs every sequence by this number. */
module RandomSequences {
  import opened Automata
  import opened RandomDraws

  // ---- the sequences ----

  /** Sequences of t numbers in 1..p that do not fall and keep up with their positions. */
  ghost predicate IsK(m: nat, t: nat, p: nat, k: seq<nat>)
    requires m >= 1
  {
    && |k| == t
    && (forall i :: 0 <= i < t ==> 1 <= k[i] <= p && k[i] * (m - 1) >= i + 1)
    && (forall i, j :: 0 <= i < j < t ==> k[i] <= k[j])
  }

  ghost function Weights(s: seq<seq<nat>>): nat {
    if s == [] then 0 else Weights(s[..|s| - 1]) + Weight(s[|s| - 1])
  }

  ghost function Extend(s: seq<seq<nat>>, p: nat): (r: seq<seq<nat>>)
    ensures |r| == |s| && forall i :: 0 <= i < |s| ==> r[i] == s[i] + [p]
  {
    seq(|s|, i requires 0 <= i < |s| => s[i] + [p])
  }

  /** All sequences, those without the largest number first. */
  ghost function AllK(m: nat, t: nat, p: nat): seq<seq<nat>>
    requires m >= 2 && t >= 1
    decreases t, p
  {
    if t == 1 then if p == 0 then [] else AllK(m, t, p - 1) + [[p]]
    else if p * (m - 1) < t then []
    else AllK(m, t, p - 1) + Extend(AllK(m, t - 1, p), p)
  }

  lemma IsKSmaller(m: nat, t: nat, p: nat, k: seq<nat>)
    requires m >= 1 && t >= 1 && |k| == t
    ensures IsK(m, t, p, k) && k[t - 1] < p ==> IsK(m, t, p - 1, k)
    ensures p >= 1 && IsK(m, t, p - 1, k) ==> IsK(m, t, p, k) && k[t - 1] < p
  {
  }

  lemma IsKFront(m: nat, t: nat, p: nat, k: seq<nat>)
    requires m >= 1 && t >= 2 && |k| == t && k[t - 1] == p && p * (m - 1) >= t
    ensures IsK(m, t, p, k) <==> IsK(m, t - 1, p, k[..t - 1]) && p >= 1
  {
    var u := k[..t - 1];
    assert forall i :: 0 <= i < t - 1 ==> u[i] == k[i];
  }

  lemma TooMany(m: nat, t: nat, p: nat, k: seq<nat>)
    requires m >= 1 && t >= 1 && p * (m - 1) < t
    ensures !IsK(m, t, p, k)
  {
    if IsK(m, t, p, k) {
      Times(k[t - 1], p, m - 1);
    }
  }

  lemma InExtend(s: seq<seq<nat>>, p: nat, k: seq<nat>)
    ensures k in Extend(s, p) <==> k != [] && k[|k| - 1] == p && k[..|k| - 1] in s
  {
    if k in Extend(s, p) {
      var i :| 0 <= i < |s| && Extend(s, p)[i] == k;
      assert k[..|k| - 1] == s[i];
    }
    if k != [] && k[|k| - 1] == p && k[..|k| - 1] in s {
      var i :| 0 <= i < |s| && s[i] == k[..|k| - 1];
      assert Extend(s, p)[i] == k;
    }
  }

  lemma FirstExact(m: nat, p: nat, a: seq<seq<nat>>, k: seq<nat>)
    requires m >= 2 && p >= 1
    requires k in a <==> IsK(m, 1, p - 1, k)
    ensures k in a + [[p]] <==> IsK(m, 1, p, k)
  {
    if |k| == 1 {
      IsKSmaller(m, 1, p, k);
      if k[0] == p {
        assert k == [p];
        Times(1, p, m - 1);
      }
    }
  }

  lemma StepExact(m: nat, t: nat, p: nat, a: seq<seq<nat>>, b: seq<seq<nat>>, k: seq<nat>)
    requires m >= 2 && t >= 2 && p * (m - 1) >= t
    requires k in a <==> IsK(m, t, p - 1, k)
    requires k != [] ==> (k[..|k| - 1] in b <==> IsK(m, t - 1, p, k[..|k| - 1]))
    ensures k in a + Extend(b, p) <==> IsK(m, t, p, k)
  {
    InExtend(b, p, k);
    if |k| == t {
      IsKSmaller(m, t, p, k);
      if k[t - 1] == p {
        IsKFront(m, t, p, k);
      }
    }
  }

  /** The list holds exactly the sequences. */
  lemma {:induction false} AllKExact(m: nat, t: nat, p: nat, k: seq<nat>)
    requires m >= 2 && t >= 1
    ensures k in AllK(m, t, p) <==> IsK(m, t, p, k)
    decreases t, p
  {
    hide IsK;
    hide Extend;
    if p == 0 || p * (m - 1) < t {
      TooMany(m, t, p, k);
    } else if t == 1 {
      AllKExact(m, t, p - 1, k);
      FirstExact(m, p, AllK(m, t, p - 1), k);
    } else {
      AllKExact(m, t, p - 1, k);
      if k != [] {
        AllKExact(m, t - 1, p, k[..|k| - 1]);
      }
      StepExact(m, t, p, AllK(m, t, p - 1), AllK(m, t - 1, p), k);
    }
  }

  // ---- how many there are ----

  /** The entry of the table. */
  ghost function C(m: nat, t: nat, p: nat): nat
    requires m >= 2 && t >= 1
    decreases t, p
  {
    if t == 1 then p * (p + 1) / 2
    else if p * (m - 1) < t then 0
    else C(m, t, p - 1) + p * C(m, t - 1, p)
  }

  lemma {:induction false} WeightsConcat(s: seq<seq<nat>>, r: seq<seq<nat>>)
    ensures Weights(s + r) == Weights(s) + Weights(r)
    decreases |r|
  {
    if r == [] {
      assert s + r == s;
    } else {
      assert (s + r)[..|s + r| - 1] == s + r[..|r| - 1];
      WeightsConcat(s, r[..|r| - 1]);
    }
  }

  lemma {:induction false} WeightsExtend(s: seq<seq<nat>>, p: nat)
    ensures Weights(Extend(s, p)) == p * Weights(s)
    decreases |s|
  {
    if s != [] {
      var n := |s| - 1;
      var k := s[n];
      WeightsExtend(s[..n], p);
      assert Extend(s, p)[..n] == Extend(s[..n], p);
      assert (k + [p])[..|k|] == k;
      assert Weight(k + [p]) == Weight(k) * p;
      assert p * (Weights(s[..n]) + Weight(k)) == p * Weights(s[..n]) + p * Weight(k);
    }
  }

  lemma WeightsOne(p: nat)
    ensures Weights([[p]]) == p
  {
    WeightOne(p);
    assert [[p]][..0] == [];
  }

  lemma NoWeights()
    ensures Weights([]) == 0
  {
  }

  lemma CountStep(a: seq<seq<nat>>, b: seq<seq<nat>>, p: nat)
    ensures Weights(a + Extend(b, p)) == Weights(a) + p * Weights(b)
  {
    WeightsConcat(a, Extend(b, p));
    WeightsExtend(b, p);
  }

  lemma Triangle(p: nat)
    requires p >= 1
    ensures p * (p + 1) / 2 == (p - 1) * p / 2 + p
  {
    assert p * (p + 1) == (p - 1) * p + 2 * p;
  }

  /** The entry is the sum of the products of the entries of all sequences. */
  lemma {:induction false} CountExact(m: nat, t: nat, p: nat)
    requires m >= 2 && t >= 1
    ensures C(m, t, p) == Weights(AllK(m, t, p))
    decreases t, p
  {
    hide Weights;
    hide Extend;
    if t == 1 {
      if p == 0 {
        NoWeights();
      } else {
        CountExact(m, t, p - 1);
        WeightsConcat(AllK(m, t, p - 1), [[p]]);
        WeightsOne(p);
        Triangle(p);
      }
    } else if p * (m - 1) < t {
      NoWeights();
    } else {
      CountExact(m, t, p - 1);
      CountExact(m, t - 1, p);
      CountStep(AllK(m, t, p - 1), AllK(m, t - 1, p), p);
    }
  }

  /** Entries are zero exactly if there is no sequence. */
  lemma {:induction false} CountPositive(m: nat, t: nat, p: nat)
    requires m >= 2 && t >= 1
    ensures C(m, t, p) > 0 <==> p * (m - 1) >= t
    decreases t, p
  {
    if t == 1 {
      if p > 0 {
        Times(1, m - 1, p);
        assert p * (p + 1) >= 2;
      }
    } else if p * (m - 1) >= t {
      CountPositive(m, t - 1, p);
      Times(1, p, C(m, t - 1, p));
    }
  }

  class Table {
    const m: nat
    var data: map<(nat, nat), nat>

    ghost predicate Valid()
      reads this
    {
      m >= 2 && forall t, p :: (t, p) in data ==> t >= 1 && data[(t, p)] == C(m, t, p)
    }

    constructor (m: nat)
      requires m >= 2
      ensures Valid() && this.m == m
    {
      this.m := m;
      data := map[];
    }

    /** Look the entry up, or compute it and keep it. */
    method GetElement(t: nat, p: nat) returns (r: nat)
      requires Valid() && t >= 1
      modifies this
      ensures Valid() && r == C(m, t, p)
      decreases t, p
    {
      if (t, p) in data {
        return data[(t, p)];
      }
      if t == 1 {
        r := p * (p + 1) / 2;
      } else if p * (m - 1) < t {
        return 0;
      } else {
        var a := GetElement(t, p - 1);
        var b := GetElement(t - 1, p);
        r := a + p * b;
      }
      data := data[(t, p) := r];
    }
  }

  // ---- the random choice ----

  /** Count down from a random number. */
  ghost function First(de: nat, x: nat): (r: nat)
    requires x >= 1
    decreases de
  {
    if de <= x then x else First(de - x, x + 1)
  }

  ghost function FirstChoices(p: nat): (s: seq<Draws<seq<nat>>>)
    ensures |s| == p * (p + 1) / 2
  {
    seq(p * (p + 1) / 2, i requires 0 <= i < p * (p + 1) / 2 => Result([First(i + 1, 1)]))
  }

  ghost function Snoc(p: nat): seq<nat> -> seq<nat> {
    s => s + [p]
  }

  /** All that can be drawn for t numbers up to p. */
  ghost function Choices(m: nat, t: nat, p: nat): Draws<seq<nat>>
    requires m >= 2 && t >= 1
    decreases t, p
  {
    if p * (m - 1) < t then Result([])
    else if t == 1 then Draw(FirstChoices(p))
    else
      var less := Choices(m, t, p - 1);
      var more := Map(Choices(m, t - 1, p), Snoc(p));
      Draw(seq(C(m, t, p), i => if i + 1 <= C(m, t, p - 1) && p > 1 then less else more))
  }

  lemma {:induction false} FirstIs(de: nat, x: nat, y: nat)
    requires 1 <= x <= y
    requires (y - 1) * y / 2 - (x - 1) * x / 2 < de <= y * (y + 1) / 2 - (x - 1) * x / 2
    ensures First(de, x) == y
    decreases y - x
  {
    Triangle(x);
    if x < y {
      FirstSum(x, y - 1);
      FirstIs(de - x, x + 1, y);
    } else {
      assert de <= x;
    }
  }

  lemma {:induction false} FirstSum(x: nat, y: nat)
    requires 1 <= x <= y
    ensures x * (x + 1) / 2 <= y * (y + 1) / 2
    decreases y - x
  {
    if x < y {
      Triangle(y);
      FirstSum(x, y - 1);
    }
  }

  lemma FirstNone(k: seq<nat>)
    ensures Total(FirstChoices(0), k) == 0.0
  {
    assert FirstChoices(0) == [];
  }

  lemma FirstSame(s: seq<Draws<seq<nat>>>, p: nat, k: seq<nat>)
    requires |s| == p && forall i :: 0 <= i < p ==> s[i] == Result([p])
    ensures Total(s, k) == if k == [p] then p as real else 0.0
  {
    TotalRepeat(s, k, if k == [p] then 1.0 else 0.0);
  }

  lemma FirstSplit(p: nat)
    requires p >= 1
    ensures |FirstChoices(p)| == |FirstChoices(p - 1)| + p
    ensures FirstChoices(p)[..|FirstChoices(p - 1)|] == FirstChoices(p - 1)
    ensures forall i :: |FirstChoices(p - 1)| <= i < |FirstChoices(p)| ==> FirstChoices(p)[i] == Result([p])
  {
    Triangle(p);
    forall i | |FirstChoices(p - 1)| <= i < |FirstChoices(p)|
      ensures FirstChoices(p)[i] == Result([p])
    {
      FirstIs(i + 1, 1, p);
    }
  }

  lemma FirstJoin(s: seq<Draws<seq<nat>>>, n: nat, p: nat, k: seq<nat>)
    requires |s| == n + p && forall i :: n <= i < n + p ==> s[i] == Result([p])
    ensures Total(s, k) == Total(s[..n], k) + if k == [p] then p as real else 0.0
  {
    FirstSame(s[n..], p, k);
    hide Total;
    assert s == s[..n] + s[n..];
    TotalConcat(s[..n], s[n..], k);
  }

  /** Of the numbers drawn first, x of them lead to x. */
  lemma {:induction false} FirstTotal(p: nat, k: seq<nat>)
    ensures Total(FirstChoices(p), k) == if |k| == 1 && 1 <= k[0] <= p then k[0] as real else 0.0
    decreases p
  {
    if p == 0 {
      FirstNone(k);
    } else {
      hide Total;
      hide FirstChoices;
      FirstTotal(p - 1, k);
      FirstSplit(p);
      FirstJoin(FirstChoices(p), |FirstChoices(p - 1)|, p, k);
      assert |k| == 1 && k[0] == p ==> k == [p];
    }
  }

  lemma SnocChance(d: Draws<seq<nat>>, p: nat, k: seq<nat>)
    ensures Chance(Map(d, Snoc(p)), k) == if k != [] && k[|k| - 1] == p then Chance(d, k[..|k| - 1]) else 0.0
  {
    if k != [] && k[|k| - 1] == p {
      var u := k[..|k| - 1];
      assert k == Snoc(p)(u);
      forall v | Snoc(p)(v) == k
        ensures v == u
      {
        assert u == (v + [p])[..|v|];
      }
      MapChance(d, Snoc(p), u);
    } else {
      forall v
        ensures Snoc(p)(v) != k
      {
        assert Snoc(p)(v)[|v|] == p;
      }
      MapMissed(d, Snoc(p), [], k);
    }
  }

  /** In how many ways the leaves of the sequence can lead back. */
  ghost function Share(m: nat, t: nat, p: nat, k: seq<nat>): nat
    requires m >= 1
  {
    if IsK(m, t, p, k) then Weight(k) else 0
  }

  lemma ShareNone(m: nat, t: nat, p: nat, k: seq<nat>)
    requires m >= 2 && t >= 1 && p * (m - 1) < t
    ensures Share(m, t, p, k) == 0 == C(m, t, p)
  {
    TooMany(m, t, p, k);
    CountPositive(m, t, p);
  }

  lemma ShareFirst(m: nat, p: nat, k: seq<nat>)
    requires m >= 2
    ensures Share(m, 1, p, k) == if |k| == 1 && 1 <= k[0] <= p then k[0] else 0
  {
    if |k| == 1 && 1 <= k[0] <= p {
      Times(1, k[0], m - 1);
      WeightOne(k[0]);
      assert k == [k[0]];
    }
  }

  lemma ShareStep(m: nat, t: nat, p: nat, k: seq<nat>)
    requires m >= 2 && t >= 2 && p * (m - 1) >= t
    ensures Share(m, t, p, k) == Share(m, t, p - 1, k)
                                 + if k != [] && k[|k| - 1] == p then p * Share(m, t - 1, p, k[..|k| - 1]) else 0
  {
    if |k| == t {
      IsKSmaller(m, t, p, k);
      if k[t - 1] == p {
        IsKFront(m, t, p, k);
      }
    }
  }

  /** The chance is the share of the sequence among all. */
  lemma {:induction false} ChanceOfFirst(m: nat, p: nat, k: seq<nat>)
    requires m >= 2 && p >= 1
    ensures Copies(C(m, 1, p), Chance(Choices(m, 1, p), k)) == Share(m, 1, p, k) as real
  {
    Times(1, p, m - 1);
    FirstTotal(p, k);
    ShareFirst(m, p, k);
    CountPositive(m, 1, p);
    ChanceOfDraw(FirstChoices(p), k);
  }

  lemma StepTotal(s: seq<Draws<seq<nat>>>, a: nat, less: Draws<seq<nat>>, more: Draws<seq<nat>>, k: seq<nat>)
    requires a <= |s| && (forall i :: 0 <= i < a ==> s[i] == less) && (forall i :: a <= i < |s| ==> s[i] == more)
    ensures Total(s, k) == Copies(a, Chance(less, k)) + Copies(|s| - a, Chance(more, k))
  {
    hide *;
    TotalRepeat(s[..a], k, Chance(less, k));
    TotalRepeat(s[a..], k, Chance(more, k));
    assert s == s[..a] + s[a..];
    TotalConcat(s[..a], s[a..], k);
  }

  lemma Product(p: nat, c: nat, x: real, w: nat)
    requires Copies(c, x) == w as real
    ensures Copies(p * c, x) == (p * w) as real
  {
    assert (p * c) as real == (p as real) * (c as real);
    assert (p * w) as real == (p as real) * (w as real);
  }

  lemma StepSplit(m: nat, t: nat, p: nat)
    requires m >= 2 && t >= 2 && p * (m - 1) >= t
    ensures p >= 1 && C(m, t, p) == C(m, t, p - 1) + p * C(m, t - 1, p) && C(m, t, p) > 0
    ensures Choices(m, t, p).Draw? && |Choices(m, t, p).next| == C(m, t, p)
    ensures forall i :: 0 <= i < C(m, t, p - 1) ==> Choices(m, t, p).next[i] == Choices(m, t, p - 1)
    ensures forall i :: C(m, t, p - 1) <= i < C(m, t, p) ==>
                          Choices(m, t, p).next[i] == Map(Choices(m, t - 1, p), Snoc(p))
  {
    CountPositive(m, t, p);
    if p == 1 {
      CountPositive(m, t, 0);
    }
  }

  lemma MoreChance(d: Draws<seq<nat>>, c: nat, p: nat, k: seq<nat>, w: nat)
    requires if k != [] && k[|k| - 1] == p then Copies(c, Chance(d, k[..|k| - 1])) == w as real else w == 0
    ensures Copies(p * c, Chance(Map(d, Snoc(p)), k)) == (p * w) as real
  {
    SnocChance(d, p, k);
    Product(p, c, Chance(Map(d, Snoc(p)), k), w);
  }

  lemma AddShares(a: nat, b: nat, c: nat)
    requires c == a + b
    ensures c as real == a as real + b as real
  {
  }

  lemma ChanceStep(m: nat, t: nat, p: nat, k: seq<nat>, w: nat)
    requires m >= 2 && t >= 2 && p * (m - 1) >= t
    requires Copies(C(m, t, p - 1), Chance(Choices(m, t, p - 1), k)) == Share(m, t, p - 1, k) as real
    requires w == if k != [] && k[|k| - 1] == p then Share(m, t - 1, p, k[..|k| - 1]) else 0
    requires if k != [] && k[|k| - 1] == p then
               Copies(C(m, t - 1, p), Chance(Choices(m, t - 1, p), k[..|k| - 1])) == w as real
             else w == 0
    ensures Copies(C(m, t, p), Chance(Choices(m, t, p), k)) == Share(m, t, p, k) as real
  {
    ShareStep(m, t, p, k);
    StepSplit(m, t, p);
    var next := Choices(m, t, p).next;
    hide *;
    MoreChance(Choices(m, t - 1, p), C(m, t - 1, p), p, k, w);
    StepTotal(next, C(m, t, p - 1), Choices(m, t, p - 1), Map(Choices(m, t - 1, p), Snoc(p)), k);
    ChanceOfDraw(next, k);
    AddShares(Share(m, t, p - 1, k), p * w, Share(m, t, p, k));
  }

  /** The chance of a sequence is its share among all ways. */
  lemma {:induction false} ChanceExact(m: nat, t: nat, p: nat, k: seq<nat>)
    requires m >= 2 && t >= 1
    ensures Copies(C(m, t, p), Chance(Choices(m, t, p), k)) == Share(m, t, p, k) as real
    decreases t, p
  {
    hide Chance;
    hide Choices;
    hide C;
    hide Share;
    if p * (m - 1) < t {
      ShareNone(m, t, p, k);
    } else if t == 1 {
      ChanceOfFirst(m, p, k);
    } else {
      hide Copies;
      ChanceExact(m, t, p - 1, k);
      if k != [] && k[|k| - 1] == p {
        ChanceExact(m, t - 1, p, k[..|k| - 1]);
        ChanceStep(m, t, p, k, Share(m, t - 1, p, k[..|k| - 1]));
      } else {
        ChanceStep(m, t, p, k, 0);
      }
    }
  }

  lemma NoChoice(m: nat, t: nat, p: nat)
    requires m >= 2 && t >= 1 && p * (m - 1) < t
    ensures Choices(m, t, p) == Result([])
  {
  }

  lemma StepFollow(m: nat, t: nat, p: nat, r: seq<nat>)
    requires m >= 2 && t >= 2 && p * (m - 1) >= t && Answers(Choices(m, t, p), r)
    ensures p >= 1 && r != [] && r[0] < C(m, t, p)
    ensures r[0] < C(m, t, p - 1) ==> p * (m - 1) - (m - 1) >= t && Answers(Choices(m, t, p - 1), r[1..])
                                      && Follow(Choices(m, t, p), r) == Follow(Choices(m, t, p - 1), r[1..])
    ensures r[0] >= C(m, t, p - 1) ==> Answers(Choices(m, t - 1, p), r[1..])
                                       && Follow(Choices(m, t, p), r) == Follow(Choices(m, t - 1, p), r[1..]) + [p]
  {
    StepSplit(m, t, p);
    CountPositive(m, t, p - 1);
    hide Choices;
    if r[0] >= C(m, t, p - 1) {
      MapAnswers(Choices(m, t - 1, p), Snoc(p), r[1..]);
      MapFollow(Choices(m, t - 1, p), Snoc(p), r[1..]);
    }
  }

  lemma {:induction false} FirstRange(de: nat, p: nat)
    requires 1 <= de <= p * (p + 1) / 2
    ensures p >= 1 && 1 <= First(de, 1) <= p
    decreases p
  {
    Triangle(p);
    if de <= (p - 1) * p / 2 {
      FirstRange(de, p - 1);
    } else {
      FirstIs(de, 1, p);
    }
  }

  lemma FirstFollow(m: nat, p: nat, r: seq<nat>)
    requires m >= 2 && p * (m - 1) >= 1 && Answers(Choices(m, 1, p), r)
    ensures r != [] && r[0] < C(m, 1, p) && r[1..] == [] && Follow(Choices(m, 1, p), r) == [First(r[0] + 1, 1)]
    ensures IsK(m, 1, p, [First(r[0] + 1, 1)])
  {
    FirstRange(r[0] + 1, p);
    Times(1, First(r[0] + 1, 1), m - 1);
  }

  /** Every choice ends in a sequence. */
  lemma {:induction false} FollowIsK(m: nat, t: nat, p: nat, r: seq<nat>)
    requires m >= 2 && t >= 1 && p * (m - 1) >= t && Answers(Choices(m, t, p), r)
    ensures IsK(m, t, p, Follow(Choices(m, t, p), r))
    decreases t, p
  {
    hide Choices;
    if t == 1 {
      FirstFollow(m, p, r);
    } else {
      StepFollow(m, t, p, r);
      var k := Follow(Choices(m, t, p), r);
      if r[0] < C(m, t, p - 1) {
        FollowIsK(m, t, p - 1, r[1..]);
        IsKSmaller(m, t, p, k);
      } else {
        FollowIsK(m, t - 1, p, r[1..]);
        assert k[..t - 1] == Follow(Choices(m, t - 1, p), r[1..]);
        IsKFront(m, t, p, k);
      }
    }
  }

  /** Counting down ends at the number whose triangle the random number falls into. */
  lemma {:induction false} FirstBetween(de: nat, p: nat)
    requires 1 <= de <= p * (p + 1) / 2
    ensures var x := First(de, 1); x >= 1 && (x - 1) * x / 2 < de <= x * (x + 1) / 2
    decreases p
  {
    Triangle(p);
    if de <= (p - 1) * p / 2 {
      FirstBetween(de, p - 1);
    } else {
      FirstIs(de, 1, p);
    }
  }

  /** The first draw decides the last number: it is p exactly if the draw is not below the number of ways with smaller
      numbers. */
  lemma DrawDecides(m: nat, t: nat, p: nat, r: seq<nat>)
    requires m >= 2 && t >= 2 && p * (m - 1) >= t && Answers(Choices(m, t, p), r)
    ensures var k := Follow(Choices(m, t, p), r);
      p >= 1 && |k| == t && r != [] && (k[t - 1] == p <==> r[0] >= Weights(AllK(m, t, p - 1)))
  {
    hide Choices, Weights, AllK, C, Answers, Follow;
    StepFollow(m, t, p, r);
    CountExact(m, t, p - 1);
    if r[0] < C(m, t, p - 1) {
      FollowIsK(m, t, p - 1, r[1..]);
    } else {
      FollowIsK(m, t - 1, p, r[1..]);
    }
  }

  /** Count down from the random number of the first entry. */
  method FirstEntry(de: nat) returns (x: nat)
    requires de >= 1
    ensures x == First(de, 1)
  {
    var rest: nat := de;
    x := 1;
    while rest > x
      invariant x >= 1 && First(rest, x) == First(de, 1)
    {
      rest := rest - x;
      x := x + 1;
    }
  }

  /** A sequence for the random numbers in r. */
  method RandomElementOfK(table: Table, t: nat, p: nat, r: seq<nat>) returns (ret: seq<nat>)
    requires table.Valid() && t >= 1 && Answers(Choices(table.m, t, p), r)
    modifies table
    ensures table.Valid()
    ensures ret == Follow(Choices(table.m, t, p), r)
    decreases t, p
  {
    hide Choices;
    if p * (table.m - 1) < t {
      NoChoice(table.m, t, p);
      return [];
    }
    var c := table.GetElement(t, p);
    if t == 1 {
      FirstFollow(table.m, p, r);
      var x := FirstEntry(r[0] + 1);
      ret := [x];
    } else {
      StepFollow(table.m, t, p, r);
      var de := r[0] + 1;
      var less := table.GetElement(t, p - 1);
      if de <= less && p > 1 {
        ret := RandomElementOfK(table, t, p - 1, r[1..]);
      } else {
        ret := RandomElementOfK(table, t - 1, p, r[1..]);
        ret := ret + [p];
      }
    }
  }
}
