/** std::set<int> as a strictly increasing sequence, and the merges of set.h on it. */
module OrderedSets {

  ghost predicate Sorted(s: seq<nat>) {
    |s| > 0 ==> AllAbove(s[0], Elems(s[1..])) && Sorted(s[1..])
  }

  /** The members of s. */
  ghost function Elems(s: seq<nat>): set<nat> {
    if s == [] then {} else {s[0]} + Elems(s[1..])
  }

  ghost predicate AllAbove(k: nat, s: set<nat>) {
    forall x :: x in s ==> k < x
  }

  ghost predicate AllBelow(s: set<nat>, k: nat) {
    forall x :: x in s ==> x < k
  }

  /** Insertion at the place the order demands; nothing changes if x is there already. */
  function Insert(s: seq<nat>, x: nat): seq<nat> {
    if s == [] then [x]
    else if x < s[0] then [x] + s
    else if x == s[0] then s
    else [s[0]] + Insert(s[1..], x)
  }

  lemma {:induction false} InsertExact(s: seq<nat>, x: nat)
    requires Sorted(s)
    ensures Sorted(Insert(s, x)) && Elems(Insert(s, x)) == Elems(s) + {x}
  {
    if s == [] {
    } else if x < s[0] {
      assert ([x] + s)[1..] == s;
    } else if x > s[0] {
      InsertExact(s[1..], x);
      assert ([s[0]] + Insert(s[1..], x))[1..] == Insert(s[1..], x);
    }
  }

  lemma {:induction false} ElemsConcat(s: seq<nat>, t: seq<nat>)
    ensures Elems(s + t) == Elems(s) + Elems(t)
  {
    if s == [] {
      assert s + t == t;
    } else {
      assert (s + t)[0] == s[0] && (s + t)[1..] == s[1..] + t;
      ElemsConcat(s[1..], t);
    }
  }

  /** s[i] is the first of what follows, and the last of what is passed when i steps on. */
  lemma ElemsStep(s: seq<nat>, i: nat)
    requires i < |s|
    ensures Elems(s[i..]) == {s[i]} + Elems(s[i + 1..])
    ensures Elems(s[..i + 1]) == Elems(s[..i]) + {s[i]}
    ensures Elems(s) == Elems(s[..i]) + Elems(s[i..])
  {
    ElemsOne(s[i]);
    hide Elems;
    var a, b, c := s[..i], [s[i]], s[i + 1..];
    assert s[i..] == b + c && s[..i + 1] == a + b && s == a + s[i..];
    ElemsConcat(b, c);
    ElemsConcat(a, b);
    ElemsConcat(a, s[i..]);
  }

  lemma ElemsOne(x: nat)
    ensures Elems([x]) == {x}
  {
    assert [x][1..] == [] || |[x]| == 1;
  }

  lemma {:induction false} SortedStep(s: seq<nat>, i: nat)
    requires Sorted(s) && i < |s|
    ensures AllAbove(s[i], Elems(s[i + 1..])) && AllBelow(Elems(s[..i]), s[i])
    decreases i
  {
    if i > 0 {
      SortedStep(s[1..], i - 1);
      assert s[1..][i..] == s[i + 1..] && s[1..][i - 1] == s[i];
      assert s[..i][1..] == s[1..][..i - 1] && s[..i][0] == s[0];
      ElemsStep(s[1..], i - 1);
    }
  }

  lemma {:induction false} ElemsMember(s: seq<nat>, x: nat)
    ensures x in Elems(s) <==> x in s
  {
    if s != [] {
      ElemsMember(s[1..], x);
      assert s == [s[0]] + s[1..];
    }
  }

  lemma {:induction false} ElemsSize(s: seq<nat>)
    requires Sorted(s)
    ensures |Elems(s)| == |s|
  {
    if |s| > 0 {
      ElemsSize(s[1..]);
    }
  }

  /** Two increasing sequences with the same members are the same. */
  lemma {:induction false} SortedUnique(s: seq<nat>, t: seq<nat>)
    requires Sorted(s) && Sorted(t) && Elems(s) == Elems(t)
    ensures s == t
    decreases |s|
  {
    ElemsSize(s);
    ElemsSize(t);
    if |s| > 0 {
      assert s[0] in Elems(s) && t[0] in Elems(t);
      assert s[0] == t[0];
      assert Elems(s[1..]) == Elems(s) - {s[0]} && Elems(t[1..]) == Elems(t) - {t[0]};
      SortedUnique(s[1..], t[1..]);
      assert s == [s[0]] + s[1..] && t == [t[0]] + t[1..];
    }
  }

  lemma SubsetSize(a: set<nat>, b: set<nat>)
    requires a <= b
    ensures |a| <= |b|
  {
    assert b == a + (b - a);
  }

  method InsertAll(s: seq<nat>, t: seq<nat>) returns (r: seq<nat>)
    requires Sorted(s)
    ensures Sorted(r) && Elems(r) == Elems(s) + Elems(t)
  {
    r := s;
    for i := 0 to |t|
      invariant Sorted(r) && Elems(r) == Elems(s) + Elems(t[..i])
    {
      InsertExact(r, t[i]);
      ElemsStep(t, i);
      r := Insert(r, t[i]);
    }
    assert t[..|t|] == t;
  }

  /** What one look at the two current members decides. */
  lemma IncludesStep(superset: seq<nat>, big: nat, subset: seq<nat>, small: nat)
    requires Sorted(superset) && Sorted(subset) && big < |superset| && small < |subset|
    ensures var rest := Elems(subset[small..]) <= Elems(superset[big..]);
      && (subset[small] == superset[big] ==> (rest <==> Elems(subset[small + 1..]) <= Elems(superset[big..])))
      && (subset[small] < superset[big] ==> !rest)
      && (subset[small] > superset[big] ==> (rest <==> Elems(subset[small..]) <= Elems(superset[big + 1..])))
  {
    ElemsStep(superset, big);
    SortedStep(superset, big);
    ElemsStep(subset, small);
    SortedStep(subset, small);
    assert subset[small] in Elems(subset[small..]) && superset[big] in Elems(superset[big..]);
  }

  /** Is subset contained in superset? Both are walked once, in step with their order. */
  method SetIncludes(superset: seq<nat>, subset: seq<nat>) returns (r: bool)
    requires Sorted(superset) && Sorted(subset)
    ensures r <==> Elems(subset) <= Elems(superset)
  {
    if |subset| > |superset| {
      LargerNotIncluded(superset, subset);
      return false;
    }
    var big, small := 0, 0;
    assert subset[0..] == subset && superset[0..] == superset;
    assert Elems(subset[|subset|..]) == {} == Elems(superset[|superset|..]);
    assert forall k :: 0 <= k < |subset| ==> subset[k] in Elems(subset[k..]);
    hide Elems, Sorted;
    while big != |superset| && small != |subset|
      invariant big <= |superset| && small <= |subset|
      invariant Elems(subset) <= Elems(superset) <==> Elems(subset[small..]) <= Elems(superset[big..])
      decreases |superset| - big + |subset| - small
    {
      IncludesStep(superset, big, subset, small);
      if subset[small] == superset[big] {
        small := small + 1;
      } else {
        if subset[small] < superset[big] {
          return false;
        } else {
          big := big + 1;
        }
      }
    }
    r := big != |superset| || small == |subset|;
  }

  lemma LargerNotIncluded(superset: seq<nat>, subset: seq<nat>)
    requires Sorted(superset) && Sorted(subset) && |subset| > |superset|
    ensures !(Elems(subset) <= Elems(superset))
  {
    ElemsSize(superset);
    ElemsSize(subset);
    if Elems(subset) <= Elems(superset) {
      SubsetSize(Elems(subset), Elems(superset));
    }
  }

  /** The members of s that are not to be removed; both sets are walked in step with their order. */
  method SetWithout(s: seq<nat>, remove: seq<nat>) returns (ret: seq<nat>)
    requires Sorted(s) && Sorted(remove)
    ensures Sorted(ret) && Elems(ret) == Elems(s) - Elems(remove)
  {
    ret := [];
    var si, rmi := 0, 0;
    assert Elems(s[..0]) == {} && Sorted(ret) && Elems(ret) == {} && Elems(remove[..0]) == {};
    hide Elems, Sorted;
    while si != |s| && rmi != |remove|
      invariant si <= |s| && rmi <= |remove| && Sorted(ret)
      invariant Elems(ret) == Elems(s[..si]) - Elems(remove)
      invariant si < |s| ==> AllBelow(Elems(remove[..rmi]), s[si])
      decreases |s| - si + |remove| - rmi
    {
      WithoutStep(s, si, remove, rmi);
      if s[si] < remove[rmi] {
        InsertExact(ret, s[si]);
        ret := Insert(ret, s[si]);
        si := si + 1;
      } else {
        if s[si] == remove[rmi] {
          si := si + 1;
          rmi := rmi + 1;
        } else {
          rmi := rmi + 1;
        }
      }
    }
    assert rmi == |remove| ==> remove[..rmi] == remove;
    while si != |s|
      invariant si <= |s| && Sorted(ret)
      invariant Elems(ret) == Elems(s[..si]) - Elems(remove)
      invariant si < |s| ==> AllBelow(Elems(remove), s[si])
      decreases |s| - si
    {
      PassStep(s, si, Elems(remove));
      InsertExact(ret, s[si]);
      ret := Insert(ret, s[si]);
      si := si + 1;
    }
    assert s[..si] == s;
  }

  /** Stepping over s[i]: it joins the members passed, and what lies below it lies below the next one. */
  lemma PassStep(s: seq<nat>, i: nat, below: set<nat>)
    requires Sorted(s) && i < |s| && AllBelow(below, s[i])
    ensures Elems(s[..i + 1]) == Elems(s[..i]) + {s[i]} && s[i] !in below
    ensures i + 1 < |s| ==> AllBelow(below + {s[i]}, s[i + 1])
  {
    ElemsStep(s, i);
    if i + 1 < |s| {
      SortedStep(s, i);
      ElemsStep(s, i + 1);
    }
  }

  lemma WithoutStep(s: seq<nat>, si: nat, remove: seq<nat>, rmi: nat)
    requires Sorted(s) && Sorted(remove) && si < |s| && rmi < |remove|
    requires AllBelow(Elems(remove[..rmi]), s[si])
    ensures Elems(s[..si + 1]) == Elems(s[..si]) + {s[si]}
    ensures s[si] in Elems(remove) ==> s[si] >= remove[rmi]
    ensures s[si] == remove[rmi] ==> s[si] in Elems(remove)
    ensures si + 1 < |s| ==> AllBelow(Elems(remove[..rmi]), s[si + 1])
    ensures si + 1 < |s| && s[si] == remove[rmi] ==> AllBelow(Elems(remove[..rmi + 1]), s[si + 1])
    ensures s[si] > remove[rmi] ==> AllBelow(Elems(remove[..rmi + 1]), s[si])
  {
    PassStep(s, si, Elems(remove[..rmi]));
    ElemsStep(remove, rmi);
    SortedStep(remove, rmi);
  }
}
