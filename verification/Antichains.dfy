/** Antichains of game positions: pairs of a state of the one automaton and a set of states of the other,
    kept apart by the state, with a word that leads to acceptance. */
module Antichains {
  import opened Automata
  import opened OrderedSets

  /** A set of states and the word it was computed for. */
  datatype Entry = Entry(states: seq<nat>, word: Word)

  /** The positions of one state. */
  type Bucket = seq<Entry>

  ghost function Members(bucket: Bucket): set<Entry> {
    if bucket == [] then {} else {bucket[0]} + Members(bucket[1..])
  }

  ghost predicate Below(e: Entry, f: Entry) {
    Elems(e.states) <= Elems(f.states)
  }

  /** Neither below nor above any of the others. */
  ghost predicate Incomparable(e: Entry, others: set<Entry>) {
    forall f :: f in others ==> !Below(e, f) && !Below(f, e)
  }

  /** No entry lies below another one. */
  ghost predicate Antichain(bucket: Bucket) {
    bucket != [] ==> Incomparable(bucket[0], Members(bucket[1..])) && Antichain(bucket[1..])
  }

  ghost predicate NoDuplicates(bucket: Bucket) {
    bucket != [] ==> bucket[0] !in Members(bucket[1..]) && NoDuplicates(bucket[1..])
  }

  /** Among the members only equal ones are comparable. */
  ghost predicate Flat(members: set<Entry>) {
    forall e, f :: e in members && f in members && Below(e, f) ==> e == f
  }

  /** Some entry has all the states of s. */
  ghost predicate CoversSet(bucket: Bucket, s: set<nat>) {
    exists e :: e in Members(bucket) && s <= Elems(e.states)
  }

  ghost predicate Superseded(bucket: Bucket, x: Entry) {
    exists f :: f in Members(bucket) && Below(x, f)
  }

  lemma {:induction false} AntichainIff(bucket: Bucket)
    ensures Antichain(bucket) <==> NoDuplicates(bucket) && Flat(Members(bucket))
  {
    if bucket != [] {
      AntichainIff(bucket[1..]);
    }
  }

  lemma {:induction false} MembersConcat(s: Bucket, t: Bucket)
    ensures Members(s + t) == Members(s) + Members(t)
  {
    if s == [] {
      assert s + t == t;
    } else {
      assert (s + t)[0] == s[0] && (s + t)[1..] == s[1..] + t;
      MembersConcat(s[1..], t);
    }
  }

  /** Erase the first entry equal to e, if there is one. */
  function Erase(bucket: Bucket, e: Entry): Bucket {
    if bucket == [] then []
    else if bucket[0] == e then bucket[1..]
    else [bucket[0]] + Erase(bucket[1..], e)
  }

  lemma {:induction false} EraseExact(bucket: Bucket, e: Entry)
    requires NoDuplicates(bucket)
    ensures NoDuplicates(Erase(bucket, e)) && Members(Erase(bucket, e)) == Members(bucket) - {e}
  {
    if bucket != [] {
      if bucket[0] != e {
        EraseExact(bucket[1..], e);
        assert ([bucket[0]] + Erase(bucket[1..], e))[1..] == Erase(bucket[1..], e);
      }
    }
  }

  lemma {:induction false} AppendNew(bucket: Bucket, e: Entry)
    requires NoDuplicates(bucket) && e !in Members(bucket)
    ensures NoDuplicates(bucket + [e]) && Members(bucket + [e]) == Members(bucket) + {e}
  {
    if bucket == [] {
      assert bucket + [e] == [e];
    } else {
      AppendNew(bucket[1..], e);
      assert (bucket + [e])[1..] == bucket[1..] + [e] && (bucket + [e])[0] == bucket[0];
    }
  }

  /** Erasing entries that lie below a new one, and adding the new ones, covers what either covered. */
  lemma CoverAfterMerge(was: Bucket, more: set<Entry>, inserted: set<Entry>, now: Bucket)
    requires inserted <= more
    requires forall e :: e in Members(now) <==>
      (e in Members(was) && forall x :: x in inserted ==> !Below(e, x)) || e in inserted
    requires forall x :: x in more ==> x in inserted || exists e :: e in Members(was) && Below(x, e)
    ensures forall s :: CoversSet(now, s) <==> CoversSet(was, s) || exists x :: x in more && s <= Elems(x.states)
  {
    forall s: set<nat>
      ensures CoversSet(now, s) <==> CoversSet(was, s) || exists x :: x in more && s <= Elems(x.states)
    {
      if CoversSet(now, s) {
        var e :| e in Members(now) && s <= Elems(e.states);
        if e !in inserted {
          assert e in Members(was);
        }
      }
      if x :| x in more && s <= Elems(x.states) {
        if x in inserted {
          assert x in Members(now);
        } else {
          var e :| e in Members(was) && Below(x, e);
          assert s <= Elems(e.states);
        }
      }
      if CoversSet(was, s) {
        CoveredStays(was, inserted, now, s);
      }
    }
  }

  lemma CoveredStays(was: Bucket, inserted: set<Entry>, now: Bucket, s: set<nat>)
    requires CoversSet(was, s)
    requires forall e :: e in Members(was) && (forall x :: x in inserted ==> !Below(e, x)) ==> e in Members(now)
    requires forall x :: x in inserted ==> x in Members(now)
    ensures CoversSet(now, s)
  {
    var e :| e in Members(was) && s <= Elems(e.states);
    if x :| x in inserted && Below(e, x) {
      assert x in Members(now) && s <= Elems(x.states);
    } else {
      assert e in Members(now);
    }
  }

  lemma MembersStep(bucket: Bucket, i: nat)
    requires i < |bucket|
    ensures Members(bucket[..i + 1]) == Members(bucket[..i]) + {bucket[i]}
    ensures Members(bucket[..i + 1]) <= Members(bucket)
  {
    assert bucket[..i + 1] == bucket[..i] + [bucket[i]] && bucket == bucket[..i + 1] + bucket[i + 1..];
    MembersConcat(bucket[..i], [bucket[i]]);
    MembersConcat(bucket[..i + 1], bucket[i + 1..]);
  }

  lemma {:induction false} NoDuplicateAt(bucket: Bucket, i: nat)
    requires NoDuplicates(bucket) && i < |bucket|
    ensures bucket[i] !in Members(bucket[..i])
    decreases i
  {
    if i > 0 {
      NoDuplicateAt(bucket[1..], i - 1);
      assert bucket[..i][1..] == bucket[1..][..i - 1] && bucket[..i][0] == bucket[0];
      MembersStep(bucket[1..], i - 1);
    }
  }

  /** The entries of a list of positions that belong to state q. */
  ghost function EntriesOf(list: seq<(nat, Entry)>, q: nat): set<Entry> {
    if list == [] then {}
    else
      var last := list[|list| - 1];
      EntriesOf(list[..|list| - 1], q) + if last.0 == q then {last.1} else {}
  }

  lemma EntriesOfStep(list: seq<(nat, Entry)>, i: nat, q: nat)
    requires i < |list|
    ensures EntriesOf(list[..i + 1], q) == EntriesOf(list[..i], q) + if list[i].0 == q then {list[i].1} else {}
  {
    assert list[..i + 1][..i] == list[..i];
  }

  lemma EntriesOfAppend(list: seq<(nat, Entry)>, x: (nat, Entry), q: nat)
    ensures EntriesOf(list + [x], q) == EntriesOf(list, q) + if x.0 == q then {x.1} else {}
  {
    assert (list + [x])[..|list|] == list;
  }

  lemma {:induction false} EntriesOfConcat(l: seq<(nat, Entry)>, m: seq<(nat, Entry)>, q: nat)
    ensures EntriesOf(l + m, q) == EntriesOf(l, q) + EntriesOf(m, q)
    decreases |m|
  {
    if m == [] {
      assert l + m == l;
    } else {
      var k := |m| - 1;
      assert (l + m)[..|l + m| - 1] == l + m[..k] && (l + m)[|l + m| - 1] == m[k];
      EntriesOfConcat(l, m[..k], q);
    }
  }

  lemma {:induction false} EntriesElsewhere(list: seq<(nat, Entry)>, q: nat)
    requires forall i :: 0 <= i < |list| ==> list[i].0 != q
    ensures EntriesOf(list, q) == {}
  {
    if list != [] {
      EntriesElsewhere(list[..|list| - 1], q);
    }
  }

  lemma {:induction false} ErasePrefix(bucket: Bucket, e: Entry, i: nat)
    requires i <= |bucket| && e !in bucket[..i]
    ensures Erase(bucket, e) == bucket[..i] + Erase(bucket[i..], e)
    decreases i
  {
    if i == 0 {
      assert bucket[0..] == bucket;
    } else {
      assert bucket[..i][0] == bucket[0] && bucket[..i][1..] == bucket[1..][..i - 1];
      ErasePrefix(bucket[1..], e, i - 1);
      assert bucket[1..][i - 1..] == bucket[i..];
    }
  }

  method EraseFirst(bucket: Bucket, e: Entry) returns (r: Bucket)
    ensures r == Erase(bucket, e)
  {
    for i := 0 to |bucket|
      invariant e !in bucket[..i]
    {
      if bucket[i] == e {
        ErasePrefix(bucket, e, i);
        assert bucket[i..][1..] == bucket[i + 1..];
        return bucket[..i] + bucket[i + 1..];
      }
    }
    ErasePrefix(bucket, e, |bucket|);
    r := bucket;
  }

  /** Remove the listed positions. */
  method RemoveObsolete(att: seq<Bucket>, obsolete: seq<(nat, Entry)>) returns (r: seq<Bucket>)
    requires forall i :: 0 <= i < |obsolete| ==> obsolete[i].0 < |att|
    requires forall q :: 0 <= q < |att| ==> NoDuplicates(att[q])
    ensures |r| == |att|
    ensures forall q :: 0 <= q < |att| ==>
      NoDuplicates(r[q]) && Members(r[q]) == Members(att[q]) - EntriesOf(obsolete, q)
    ensures forall q :: 0 <= q < |att| && EntriesOf(obsolete, q) == {} ==> r[q] == att[q]
  {
    r := att;
    for i := 0 to |obsolete|
      invariant |r| == |att|
      invariant forall q :: 0 <= q < |att| ==>
        NoDuplicates(r[q]) && Members(r[q]) == Members(att[q]) - EntriesOf(obsolete[..i], q)
      invariant forall q :: 0 <= q < |att| && EntriesOf(obsolete[..i], q) == {} ==> r[q] == att[q]
    {
      var p, e := obsolete[i].0, obsolete[i].1;
      forall q: nat
        ensures EntriesOf(obsolete[..i + 1], q) == EntriesOf(obsolete[..i], q) + if p == q then {e} else {}
      {
        EntriesOfStep(obsolete, i, q);
      }
      EraseExact(r[p], e);
      var bucket := EraseFirst(r[p], e);
      r := r[p := bucket];
    }
    assert obsolete[..|obsolete|] == obsolete;
  }

  /** Nothing of the bucket lies below g when something else lies above it. */
  ghost predicate Between(bucket: Bucket, g: Entry) {
    forall e, f :: e in Members(bucket) && f in Members(bucket) && Below(e, g) && Below(g, f) ==> e == f
  }

  /** An entry above g leaves nothing below g. */
  lemma NothingObsolete(bucket: Bucket, g: Entry, p: nat, k: nat, obsolete: seq<(nat, Entry)>)
    requires Between(bucket, g) && k < |bucket| && Below(g, bucket[k])
    requires forall e :: e in Members(bucket[..k]) ==> !Below(g, e)
    requires EntriesOf(obsolete, p) == set e | e in Members(bucket[..k]) && Below(e, g)
    requires forall i :: 0 <= i < |obsolete| ==> obsolete[i].0 == p
    ensures obsolete == []
  {
    MembersStep(bucket, k);
    assert EntriesOf(obsolete, p) == {};
  }

  /** The first k entries do not stand in the way of g, and obsolete lists those of them that g includes. */
  ghost predicate Compared(bucket: Bucket, k: nat, g: Entry, p: nat, obsolete: seq<(nat, Entry)>)
    requires k <= |bucket|
  {
    && (forall e :: e in Members(bucket[..k]) ==> !Below(g, e))
    && EntriesOf(obsolete, p) == (set e | e in Members(bucket[..k]) && Below(e, g))
    && (forall i :: 0 <= i < |obsolete| ==> obsolete[i].0 == p)
  }

  lemma ComparedStep(bucket: Bucket, k: nat, g: Entry, p: nat, obsolete: seq<(nat, Entry)>)
    requires k < |bucket| && Compared(bucket, k, g, p, obsolete) && !Below(g, bucket[k])
    ensures Compared(bucket, k + 1, g, p, if Below(bucket[k], g) then obsolete + [(p, bucket[k])] else obsolete)
  {
    hide Members, EntriesOf, Below;
    MembersStep(bucket, k);
    EntriesOfAppend(obsolete, (p, bucket[k]), p);
  }

  /** Which entries of a bucket stand in the way of g, and which g makes obsolete. */
  method Compare(bucket: Bucket, g: Entry, p: nat) returns (superseded: bool, obsolete: seq<(nat, Entry)>)
    requires Between(bucket, g) && Sorted(g.states) && (forall e :: e in Members(bucket) ==> Sorted(e.states))
    ensures superseded <==> Superseded(bucket, g)
    ensures superseded ==> obsolete == []
    ensures !superseded ==> EntriesOf(obsolete, p) == set e | e in Members(bucket) && Below(e, g)
    ensures forall i :: 0 <= i < |obsolete| ==> obsolete[i].0 == p
  {
    superseded, obsolete := false, [];
    var k := 0;
    assert Compared(bucket, 0, g, p, obsolete) && bucket[..|bucket|] == bucket;
    hide Members, EntriesOf;
    while k < |bucket|
      invariant k <= |bucket| && Compared(bucket, k, g, p, obsolete) && !superseded
    {
      MembersStep(bucket, k);
      var above := SetIncludes(bucket[k].states, g.states);
      if above {
        superseded := true;
        NothingObsolete(bucket, g, p, k, obsolete);
        break;
      }
      var below := SetIncludes(g.states, bucket[k].states);
      ComparedStep(bucket, k, g, p, obsolete);
      if below {
        obsolete := obsolete + [(p, bucket[k])];
      }
      k := k + 1;
    }
  }
}
