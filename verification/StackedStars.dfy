/** Runs of stars and pluses: reading a postfix expression, only the first symbol of such a run is kept. */
module StackedStars {
  import opened Automata
  import opened Regex

  predicate IsStarred(e: Rex) {
    e.Star? || e.Plus?
  }

  /** The expression that is left when every star or plus on a star or plus is dropped. */
  function Squash(e: Rex): (s: Rex)
    ensures IsStarred(s) == IsStarred(e)
  {
    match e
    case Empty => Empty
    case Eps => Eps
    case Sym(k) => Sym(k)
    case Union(a, b) => Union(Squash(a), Squash(b))
    case Concat(a, b) => Concat(Squash(a), Squash(b))
    case Star(a) => if IsStarred(a) then Squash(a) else Star(Squash(a))
    case Plus(a) => if IsStarred(a) then Squash(a) else Plus(Squash(a))
  }

  /** No star stands directly on a plus that cannot be empty. */
  predicate StarsKept(e: Rex) {
    match e
    case Empty => true
    case Eps => true
    case Sym(_) => true
    case Union(a, b) => StarsKept(a) && StarsKept(b)
    case Concat(a, b) => StarsKept(a) && StarsKept(b)
    case Star(a) => StarsKept(a) && (a.Plus? ==> Nullable(a))
    case Plus(a) => StarsKept(a)
  }

  lemma {:induction false} CleanUnchanged(e: Rex)
    requires Clean(e)
    ensures Squash(e) == e && StarsKept(e)
  {
    match e
    case Empty =>
    case Eps =>
    case Sym(_) =>
    case Union(a, b) =>
      CleanUnchanged(a);
      CleanUnchanged(b);
    case Concat(a, b) =>
      CleanUnchanged(a);
      CleanUnchanged(b);
    case Star(a) => CleanUnchanged(a);
    case Plus(a) => CleanUnchanged(a);
  }

  lemma {:induction false} SquashWellFormed(e: Rex, k: nat)
    requires WellFormed(e, k)
    ensures WellFormed(Squash(e), k)
  {
    match e
    case Eps =>
    case Sym(_) =>
    case Union(a, b) =>
      SquashWellFormed(a, k);
      SquashWellFormed(b, k);
    case Concat(a, b) =>
      SquashWellFormed(a, k);
      SquashWellFormed(b, k);
    case Star(a) => SquashWellFormed(a, k);
    case Plus(a) => SquashWellFormed(a, k);
  }

  // ---- what dropping does to the language ----

  ghost predicate Included(e: Rex, f: Rex) {
    forall w: Word :: Matches(e, w) ==> Matches(f, w)
  }

  lemma {:induction false} StarIncluded(a: Rex, b: Rex, w: Word)
    requires Included(a, b) && Matches(Star(a), w)
    ensures Matches(Star(b), w)
    decreases |w|
  {
    if w != [] {
      var u, v := StarElim(a, w);
      StarIncluded(a, b, v);
      StarCons(b, u, v);
    }
  }

  lemma OperatorsIncluded(a: Rex, b: Rex, c: Rex, d: Rex)
    requires Included(a, b) && Included(c, d)
    ensures Included(Union(a, c), Union(b, d)) && Included(Concat(a, c), Concat(b, d))
    ensures Included(Star(a), Star(b)) && Included(Plus(a), Plus(b))
  {
    forall w: Word | Matches(Concat(a, c), w)
      ensures Matches(Concat(b, d), w)
    {
      var u, v := ConcatElim(a, c, w);
      ConcatIntro(b, d, u, v);
    }
    forall w: Word | Matches(Star(a), w)
      ensures Matches(Star(b), w)
    {
      StarIncluded(a, b, w);
    }
    forall w: Word | Matches(Plus(a), w)
      ensures Matches(Plus(b), w)
    {
      var u, v := PlusElim(a, w);
      PlusIntro(b, u, v);
    }
  }

  /** Rounds of a star or plus put together. */
  lemma {:induction false} RoundsJoin(a: Rex, w: Word)
    requires IsStarred(a) && Matches(Star(a), w) && w != []
    ensures Matches(a, w)
    decreases |w|
  {
    var u, v := StarElim(a, w);
    if v == [] {
      assert u + v == u;
    } else {
      RoundsJoin(a, v);
      var b := a.body;
      StarIsPlusOrEmpty(b, u);
      StarIsPlusOrEmpty(b, v);
      StarConcat(b, u, v);
      StarIsPlusOrEmpty(b, w);
    }
  }

  /** A plus on a star or plus changes nothing; a star only adds the empty word. */
  lemma StackedStar(a: Rex, w: Word)
    requires IsStarred(a)
    ensures Matches(Plus(a), w) <==> Matches(a, w)
    ensures Matches(Star(a), w) <==> Matches(a, w) || w == []
  {
    if Matches(a, w) {
      StarNil(a);
      PlusIntro(a, w, []);
      StarOne(a, w);
      assert w + [] == w;
    }
    if Matches(Plus(a), w) {
      StarIsPlusOrEmpty(a, w);
      if w == [] {
        var u, v := PlusElim(a, w);
        assert u == w;
      } else {
        RoundsJoin(a, w);
      }
    }
    if Matches(Star(a), w) && w != [] {
      RoundsJoin(a, w);
    }
  }

  /** Dropping loses words at most. */
  lemma {:induction false} SquashIncluded(e: Rex)
    ensures Included(Squash(e), e)
  {
    match e
    case Empty =>
    case Eps =>
    case Sym(_) =>
    case Union(a, b) =>
      SquashIncluded(a);
      SquashIncluded(b);
      OperatorsIncluded(Squash(a), a, Squash(b), b);
    case Concat(a, b) =>
      SquashIncluded(a);
      SquashIncluded(b);
      OperatorsIncluded(Squash(a), a, Squash(b), b);
    case Star(a) =>
      SquashIncluded(a);
      OperatorsIncluded(Squash(a), a, Squash(a), a);
      StackedIncluded(a);
    case Plus(a) =>
      SquashIncluded(a);
      OperatorsIncluded(Squash(a), a, Squash(a), a);
      StackedIncluded(a);
  }

  lemma StackedIncluded(a: Rex)
    ensures IsStarred(a) ==> Included(a, Star(a)) && Included(a, Plus(a)) && Included(Plus(a), a)
  {
    if IsStarred(a) {
      forall w: Word
        ensures Matches(Plus(a), w) <==> Matches(a, w)
        ensures Matches(a, w) ==> Matches(Star(a), w)
      {
        StackedStar(a, w);
      }
    }
  }

  /** Nothing is lost when no star stands on a plus that cannot be empty. */
  lemma {:induction false} KeptIncluded(e: Rex)
    requires StarsKept(e)
    ensures Included(e, Squash(e))
  {
    match e
    case Empty =>
    case Eps =>
    case Sym(_) =>
    case Union(a, b) =>
      KeptIncluded(a);
      KeptIncluded(b);
      OperatorsIncluded(a, Squash(a), b, Squash(b));
    case Concat(a, b) =>
      KeptIncluded(a);
      KeptIncluded(b);
      OperatorsIncluded(a, Squash(a), b, Squash(b));
    case Star(a) =>
      KeptIncluded(a);
      OperatorsIncluded(a, Squash(a), a, Squash(a));
      NullableExact(a);
      if IsStarred(a) {
        forall w: Word | Matches(e, w)
          ensures Matches(Squash(e), w)
        {
          StackedStar(a, w);
        }
      }
    case Plus(a) =>
      KeptIncluded(a);
      OperatorsIncluded(a, Squash(a), a, Squash(a));
      StackedIncluded(a);
  }

  lemma SquashKeepsLanguage(e: Rex)
    requires StarsKept(e)
    ensures SameLang(Squash(e), e)
  {
    SquashIncluded(e);
    KeptIncluded(e);
  }

  /** Dropping keeps the language of e and of all its parts. */
  ghost predicate SameEverywhere(e: Rex) {
    && SameLang(Squash(e), e)
    && match e
       case Empty => true
       case Eps => true
       case Sym(_) => true
       case Union(a, b) => SameEverywhere(a) && SameEverywhere(b)
       case Concat(a, b) => SameEverywhere(a) && SameEverywhere(b)
       case Star(a) => SameEverywhere(a)
       case Plus(a) => SameEverywhere(a)
  }

  /** The exact condition under which the dropped symbols are not missed. */
  lemma {:induction false} SameEverywhereExact(e: Rex)
    ensures SameEverywhere(e) <==> StarsKept(e)
  {
    if StarsKept(e) {
      SquashKeepsLanguage(e);
    }
    match e
    case Empty =>
    case Eps =>
    case Sym(_) =>
    case Union(a, b) =>
      SameEverywhereExact(a);
      SameEverywhereExact(b);
    case Concat(a, b) =>
      SameEverywhereExact(a);
      SameEverywhereExact(b);
    case Star(a) =>
      SameEverywhereExact(a);
      NullableExact(a);
      StarNil(a);
      if SameEverywhere(e) && a.Plus? {
        assert Matches(Squash(e), []) && SameLang(Squash(a), a);
      }
    case Plus(a) => SameEverywhereExact(a);
  }

  /** The star of a+* is lost: the empty word is missing. */
  lemma DroppedStar()
    ensures var e := Star(Plus(Sym(1)));
      !StarsKept(e) && Matches(e, []) && !Matches(Squash(e), [])
  {
    var e := Star(Plus(Sym(1)));
    StarNil(Plus(Sym(1)));
    assert Squash(e) == Plus(Sym(1));
    NullableExact(Plus(Sym(1)));
  }

  /** For e alone the condition is not necessary: here the lost empty word is there for another reason. */
  lemma NotMissed()
    ensures var e := Union(Star(Plus(Sym(1))), Eps);
            !StarsKept(e) && SameLang(Squash(e), e) && !SameEverywhere(e)
  {
    var p := Plus(Sym(1));
    var e := Union(Star(p), Eps);
    NullableExact(p);
    SameEverywhereExact(e);
    assert Squash(e) == Union(p, Eps);
    forall w: Word
      ensures Matches(Squash(e), w) <==> Matches(e, w)
    {
      StackedStar(p, w);
    }
  }
}
