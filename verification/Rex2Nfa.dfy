/** From a postfix expression to a nondeterministic automaton, after Berry and Sethi: the expression that follows
    is kept in prefix form on a tape that is written downwards and read upwards. */
module Rex2Nfa {
  import opened Automata
  import opened Regex
  import opened Postfix
  import opened MarkedExpressions
  import opened FollowAutomata
  import opened StackedStars
  import opened ExpressionTapes
  import opened PostfixReader

  /** The arrays that together hold one tape. */
  class Tape {
    ghost const lab: seq<nat>
    const prerex: array<char>
    const rposch: array<nat>
    const rposlt: array<nat>
    const skipval: array<nat>
    ghost var signs: seq<Sign>

    ghost function Arrays(): set<object> {
      {this, prerex, rposch, rposlt, skipval}
    }

    /** The cell of the arrays shows the sign s. */
    ghost predicate Shows(s: Sign, c: char, k: nat, a: nat, to: nat) {
      match s
      case Op(d) => c == d && c != 'a' && c != SKIP
      case Pos(i) => c == 'a' && k == i && a == LetterOf(lab, i)
      case Jump(j) => c == SKIP && to == j
    }

    ghost predicate Valid()
      reads this, prerex, rposch, rposlt, skipval
    {
      && |signs| == prerex.Length == rposch.Length == rposlt.Length == skipval.Length
      && rposch != rposlt && rposch != skipval && rposlt != skipval
      && forall i :: 0 <= i < |signs| ==> Shows(signs[i], prerex[i], rposch[i], rposlt[i], skipval[i])
    }

    constructor (n: nat, ghost lab: seq<nat>)
      ensures Valid() && |signs| == n && this.lab == lab && fresh(Arrays())
    {
      this.lab := lab;
      prerex := new char[n](_ => '\0');
      rposch := new nat[n](_ => 0);
      rposlt := new nat[n](_ => 0);
      skipval := new nat[n](_ => 0);
      signs := seq(n, _ => Op('\0'));
    }

    method Write(i: nat, c: char)
      requires Valid() && i < |signs| && c != 'a' && c != SKIP
      modifies this, prerex
      ensures Valid() && signs == old(signs)[i := Op(c)]
    {
      prerex[i] := c;
      signs := signs[i := Op(c)];
    }

    method WriteJump(i: nat, to: nat)
      requires Valid() && i < |signs|
      modifies this, prerex, skipval
      ensures Valid() && signs == old(signs)[i := Jump(to)]
    {
      prerex[i] := SKIP;
      skipval[i] := to;
      signs := signs[i := Jump(to)];
    }

    method WriteLetter(i: nat, k: nat, a: nat)
      requires Valid() && i < |signs| && a == LetterOf(lab, k)
      modifies this, prerex, rposch, rposlt
      ensures Valid() && signs == old(signs)[i := Pos(k)]
    {
      prerex[i] := 'a';
      rposlt[i] := a;
      rposch[i] := k;
      signs := signs[i := Pos(k)];
    }

    function Char(i: nat): (c: char)
      requires Valid() && i < |signs|
      reads this, prerex, rposch, rposlt, skipval
      ensures c == 'a' <==> signs[i].Pos?
      ensures c == SKIP <==> signs[i].Jump?
      ensures c != 'a' && c != SKIP ==> signs[i] == Op(c)
    {
      prerex[i]
    }

    function State(i: nat): (k: nat)
      requires Valid() && i < |signs| && signs[i].Pos?
      reads this, prerex, rposch, rposlt, skipval
      ensures signs[i] == Pos(k)
    {
      rposch[i]
    }

    function Letter(i: nat): (a: nat)
      requires Valid() && i < |signs| && signs[i].Pos?
      reads this, prerex, rposch, rposlt, skipval
      ensures a == LetterOf(lab, signs[i].k)
    {
      rposlt[i]
    }

    function Target(i: nat): (to: nat)
      requires Valid() && i < |signs| && signs[i].Jump?
      reads this, prerex, rposch, rposlt, skipval
      ensures signs[i] == Jump(to)
    {
      skipval[i]
    }
  }

  /** The positions of e are below n. */
  ghost predicate Below(e: Rex, n: nat) {
    forall k :: k in Positions(e) ==> k < n
  }

  lemma BelowParts(e: Rex, n: nat)
    requires Below(e, n)
    ensures match e
      case Sym(k) => k < n
      case Union(a, b) => Below(a, n) && Below(b, n)
      case Concat(a, b) => Below(a, n) && Below(b, n)
      case Star(a) => Below(a, n)
      case Plus(a) => Below(a, n)
      case _ => true
  {
    match e
    case Sym(k) => assert k in Positions(e);
    case Union(a, b) => assert forall k :: k in Positions(a) || k in Positions(b) ==> k in Positions(e);
    case Concat(a, b) => assert forall k :: k in Positions(a) || k in Positions(b) ==> k in Positions(e);
    case Star(a) => assert Positions(e) == Positions(a);
    case Plus(a) => assert Positions(e) == Positions(a);
    case _ =>
  }

  class Translator {
    const rex: string
    const posch: seq<nat>
    const poslt: seq<nat>
    ghost const lab: seq<nat>
    const tape: Tape
    const infin: array<bool>
    var delta: set<(nat, nat, nat)>
    var constate: nat
    var lastrex: int
    var lastprerex: nat
    var firstprerex: nat
    var getrex: int
    var getprerex: nat
    var ffrex: int
    var ffprerex: nat

    ghost predicate Valid()
      reads tape.Arrays()
    {
      && |rex| == |posch| == |poslt| && tape.lab == lab && tape.Valid()
      && (forall i :: 0 <= i < |rex| && rex[i] == 'a' ==> poslt[i] == LetterOf(lab, posch[i]))
    }

    ghost function PostCode(): seq<Sign>
      requires |rex| == |posch|
    {
      Code(rex, posch)
    }

    constructor (rex: string, posch: seq<nat>, poslt: seq<nat>, ghost lab: seq<nat>, prerexlen: nat, states: nat)
      requires |rex| == |posch| == |poslt| && states > 0
      requires forall i :: 0 <= i < |rex| && rex[i] == 'a' ==> poslt[i] == LetterOf(lab, posch[i])
      ensures this.rex == rex && this.posch == posch && this.poslt == poslt && this.lab == lab
      ensures Valid() && fresh(tape.Arrays()) && |tape.signs| == prerexlen + 1 && delta == {}
      ensures fresh(infin) && infin.Length == states && forall k :: 0 <= k < states ==> !infin[k]
    {
      this.rex, this.posch, this.poslt, this.lab := rex, posch, poslt, lab;
      tape := new Tape(prerexlen + 1, lab);
      infin := new bool[states](_ => false);
      delta := {};
    }

    // ---- the last positions and the prefix form ----

    /** The new tape is the old one with the signs s written below index p. */
    ghost predicate WrittenBelow(t: seq<Sign>, t': seq<Sign>, p: int, s: seq<Sign>) {
      && |s| <= p <= |t| == |t'|
      && t'[p - |s|..p] == s
      && forall i :: 0 <= i < |t| && (i < p - |s| || p <= i) ==> t'[i] == t[i]
    }

    /** Copy an expression to the tape in prefix form and mark its last positions as final. */
    method CompLast(buf: bool, ghost e: Rex) returns (eps: bool)
      requires Valid() && EndsWith(PostCode(), lastrex, e) && Size(e) <= lastprerex <= |tape.signs|
      requires Below(e, infin.Length)
      modifies this`lastrex, this`lastprerex, tape.Arrays(), infin
      ensures Valid() && lastrex == old(lastrex) - Size(e) && lastprerex == old(lastprerex) - Size(e)
      ensures |tape.signs| == |old(tape.signs)|
      ensures WrittenBelow(old(tape.signs), tape.signs, old(lastprerex), Pre(e))
      ensures forall k :: 0 <= k < infin.Length ==> infin[k] == (old(infin[k]) || (buf && k in Last(e)))
      ensures eps == Nullable(e)
      decreases Size(e), 1
    {
      hide Tape.Valid, Code, EndsWith, Below, WrittenBelow;
      TopSign(rex, posch, lastrex, e);
      BelowParts(e, infin.Length);
      var op := rex[lastrex];
      if op == 'U' || op == '.' {
        eps := CompLastBinary(buf, e);
      } else if op == '+' || op == '*' {
        eps := CompLastUnary(buf, e);
      } else {
        eps := CompLastLeaf(buf, e);
      }
    }

    method CompLastLeaf(buf: bool, ghost e: Rex) returns (eps: bool)
      requires Valid() && EndsWith(PostCode(), lastrex, e) && Size(e) <= lastprerex <= |tape.signs|
      requires e.Empty? || e.Eps? || e.Sym?
      requires Below(e, infin.Length)
      modifies this`lastrex, this`lastprerex, tape.Arrays(), infin
      ensures Valid() && lastrex == old(lastrex) - Size(e) && lastprerex == old(lastprerex) - Size(e)
      ensures |tape.signs| == |old(tape.signs)|
      ensures WrittenBelow(old(tape.signs), tape.signs, old(lastprerex), Pre(e))
      ensures forall k :: 0 <= k < infin.Length ==> infin[k] == (old(infin[k]) || (buf && k in Last(e)))
      ensures eps == Nullable(e)
    {
      hide Tape.Valid, Code, EndsWith, Below;
      TopSign(rex, posch, lastrex, e);
      BelowParts(e, infin.Length);
      var op := rex[lastrex];
      lastrex := lastrex - 1;
      lastprerex := lastprerex - 1;
      if op == 'a' {
        if buf {
          infin[posch[lastrex + 1]] := true;
        }
        tape.WriteLetter(lastprerex, posch[lastrex + 1], poslt[lastrex + 1]);
        eps := false;
      } else {
        tape.Write(lastprerex, op);
        eps := op == '@';
      }
    }

    method CompLastUnary(buf: bool, ghost e: Rex) returns (eps: bool)
      requires Valid() && EndsWith(PostCode(), lastrex, e) && Size(e) <= lastprerex <= |tape.signs|
      requires IsStarred(e)
      requires Below(e, infin.Length)
      modifies this`lastrex, this`lastprerex, tape.Arrays(), infin
      ensures Valid() && lastrex == old(lastrex) - Size(e) && lastprerex == old(lastprerex) - Size(e)
      ensures |tape.signs| == |old(tape.signs)|
      ensures WrittenBelow(old(tape.signs), tape.signs, old(lastprerex), Pre(e))
      ensures forall k :: 0 <= k < infin.Length ==> infin[k] == (old(infin[k]) || (buf && k in Last(e)))
      ensures eps == Nullable(e)
      decreases Size(e), 0
    {
      hide Tape.Valid, Code, EndsWith, Below, WrittenBelow;
      TopSign(rex, posch, lastrex, e);
      BelowParts(e, infin.Length);
      EndsWithUnary(PostCode(), lastrex, e);
      var op := rex[lastrex];
      lastrex := lastrex - 1;
      ghost var t, p := tape.signs, lastprerex;
      eps := CompLast(buf, e.body);
      ghost var t' := tape.signs;
      WrittenUnary(t, t', p, e);
      lastprerex := lastprerex - 1;
      tape.Write(lastprerex, op);
      if op == '*' {
        eps := true;
      }
    }

    method CompLastBinary(buf: bool, ghost e: Rex) returns (eps: bool)
      requires Valid() && EndsWith(PostCode(), lastrex, e) && Size(e) <= lastprerex <= |tape.signs|
      requires e.Union? || e.Concat?
      requires Below(e, infin.Length)
      modifies this`lastrex, this`lastprerex, tape.Arrays(), infin
      ensures Valid() && lastrex == old(lastrex) - Size(e) && lastprerex == old(lastprerex) - Size(e)
      ensures |tape.signs| == |old(tape.signs)|
      ensures WrittenBelow(old(tape.signs), tape.signs, old(lastprerex), Pre(e))
      ensures forall k :: 0 <= k < infin.Length ==> infin[k] == (old(infin[k]) || (buf && k in Last(e)))
      ensures eps == Nullable(e)
      decreases Size(e), 0
    {
      hide Tape.Valid, Code, EndsWith, Below, WrittenBelow, Pre, Size;
      PreFirst(e);
      TopSign(rex, posch, lastrex, e);
      BelowParts(e, infin.Length);
      EndsWithBinary(PostCode(), lastrex, e);
      var op := rex[lastrex];
      lastrex := lastrex - 1;
      ghost var t, p := tape.signs, lastprerex;
      var eps2 := CompLast(buf, e.right);
      ghost var t1 := tape.signs;
      var eps1 := CompLast(buf && (op == 'U' || eps2), e.left);
      ghost var t2 := tape.signs;
      WrittenBinary(t, t1, t2, p, e);
      lastprerex := lastprerex - 1;
      tape.Write(lastprerex, op);
      eps := if op == 'U' then eps1 || eps2 else eps2 && eps1;
    }

    lemma WrittenUnary(t: seq<Sign>, t': seq<Sign>, p: int, e: Rex)
      requires IsStarred(e) && Size(e) <= p && WrittenBelow(t, t', p, Pre(e.body))
      ensures |t| == |t'| && WrittenBelow(t, t'[p - Size(e) := Pre(e)[0]], p, Pre(e))
    {
    }

    lemma WrittenBinary(t: seq<Sign>, t1: seq<Sign>, t2: seq<Sign>, p: int, e: Rex)
      requires (e.Union? || e.Concat?) && Size(e) <= p && WrittenBelow(t, t1, p, Pre(e.right))
      requires WrittenBelow(t1, t2, p - Size(e.right), Pre(e.left))
      ensures |t| == |t2| && WrittenBelow(t, t2[p - Size(e) := Pre(e)[0]], p, Pre(e))
    {
      assert Pre(e) == [Pre(e)[0]] + Pre(e.left) + Pre(e.right);
      JoinWritten(t, t1, t2, p, Pre(e.left), Pre(e.right), Pre(e)[0]);
    }

    lemma JoinWritten(t: seq<Sign>, t1: seq<Sign>, t2: seq<Sign>, p: int, a: seq<Sign>, b: seq<Sign>, s: Sign)
      requires WrittenBelow(t, t1, p, b) && WrittenBelow(t1, t2, p - |b|, a) && |a| + |b| < p
      ensures WrittenBelow(t, t2[p - 1 - |a| - |b| := s], p, [s] + a + b)
    {
      var m, i := p - |b|, p - |b| - |a|;
      assert t2[m..p] == t1[m..p];
      assert t2[i..m] + t2[m..p] == t2[i..p];
      assert t2[i - 1 := s][i..p] == t2[i..p];
    }

    // ---- the first positions ----

    /** The transitions from state c to the first positions, part by part. */
    lemma FirstEdges(c: nat, e: Rex)
      ensures var x := Edges(lab, Cross({c}, First(e)));
        && (e.Empty? || e.Eps? ==> x == {})
        && (e.Sym? ==> x == {(LetterOf(lab, e.letter), c, e.letter)})
        && (e.Union? || (e.Concat? && Nullable(e.left)) ==>
          x == Edges(lab, Cross({c}, First(e.left))) + Edges(lab, Cross({c}, First(e.right))))
        && (e.Concat? && !Nullable(e.left) ==> x == Edges(lab, Cross({c}, First(e.left))))
        && (IsStarred(e) ==> x == Edges(lab, Cross({c}, First(e.body))))
    {
      if e.Sym? {
        assert Cross({c}, First(e)) == {(c, e.letter)};
      } else if e.Union? || (e.Concat? && Nullable(e.left)) {
        EdgesUnion(lab, Cross({c}, First(e.left)), Cross({c}, First(e.right)));
        assert Cross({c}, First(e)) == Cross({c}, First(e.left)) + Cross({c}, First(e.right));
      }
    }

    /** Read one expression from the tape and connect constate with its first positions. */
    method CompFirst(buf: bool, ghost e: Rex, ghost rest: seq<Sign>) returns (eps: bool)
      requires Valid() && Reads(tape.signs, firstprerex, e, rest)
      modifies this`firstprerex, this`delta
      ensures View(tape.signs, firstprerex) == rest && eps == Nullable(e)
      ensures delta == old(delta) + if buf then Edges(lab, Cross({constate}, First(e))) else {}
      decreases Size(e), |tape.signs| - firstprerex
    {
      hide Tape.Valid, View, Edges, Cross, First;
      FirstEdges(constate, e);
      ReadsHere(tape.signs, firstprerex, e, rest);
      PreFirst(e);
      var op := tape.Char(firstprerex);
      if op == SKIP {
        firstprerex := tape.Target(firstprerex);
        eps := CompFirst(buf, e, rest);
      } else if op == UNSKIP {
        firstprerex := firstprerex + 1;
        eps := CompFirst(buf, e, rest);
      } else {
        ReadsParts(tape.signs, firstprerex, e, rest);
        firstprerex := firstprerex + 1;
        if op == 'U' {
          var eps1 := CompFirst(buf, e.left, Pre(e.right) + rest);
          var eps2 := CompFirst(buf, e.right, rest);
          eps := eps1 || eps2;
        } else if op == '.' {
          eps := CompFirst(buf, e.left, Pre(e.right) + rest);
          if eps {
            eps := CompFirst(buf, e.right, rest);
          } else {
            var _ := CompFirst(false, e.right, rest);
          }
        } else if op == '+' {
          eps := CompFirst(buf, e.body, rest);
        } else if op == '*' {
          var _ := CompFirst(buf, e.body, rest);
          eps := true;
        } else if op == 'a' {
          if buf {
            var k := tape.State(firstprerex - 1);
            delta := delta + {(tape.Letter(firstprerex - 1), constate, k)};
          }
          eps := false;
        } else {
          eps := op == '@';
        }
      }
    }

    /** Copy an expression to the tape in prefix form. */
    method GetExpr(ghost e: Rex)
      requires Valid() && EndsWith(PostCode(), getrex, e) && Size(e) <= getprerex <= |tape.signs|
      modifies this`getrex, this`getprerex, tape.Arrays()
      ensures Valid() && getrex == old(getrex) - Size(e) && getprerex == old(getprerex) - Size(e)
      ensures |tape.signs| == |old(tape.signs)|
      ensures WrittenBelow(old(tape.signs), tape.signs, old(getprerex), Pre(e))
      decreases Size(e)
    {
      hide Tape.Valid, Code, EndsWith, WrittenBelow, Pre, Size;
      TopSign(rex, posch, getrex, e);
      var op := rex[getrex];
      ghost var t, p := tape.signs, getprerex;
      getrex := getrex - 1;
      if op == 'U' || op == '.' {
        EndsWithBinary(PostCode(), getrex + 1, e);
        GetExpr(e.right);
        ghost var t1 := tape.signs;
        GetExpr(e.left);
        WrittenBinary(t, t1, tape.signs, p, e);
        PreFirst(e);
        getprerex := getprerex - 1;
        tape.Write(getprerex, op);
      } else if op == '+' || op == '*' {
        EndsWithUnary(PostCode(), getrex + 1, e);
        GetExpr(e.body);
        WrittenUnary(t, tape.signs, p, e);
        PreFirst(e);
        getprerex := getprerex - 1;
        tape.Write(getprerex, op);
      } else {
        WrittenLeaf(t, p, e);
        getprerex := getprerex - 1;
        if op == 'a' {
          tape.WriteLetter(getprerex, posch[getrex + 1], poslt[getrex + 1]);
        } else {
          tape.Write(getprerex, op);
        }
      }
    }

    lemma WrittenLeaf(t: seq<Sign>, p: nat, e: Rex)
      requires Size(e) <= p <= |t| && (e.Empty? || e.Eps? || e.Sym?)
      ensures Size(e) == 1 && Pre(e)[0] == if e.Sym? then Pos(e.letter) else Op(if e.Eps? then '@' else '%')
      ensures WrittenBelow(t, t[p - 1 := Pre(e)[0]], p, Pre(e))
    {
    }

    // ---- the follow sets ----

    /** The transitions inside e, and those from its last positions to the positions in first. */
    ghost function Steps(e: Rex, first: set<nat>): set<(nat, nat, nat)> {
      Edges(lab, Follow(e) + Cross(Last(e), first))
    }

    lemma StepsSym(e: Rex, first: set<nat>)
      requires e.Sym?
      ensures Steps(e, first) == Edges(lab, Cross({e.letter}, first))
    {
    }

    lemma StepsUnion(e: Rex, first: set<nat>)
      requires e.Union?
      ensures Steps(e, first) == Steps(e.right, first) + Steps(e.left, first)
    {
    }

    lemma StepsConcat(e: Rex, g: Rex)
      requires e.Concat?
      ensures Steps(e, First(g)) == Steps(e.right, First(g)) + Steps(e.left, First(Concat(Merged(e.right), g)))
    {
      MergedSets(e.right);
    }

    lemma StepsStar(e: Rex, g: Rex)
      requires IsStarred(e)
      ensures Steps(e, First(g)) == Steps(Core(e), First(Union(Core(e), g)))
    {
      CoreSets(e);
    }

    /** The tape is unchanged from index p on. */
    ghost predicate SameFrom(t: seq<Sign>, t': seq<Sign>, p: int) {
      |t| == |t'| && forall i :: 0 <= i < |t| && p <= i ==> t[i] == t'[i]
    }

    /** What is read far enough up the tape does not change. */
    lemma ReadsFrame(t: seq<Sign>, t': seq<Sign>, p: int, f: nat, g: Rex, rest: seq<Sign>)
      requires SameFrom(t, t', p) && p <= f && Reads(t, f, g, rest)
      ensures Reads(t', f, g, rest)
    {
      ViewFrame(t, t', f);
    }

    /** Add the transitions inside e and those from its last positions to the first positions of g, which is
        read at index f; leave e on the tape. */
    method CompFF(f: nat, ghost e: Rex, ghost g: Rex, ghost rest: seq<Sign>)
      requires Valid() && EndsWith(PostCode(), ffrex, e) && Room(e) <= ffprerex <= f < |tape.signs|
      requires Reads(tape.signs, f, g, rest)
      modifies this`ffrex, this`ffprerex, this`constate, this`firstprerex, this`getrex, this`getprerex, this`delta
      modifies tape.Arrays()
      ensures Valid() && ffrex == old(ffrex) - Size(e) && ffprerex == old(ffprerex) - Used(e)
      ensures |tape.signs| == |old(tape.signs)| && SameFrom(old(tape.signs), tape.signs, old(ffprerex))
      ensures Holds(tape.signs, ffprerex, old(ffprerex), Merged(e))
      ensures delta == old(delta) + Steps(e, First(g))
      decreases Size(e), 1
    {
      hide Tape.Valid, Code, EndsWith, Reads, Holds, SameFrom, Steps, Room;
      TopSign(rex, posch, ffrex, e);
      RoomEnough(e);
      var ch := rex[ffrex];
      if ch == 'U' {
        FollowUnion(f, e, g, rest);
      } else if ch == '.' {
        FollowConcat(f, e, g, rest);
      } else if ch == '+' || ch == '*' {
        FollowStar(f, e, g, rest);
      } else {
        FollowLeaf(f, e, g, rest);
      }
    }

    method FollowLeaf(f: nat, ghost e: Rex, ghost g: Rex, ghost rest: seq<Sign>)
      requires Valid() && EndsWith(PostCode(), ffrex, e) && 0 < ffprerex <= f < |tape.signs|
      requires Reads(tape.signs, f, g, rest) && (e.Empty? || e.Eps? || e.Sym?)
      modifies this`ffrex, this`ffprerex, this`constate, this`firstprerex, this`delta
      modifies tape.Arrays()
      ensures Valid() && ffrex == old(ffrex) - Size(e) && ffprerex == old(ffprerex) - Used(e)
      ensures |tape.signs| == |old(tape.signs)| && SameFrom(old(tape.signs), tape.signs, old(ffprerex))
      ensures Holds(tape.signs, ffprerex, old(ffprerex), Merged(e))
      ensures delta == old(delta) + Steps(e, First(g))
    {
      hide Tape.Valid, Code, EndsWith, Reads, Holds, Edges;
      TopSign(rex, posch, ffrex, e);
      var ch := rex[ffrex];
      ffrex := ffrex - 1;
      if ch == 'a' {
        constate := posch[ffrex + 1];
        var conletter := poslt[ffrex + 1];
        firstprerex := f;
        var _ := CompFirst(true, g, rest);
        ffprerex := ffprerex - 1;
        tape.WriteLetter(ffprerex, constate, conletter);
        StepsSym(e, First(g));
      } else {
        ffprerex := ffprerex - 1;
        tape.Write(ffprerex, ch);
        NoEdges(e, First(g));
      }
      HoldsLeaf(tape.signs, ffprerex, e);
    }

    lemma NoEdges(e: Rex, first: set<nat>)
      requires e.Empty? || e.Eps?
      ensures Steps(e, first) == {}
    {
    }

    /** The first half of a union or concatenation: the right operand, with a jump to what follows behind it. */
    method FollowRight(f: nat, ghost e: Rex, ghost g: Rex, ghost rest: seq<Sign>) returns (skippos: nat)
      requires Valid() && EndsWith(PostCode(), ffrex, e) && Room(e) <= ffprerex <= f < |tape.signs|
      requires Reads(tape.signs, f, g, rest) && (e.Union? || e.Concat?)
      modifies this`ffrex, this`ffprerex, this`constate, this`firstprerex, this`getrex, this`getprerex, this`delta
      modifies tape.Arrays()
      ensures Valid() && ffrex == old(ffrex) - 1 - Size(e.right) && EndsWith(PostCode(), ffrex, e.left)
      ensures skippos == old(ffprerex) - 1 && ffprerex == skippos - Used(e.right)
      ensures |tape.signs| == |old(tape.signs)| && SameFrom(old(tape.signs), tape.signs, old(ffprerex))
      ensures tape.signs[skippos] == Jump(f) && Holds(tape.signs, ffprerex, skippos, Merged(e.right))
      ensures Reads(tape.signs, f, g, rest) && delta == old(delta) + Steps(e.right, First(g))
      decreases Size(e.right), 2
    {
      hide Tape.Valid, Code, EndsWith, Reads, Holds, SameFrom, Steps, Room, Used, Merged, Size, Core, HasStar, First,
        Pre;
      EndsWithBinary(PostCode(), ffrex, e);
      RoomEnough(e);
      ghost var p, t0 := ffprerex, tape.signs;
      ffrex := ffrex - 1;
      ffprerex := ffprerex - 1;
      tape.WriteJump(ffprerex, f);
      skippos := ffprerex;
      ghost var t1 := tape.signs;
      SameWrite(t0, t1, p);
      ReadsFrame(t0, t1, p, f, g, rest);
      CompFF(f, e.right, g, rest);
      SameJump(t0, t1, tape.signs, p);
      ReadsFrame(t1, tape.signs, p - 1, f, g, rest);
    }

    method FollowUnion(f: nat, ghost e: Rex, ghost g: Rex, ghost rest: seq<Sign>)
      requires Valid() && EndsWith(PostCode(), ffrex, e) && Room(e) <= ffprerex <= f < |tape.signs|
      requires Reads(tape.signs, f, g, rest) && e.Union?
      modifies this`ffrex, this`ffprerex, this`constate, this`firstprerex, this`getrex, this`getprerex, this`delta
      modifies tape.Arrays()
      ensures Valid() && ffrex == old(ffrex) - Size(e) && ffprerex == old(ffprerex) - Used(e)
      ensures |tape.signs| == |old(tape.signs)| && SameFrom(old(tape.signs), tape.signs, old(ffprerex))
      ensures Holds(tape.signs, ffprerex, old(ffprerex), Merged(e))
      ensures delta == old(delta) + Steps(e, First(g))
      decreases Size(e), 0
    {
      hide Tape.Valid, Code, EndsWith, Reads, Holds, SameFrom, Steps, Room, Used, Merged, Size, Core, HasStar, First,
        Pre;
      MergedShape(e);
      EndsWithBinary(PostCode(), ffrex, e);
      RoomEnough(e);
      RoomEnough(e.left);
      RoomEnough(e.right);
      StepsUnion(e, First(g));
      ghost var p, t0 := ffprerex, tape.signs;
      var skippos := FollowRight(f, e, g, rest);
      ghost var k, t2 := ffprerex, tape.signs;
      CompFF(f, e.left, g, rest);
      ghost var t3 := tape.signs;
      ffprerex := ffprerex - 1;
      tape.Write(ffprerex, 'U');
      tape.Write(skippos, UNSKIP);
      CloseUnion(t0, t2, t3, ffprerex, k, skippos, Merged(e));
    }

    method FollowConcat(f: nat, ghost e: Rex, ghost g: Rex, ghost rest: seq<Sign>)
      requires Valid() && EndsWith(PostCode(), ffrex, e) && Room(e) <= ffprerex <= f < |tape.signs|
      requires Reads(tape.signs, f, g, rest) && e.Concat?
      modifies this`ffrex, this`ffprerex, this`constate, this`firstprerex, this`getrex, this`getprerex, this`delta
      modifies tape.Arrays()
      ensures Valid() && ffrex == old(ffrex) - Size(e) && ffprerex == old(ffprerex) - Used(e)
      ensures |tape.signs| == |old(tape.signs)| && SameFrom(old(tape.signs), tape.signs, old(ffprerex))
      ensures Holds(tape.signs, ffprerex, old(ffprerex), Merged(e))
      ensures delta == old(delta) + Steps(e, First(g))
      decreases Size(e), 0
    {
      hide Tape.Valid, Code, EndsWith, Reads, Holds, SameFrom, Steps, Room, Used, Merged, Size, Core, HasStar, First,
        Pre;
      MergedShape(e);
      EndsWithBinary(PostCode(), ffrex, e);
      RoomEnough(e);
      RoomEnough(e.left);
      RoomEnough(e.right);
      StepsConcat(e, g);
      ghost var p, t0 := ffprerex, tape.signs;
      var skippos := FollowRight(f, e, g, rest);
      ghost var t2 := tape.signs;
      ffprerex := ffprerex - 1;
      tape.Write(ffprerex, '.');
      var oldffprerex := ffprerex;
      ghost var t3 := tape.signs;
      JumpReads(t2, ffprerex, skippos, f, Concat(Merged(e.right), g), rest);
      CompFF(ffprerex, e.left, Concat(Merged(e.right), g), rest);
      ghost var t4 := tape.signs;
      ffprerex := ffprerex - 1;
      tape.Write(ffprerex, '.');
      tape.Write(skippos, UNSKIP);
      tape.Write(oldffprerex, UNSKIP);
      CloseConcat(t0, t2, t4, ffprerex, oldffprerex, skippos, Merged(e));
    }

    /** The first half of a star or plus: the expression under it, copied as a union with what follows. */
    method CopyStar(f: nat, ghost e: Rex, ghost g: Rex, ghost rest: seq<Sign>) returns (ch: char, skippos: nat)
      requires Valid() && EndsWith(PostCode(), ffrex, e) && Room(e) <= ffprerex <= f < |tape.signs|
      requires Reads(tape.signs, f, g, rest) && IsStarred(e)
      modifies this`ffrex, this`ffprerex, this`getrex, this`getprerex, tape.Arrays()
      ensures Valid() && ffrex == old(ffrex) - Size(e) + Size(Core(e)) && EndsWith(PostCode(), ffrex, Core(e))
      ensures ch == if HasStar(e) then '*' else '+'
      ensures skippos == old(ffprerex) - 1 && ffprerex == skippos - Size(Core(e)) - 1
      ensures |tape.signs| == |old(tape.signs)| && SameFrom(old(tape.signs), tape.signs, old(ffprerex))
      ensures tape.signs[ffprerex + 1..skippos] == Pre(Core(e))
      ensures Reads(tape.signs, ffprerex, Union(Core(e), g), rest)
    {
      hide Tape.Valid, Code, EndsWith, Reads, Holds, SameFrom, Steps, Room, Used, Merged, Size, Core, HasStar, First,
        Pre, WrittenBelow;
      RoomEnough(e);
      ghost var t0, c := tape.signs, Core(e);
      ch := SkipStars(e);
      ffprerex := ffprerex - 1;
      tape.WriteJump(ffprerex, f);
      skippos := ffprerex;
      ghost var t1 := tape.signs;
      getrex := ffrex;
      getprerex := ffprerex;
      GetExpr(c);
      ghost var t2 := tape.signs;
      ffprerex := getprerex;
      ffprerex := ffprerex - 1;
      tape.Write(ffprerex, 'U');
      StarReads(t0, t1, t2, ffprerex, skippos, f, c, g, rest);
    }

    method FollowStar(f: nat, ghost e: Rex, ghost g: Rex, ghost rest: seq<Sign>)
      requires Valid() && EndsWith(PostCode(), ffrex, e) && Room(e) <= ffprerex <= f < |tape.signs|
      requires Reads(tape.signs, f, g, rest) && IsStarred(e)
      modifies this`ffrex, this`ffprerex, this`constate, this`firstprerex, this`getrex, this`getprerex, this`delta
      modifies tape.Arrays()
      ensures Valid() && ffrex == old(ffrex) - Size(e) && ffprerex == old(ffprerex) - Used(e)
      ensures |tape.signs| == |old(tape.signs)| && SameFrom(old(tape.signs), tape.signs, old(ffprerex))
      ensures Holds(tape.signs, ffprerex, old(ffprerex), Merged(e))
      ensures delta == old(delta) + Steps(e, First(g))
      decreases Size(e), 0
    {
      hide Tape.Valid, Code, EndsWith, Reads, Holds, SameFrom, Steps, Room, Used, Merged, Size, Core, HasStar, First,
        Pre, WrittenBelow;
      MergedShape(e);
      RoomEnough(e);
      StepsStar(e, g);
      ghost var t0, c := tape.signs, Core(e);
      var ch, skippos := CopyStar(f, e, g, rest);
      var oldffprerex := ffprerex;
      ghost var t3 := tape.signs;
      CompFF(ffprerex, c, Union(c, g), rest);
      ghost var t4 := tape.signs;
      ffprerex := oldffprerex;
      tape.Write(ffprerex, ch);
      tape.Write(skippos, UNSKIP);
      CloseStar(t0, t3, t4, ffprerex, skippos, Merged(e));
    }

    /** Pass over the run of stars and pluses on top of e; a star overwrites a plus. */
    method SkipStars(ghost e: Rex) returns (ch: char)
      requires Valid() && EndsWith(PostCode(), ffrex, e) && IsStarred(e)
      modifies this`ffrex
      ensures ffrex == old(ffrex) - Size(e) + Size(Core(e)) && EndsWith(PostCode(), ffrex, Core(e))
      ensures ch == if HasStar(e) then '*' else '+'
    {
      hide Tape.Valid, Code, EndsWith;
      ghost var cur := e.body;
      TopSign(rex, posch, ffrex, e);
      EndsWithUnary(PostCode(), ffrex, e);
      ch := rex[ffrex];
      ffrex := ffrex - 1;
      TopSign(rex, posch, ffrex, cur);
      while rex[ffrex] == '*' || rex[ffrex] == '+'
        invariant 0 <= ffrex < |rex| && EndsWith(PostCode(), ffrex, cur)
        invariant IsStarred(cur) <==> rex[ffrex] == '*' || rex[ffrex] == '+'
        invariant Core(cur) == Core(e) && ffrex - Size(cur) == old(ffrex) - Size(e)
        invariant ch == '*' || ch == '+'
        invariant HasStar(e) <==> ch == '*' || HasStar(cur)
        decreases cur
      {
        TopSign(rex, posch, ffrex, cur);
        EndsWithUnary(PostCode(), ffrex, cur);
        if rex[ffrex] == '*' {
          ch := '*';
        }
        ffrex := ffrex - 1;
        cur := cur.body;
        TopSign(rex, posch, ffrex, cur);
      }
    }

    // ---- lemmas on the tape between the steps ----

    lemma SameWrite(t: seq<Sign>, t': seq<Sign>, p: nat)
      requires 0 < p <= |t| == |t'| && t' == t[p - 1 := t'[p - 1]]
      ensures SameFrom(t, t', p)
    {
    }

    lemma SameJump(t0: seq<Sign>, t1: seq<Sign>, t2: seq<Sign>, p: nat)
      requires 0 < p <= |t0| && SameFrom(t0, t1, p) && SameFrom(t1, t2, p - 1)
      ensures SameFrom(t0, t2, p) && t2[p - 1] == t1[p - 1]
    {
    }

    /** A sign in front of the piece that ends with the jump at s. */
    lemma JumpReads(t: seq<Sign>, q: nat, s: nat, f: nat, m: Rex, rest: seq<Sign>)
      requires q < s < f && s < |t| && t[s] == Jump(f) && (m.Union? || m.Concat?)
      requires Holds(t, q + 1, s, m.left) && Reads(t, f, m.right, rest)
      ensures Reads(t[q := Op(if m.Union? then 'U' else '.')], q, m, rest)
    {
      var t' := t[q := Pre(m)[0]];
      HoldsFrame(t, t', q + 1, s, m.left);
      ViewFrame(t, t', f);
      ReadsJoined(t', q, s, f, m, rest);
    }

    lemma CloseUnion(t0: seq<Sign>, t2: seq<Sign>, t3: seq<Sign>, q: nat, k: nat, s: nat, m: Rex)
      requires m.Union? && q < k <= s < |t2| && SameFrom(t0, t2, s + 1) && SameFrom(t2, t3, k)
      requires Holds(t2, k, s, m.right) && Holds(t3, q + 1, k, m.left)
      ensures var t := t3[q := Op('U')][s := Op(UNSKIP)]; Holds(t, q, s + 1, m) && SameFrom(t0, t, s + 1)
    {
      var t := t3[q := Op('U')][s := Op(UNSKIP)];
      HoldsFrame(t3, t, q + 1, k, m.left);
      HoldsFrame(t2, t, k, s, m.right);
      HoldsNoise(t, k, s, m.right);
      HoldsJoined(t, q, k, s + 1, m);
    }

    lemma CloseConcat(t0: seq<Sign>, t2: seq<Sign>, t4: seq<Sign>, q: nat, k: nat, s: nat, m: Rex)
      requires m.Concat? && q < k < s < |t2| && SameFrom(t0, t2, s + 1) && SameFrom(t2[k := Op('.')], t4, k)
      requires Holds(t2, k + 1, s, m.right) && Holds(t4, q + 1, k, m.left)
      ensures var t := t4[q := Op('.')][s := Op(UNSKIP)][k := Op(UNSKIP)];
        Holds(t, q, s + 1, m) && SameFrom(t0, t, s + 1)
    {
      hide Strip, Plain;
      var t := t4[q := Op('.')][s := Op(UNSKIP)][k := Op(UNSKIP)];
      HoldsFrame(t4, t, q + 1, k, m.left);
      HoldsFrame(t2, t, k + 1, s, m.right);
      HoldsNoise(t, k + 1, s, m.right);
      HoldsNoise(t, k + 1, s + 1, m.right);
      HoldsJoined(t, q, k, s + 1, m);
    }

    /** The expression under the star, copied in front of the jump, is read as a union with what follows. */
    lemma StarReads(t0: seq<Sign>, t1: seq<Sign>, t2: seq<Sign>, q: nat, s: nat, f: nat, c: Rex, g: Rex,
                    rest: seq<Sign>)
      requires s < |t0| && t1 == t0[s := Jump(f)] && s < f && Reads(t0, f, g, rest)
      requires WrittenBelow(t1, t2, s, Pre(c)) && q == s - Size(c) - 1
      ensures |t2| == |t0| && SameFrom(t0, t2[q := Op('U')], s + 1) && t2[q := Op('U')][q + 1..s] == Pre(c)
      ensures Reads(t2[q := Op('U')], q, Union(c, g), rest)
    {
      hide View, Strip;
      ViewFrame(t0, t2, f);
      PrePlain(c);
      JumpReads(t2, q, s, f, Union(c, g), rest);
    }

    lemma CloseStar(t0: seq<Sign>, t3: seq<Sign>, t4: seq<Sign>, q: nat, s: nat, m: Rex)
      requires IsStarred(m) && q < s < |t3| && SameFrom(t0, t3, s + 1) && SameFrom(t3, t4, q)
      requires t3[q + 1..s] == Pre(m.body)
      ensures var t := t4[q := Pre(m)[0]][s := Op(UNSKIP)]; Holds(t, q, s + 1, m) && SameFrom(t0, t, s + 1)
    {
      hide Strip, Plain;
      var t := t4[q := Pre(m)[0]][s := Op(UNSKIP)];
      PrePlain(m.body);
      HoldsFrame(t3, t, q + 1, s, m.body);
      HoldsNoise(t, q + 1, s, m.body);
      HoldsJoined(t, q, s + 1, s + 1, m);
    }
  }

  // ---- the three steps together ----

  lemma ReadsWritten(t: seq<Sign>, m: Rex)
    requires Size(m) <= |t| && t[..Size(m)] == Pre(m)
    ensures Reads(t, 0, m, View(t, Size(m)))
  {
    PrePlain(m);
    assert t[0..Size(m)] == t[..Size(m)];
    ViewPlain(t, 0, Size(m));
  }

  lemma ReadsEpsilon(t: seq<Sign>, n: nat)
    requires |t| == n + 1 && t[n] == Op('@')
    ensures Reads(t, n, Eps, [])
  {
    assert View(t, n + 1) == [];
  }

  /** The final states with the prefix form, and the transitions of the initial state. */
  method Begin(t: Translator, ghost m: Rex)
    requires t.Valid() && t.PostCode() == Post(m) && Size(m) <= |t.tape.signs|
    requires t.delta == {} && t.infin.Length > 0 && Below(m, t.infin.Length) && 0 !in Positions(m)
    requires forall k :: 0 <= k < t.infin.Length ==> !t.infin[k]
    modifies t, t.infin, t.tape.Arrays()
    ensures t.Valid() && |t.tape.signs| == |old(t.tape.signs)|
    ensures forall k :: 0 <= k < t.infin.Length ==> t.infin[k] == if k == 0 then Nullable(m) else k in Last(m)
    ensures t.delta == Edges(t.lab, Cross({0}, First(m)))
  {
    hide Tape.Valid, Code, Edges, Reads, View, Last, First, Positions, Pre;
    var rexlen := |t.rex|;
    WholeCode(t.rex, t.posch, m);
    hide EndsWith;
    t.lastprerex := rexlen;
    t.lastrex := rexlen - 1;
    var eps := t.CompLast(true, m);
    t.infin[0] := eps;
    ReadsWritten(t.tape.signs, m);
    t.firstprerex := 0;
    t.constate := 0;
    var _ := t.CompFirst(true, m, View(t.tape.signs, Size(m)));
  }

  /** Run the three steps for the marked expression m. */
  method Translate(t: Translator, prerexlen: nat, ghost m: Rex)
    requires t.Valid() && t.PostCode() == Post(m) && |t.tape.signs| == prerexlen + 1 && Room(m) <= prerexlen
    requires t.delta == {} && t.infin.Length > 0 && Below(m, t.infin.Length) && 0 !in Positions(m)
    requires forall k :: 0 <= k < t.infin.Length ==> !t.infin[k]
    modifies t, t.infin, t.tape.Arrays()
    ensures forall k :: 0 <= k < t.infin.Length ==> t.infin[k] == if k == 0 then Nullable(m) else k in Last(m)
    ensures t.delta == Edges(t.lab, Cross({0}, First(m))) + t.Steps(m, {})
  {
    hide Tape.Valid, Code, Edges, Room, Reads, View, t.Steps, Last, Positions, Nullable;
    RoomSize(m);
    WholeCode(t.rex, t.posch, m);
    hide EndsWith;
    Begin(t, m);
    t.ffprerex := prerexlen;
    t.ffrex := |t.rex| - 1;
    t.tape.Write(prerexlen, '@');
    ReadsEpsilon(t.tape.signs, prerexlen);
    t.CompFF(prerexlen, m, Eps, []);
  }

  lemma WholeCode(rex: string, posch: seq<nat>, m: Rex)
    requires |rex| == |posch| && Code(rex, posch) == Post(m)
    ensures |rex| == Size(m) && EndsWith(Code(rex, posch), |rex| - 1, m)
  {
    var code := Code(rex, posch);
    assert code[0..|rex|] == code;
  }

  lemma RoomSize(m: Rex)
    ensures Size(m) <= Room(m)
  {
  }

  /** The automaton of the marked expression m that the reader has found. */
  method Assemble(r: Reader, letters: nat, ghost m: Rex, ghost lab: seq<nat>) returns (na: Nfa)
    requires |r.rex| == |r.posch| == |r.poslt| && Code(r.rex, r.posch) == Post(m)
    requires forall i :: 0 <= i < |r.rex| && r.rex[i] == 'a' ==> r.poslt[i] == LetterOf(lab, r.posch[i])
    requires r.length == Reserve(m) && r.concats == Concats(m) && Linear(m)
    requires WellFormed(Unmark(m, lab), letters) && forall k :: k in Positions(m) ==> 1 <= k <= r.stateno
    ensures IsFollowNfa(na, m, lab) && na.letters == letters && na.states == r.stateno + 1
  {
    hide Code, Translator.Valid, Edges, IsFollowNfa, Unmark;
    WholeCode(r.rex, r.posch, m);
    var prerexlen := |r.rex| + r.length + r.concats;
    var t := new Translator(r.rex, r.posch, r.poslt, lab, prerexlen, r.stateno + 1);
    Translate(t, prerexlen, m);
    var init := seq(r.stateno + 1, i => i == 0);
    na := Nfa(r.stateno + 1, letters, init, t.infin[..], t.delta);
    assert Follow(m) + Cross(Last(m), {}) == Follow(m);
    AssembledFollowNfa(na, m, lab);
  }

  /** The automaton for a postfix string, whose letters may be written in one character or with a number, and also
      both ways in one string. A run of stars and pluses counts as its first symbol; if no star stands on a plus that
      cannot be empty, the automaton accepts the language of the expression. */
  method Rex2Nfa(exprex: string, letters: nat) returns (na: Nfa)
    requires Fits(0, false, exprex) && WellFormed(Expression(exprex), letters)
    ensures na.Valid() && na.letters == letters
    ensures forall q :: 0 <= q < na.states ==> na.init[q] == (q == 0)
    ensures forall w :: na.Accepts(w) <==> Matches(Squash(Expression(exprex)), w)
    ensures StarsKept(Expression(exprex)) ==> forall w :: na.Accepts(w) <==> Matches(Expression(exprex), w)
  {
    var r := ReadPostfix(exprex);
    ghost var e := Expression(exprex);
    ghost var m, lab := r.p.stack[0], r.p.lab;
    ReadingDone(r.p, e, r.stateno);
    SquashWellFormed(e, letters);
    na := Assemble(r, letters, m, lab);
    forall w: Word
      ensures na.Accepts(w) <==> Matches(Squash(e), w)
    {
      FollowNfaExact(na, m, lab, w);
    }
    if StarsKept(e) {
      SquashKeepsLanguage(e);
    }
  }
}
