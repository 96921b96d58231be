/** The guess selection of Knuth's algorithm, as functions of the candidate
    set S (its members in increasing index order) and the guess history:
    the score of a guess, the fold that collects the best-scoring unused
    codes, and the tie-break that prefers a member of S. The scorer is the
    parameter `respond`, `respond(g, c)` being the response to guess `g`
    when the code is `c`; the solver passes `Gameplay.Feedback`. */
module Minimax {
  import opened Outcomes
  import opened Gameplay

  /** How many candidates would answer guess `g` with response `k`: one
      entry of the tally of responses. */
  function Hits(respond: (Pattern, Pattern) -> KeyPegs, g: Pattern, cands: seq<Pattern>, k: KeyPegs): (n: nat)
    ensures n <= |cands|
  {
    if cands == [] then 0
    else Hits(respond, g, cands[..|cands| - 1], k) + (if respond(g, cands[|cands| - 1]) == k then 1 else 0)
  }

  /** The largest tally entry among the responses of the candidates in `rest`. */
  function MaxHits(respond: (Pattern, Pattern) -> KeyPegs, g: Pattern, cands: seq<Pattern>, rest: seq<Pattern>): (h: nat)
    ensures h <= |cands|
    ensures forall c :: c in rest ==> Hits(respond, g, cands, respond(g, c)) <= h
    ensures rest != [] ==> exists c :: c in rest && Hits(respond, g, cands, respond(g, c)) == h
  {
    if rest == [] then 0
    else
      var here, later := Hits(respond, g, cands, respond(g, rest[0])), MaxHits(respond, g, cands, rest[1..]);
      if here >= later then here else later
  }

  /** The score of a guess: the number of candidates it is sure to
      eliminate, |S| minus its largest response class. */
  function GuessScore(respond: (Pattern, Pattern) -> KeyPegs, g: Pattern, cands: seq<Pattern>): (score: nat)
    requires cands != []
    ensures score < |cands|
  {
    HitsOfMember(respond, g, cands, cands[0]);
    |cands| - MaxHits(respond, g, cands, cands)
  }

  /** A candidate counts towards the class of its own response. */
  lemma {:induction false} HitsOfMember(respond: (Pattern, Pattern) -> KeyPegs, g: Pattern, cands: seq<Pattern>, c: Pattern)
    requires c in cands
    ensures Hits(respond, g, cands, respond(g, c)) >= 1
  {
    var last := |cands| - 1;
    if cands[last] != c {
      assert c in cands[..last] by {
        var i :| 0 <= i < |cands| && cands[i] == c;
        assert cands[..last][i] == c;
      }
      HitsOfMember(respond, g, cands[..last], c);
    }
  }

  /** A response that some candidate would give has a class of its own;
      one that none would give has none. */
  lemma {:induction false} HitsWitness(respond: (Pattern, Pattern) -> KeyPegs, g: Pattern, cands: seq<Pattern>, k: KeyPegs)
    requires Hits(respond, g, cands, k) > 0
    ensures exists c :: c in cands && respond(g, c) == k
  {
    var last := |cands| - 1;
    if respond(g, cands[last]) != k {
      HitsWitness(respond, g, cands[..last], k);
      var c :| c in cands[..last] && respond(g, c) == k;
      assert c in cands;
    }
  }

  /** The score is |S| minus the largest class over every response: no
      response is given by more candidates, and some response by exactly
      that many. */
  lemma GuessScoreIsWorstCase(respond: (Pattern, Pattern) -> KeyPegs, g: Pattern, cands: seq<Pattern>)
    requires cands != []
    ensures forall k :: Hits(respond, g, cands, k) <= |cands| - GuessScore(respond, g, cands)
    ensures exists c :: c in cands && Hits(respond, g, cands, respond(g, c)) == |cands| - GuessScore(respond, g, cands)
  {
    var h := MaxHits(respond, g, cands, cands);
    assert GuessScore(respond, g, cands) == |cands| - h;
    forall k | Hits(respond, g, cands, k) > 0
      ensures Hits(respond, g, cands, k) <= |cands| - GuessScore(respond, g, cands)
    {
      HitsWitness(respond, g, cands, k);
    }
  }

  /** One step of the fold: a better score restarts the list of leaders, an
      equal one joins it. */
  function Highest(respond: (Pattern, Pattern) -> KeyPegs, acc: (nat, seq<Pattern>), p: Pattern, cands: seq<Pattern>): (nat, seq<Pattern>)
    requires cands != []
  {
    var score := GuessScore(respond, p, cands);
    if score > acc.0 then (score, [p])
    else if score == acc.0 then (score, acc.1 + [p])
    else acc
  }

  /** The fold over the unused codes among the first `n` of `range()`. */
  function FoldBest(respond: (Pattern, Pattern) -> KeyPegs, cands: seq<Pattern>, guessed: seq<Pattern>, n: nat): (nat, seq<Pattern>)
    requires cands != [] && n <= Cardinality()
  {
    if n == 0 then (0, [])
    else
      var acc := FoldBest(respond, cands, guessed, n - 1);
      var p := Pattern(n - 1);
      if p in guessed then acc else Highest(respond, acc, p, cands)
  }

  /** The best guesses: every unused code with the highest score, in
      ascending order. S must not be empty. */
  function BestGuesses(respond: (Pattern, Pattern) -> KeyPegs, cands: seq<Pattern>, guessed: seq<Pattern>): (r: Result<seq<Pattern>>)
    ensures r.Ok? <==> cands != []
  {
    if cands == [] then Panic("assertion failed: self.s.len() > 0")
    else Ok(FoldBest(respond, cands, guessed, Cardinality()).1)
  }

  /** The index of the first element of `xs` at or after `from` that is a
      member of S. */
  function FindMember(xs: seq<Pattern>, cands: seq<Pattern>, from: nat): (r: Option<nat>)
    ensures r.Some? ==> from <= r.value < |xs| && xs[r.value] in cands
    ensures r.None? ==> forall j :: from <= j < |xs| ==> xs[j] !in cands
    decreases |xs| - from
  {
    if from >= |xs| then None
    else if xs[from] in cands then Some(from)
    else FindMember(xs, cands, from + 1)
  }

  /** The next guess: the first best guess that is a member of S, else the
      first best guess; indexing an empty list panics. */
  function NextGuess(respond: (Pattern, Pattern) -> KeyPegs, cands: seq<Pattern>, guessed: seq<Pattern>): (r: Result<Pattern>)
  {
    var best := BestGuesses(respond, cands, guessed);
    if best.Panic? then Panic(best.reason)
    else match FindMember(best.value, cands, 0)
      case Some(i) => Ok(best.value[i])
      case None =>
        if best.value == [] then Panic("index out of bounds: the len is 0 but the index is 0")
        else Ok(best.value[0])
  }

  // ---------------------------------------------------------------------
  // Properties

  /** What the fold has collected after the first `n` codes: the highest
      score `h` among the unused ones, and every unused one scoring `h`, in
      ascending order. */
  ghost predicate Collected(respond: (Pattern, Pattern) -> KeyPegs, cands: seq<Pattern>, guessed: seq<Pattern>, n: nat, acc: (nat, seq<Pattern>))
    requires cands != []
  {
    var (h, best) := acc;
    && (forall p :: p in best ==> p.ix < n && p !in guessed && GuessScore(respond, p, cands) == h)
    && (forall q: Pattern :: q.ix < n && q !in guessed ==> GuessScore(respond, q, cands) <= h)
    && (forall q: Pattern :: q.ix < n && q !in guessed && GuessScore(respond, q, cands) == h ==> q in best)
    && (forall i, j :: 0 <= i < j < |best| ==> best[i].ix < best[j].ix)
    && (h > 0 ==> best != [])
  }

  /** The fold keeps what it has collected, code after code. */
  lemma {:induction false} FoldInvariant(respond: (Pattern, Pattern) -> KeyPegs, cands: seq<Pattern>, guessed: seq<Pattern>, n: nat)
    requires cands != [] && n <= Cardinality()
    ensures Collected(respond, cands, guessed, n, FoldBest(respond, cands, guessed, n))
  {
    if n > 0 {
      FoldInvariant(respond, cands, guessed, n - 1);
      FoldStep(respond, cands, guessed, n - 1, FoldBest(respond, cands, guessed, n - 1));
    }
  }

  /** Folding in code `n` keeps what has been collected. */
  lemma FoldStep(respond: (Pattern, Pattern) -> KeyPegs, cands: seq<Pattern>, guessed: seq<Pattern>, n: nat, acc: (nat, seq<Pattern>))
    requires cands != [] && n < Cardinality() && Collected(respond, cands, guessed, n, acc)
    ensures Collected(respond, cands, guessed, n + 1,
      if Pattern(n) in guessed then acc else Highest(respond, acc, Pattern(n), cands))
  {
    var p := Pattern(n);
    var (h, best) := acc;
    assert forall q: Pattern :: q.ix < n + 1 ==> q.ix < n || q == p;
    if p !in guessed {
      var score := GuessScore(respond, p, cands);
      if score > h {
        assert Highest(respond, acc, p, cands) == (score, [p]);
      } else if score == h {
        assert Highest(respond, acc, p, cands) == (h, best + [p]);
      } else {
        assert Highest(respond, acc, p, cands) == acc;
      }
    }
  }

  /** `best_guesses` returns exactly the unused codes whose score is the
      highest among unused codes, in ascending order, and at least one
      when some code is unused. */
  lemma BestGuessesAreMaximal(respond: (Pattern, Pattern) -> KeyPegs, cands: seq<Pattern>, guessed: seq<Pattern>)
    requires cands != []
    ensures BestGuesses(respond, cands, guessed).Ok?
    ensures var best := BestGuesses(respond, cands, guessed).value;
      && (forall p :: p in best <==> Unused(p, guessed) && forall q :: Unused(q, guessed) ==> GuessScore(respond, q, cands) <= GuessScore(respond, p, cands))
      && (forall i, j :: 0 <= i < j < |best| ==> best[i].ix < best[j].ix)
      && ((exists q :: Unused(q, guessed)) ==> best != [])
  {
    FoldInvariant(respond, cands, guessed, Cardinality());
    var (h, best) := FoldBest(respond, cands, guessed, Cardinality());
    if h > 0 {
      var b := best[0];
      assert b in best;
    }
  }

  /** A code of the universe that has not been guessed. */
  predicate Unused(p: Pattern, guessed: seq<Pattern>)
  {
    p.ix < Cardinality() && p !in guessed
  }

  /** `next_guess` succeeds exactly when S is not empty and some code is
      unused; it is then a best guess, so it repeats no earlier guess, and
      it is the lowest best guess in S if there is one, else the lowest
      best guess. */
  lemma NextGuessChoice(respond: (Pattern, Pattern) -> KeyPegs, cands: seq<Pattern>, guessed: seq<Pattern>)
    ensures NextGuess(respond, cands, guessed).Ok? <==> cands != [] && exists q :: Unused(q, guessed)
    ensures NextGuess(respond, cands, guessed).Ok? ==>
      var g, best := NextGuess(respond, cands, guessed).value, BestGuesses(respond, cands, guessed).value;
      && g in best && Unused(g, guessed)
      && ((exists x :: x in best && x in cands) ==>
            g in cands && forall x :: x in best && x in cands ==> g.ix <= x.ix)
      && ((forall x :: x in best ==> x !in cands) ==>
            g == best[0] && forall x :: x in best ==> g.ix <= x.ix)
  {
    if cands != [] {
      BestGuessesAreMaximal(respond, cands, guessed);
      var best := BestGuesses(respond, cands, guessed).value;
      var found := FindMember(best, cands, 0);
      if found.Some? {
        FoundIsLowest(best, cands, found.value);
      } else if best != [] {
        HeadIsLowest(best);
      }
    }
  }

  /** The first member of S that `find` meets in an ascending list is the
      lowest one. */
  lemma FoundIsLowest(xs: seq<Pattern>, cands: seq<Pattern>, i: nat)
    requires FindMember(xs, cands, 0) == Some(i)
    requires forall a, b :: 0 <= a < b < |xs| ==> xs[a].ix < xs[b].ix
    ensures xs[i] in xs && xs[i] in cands
    ensures forall x :: x in xs && x in cands ==> xs[i].ix <= x.ix
  {
    forall x | x in xs && x in cands ensures xs[i].ix <= x.ix {
      var j :| 0 <= j < |xs| && xs[j] == x;
      if j < i {
        FindMemberIsFirst(xs, cands, 0, j);
      }
    }
  }

  /** The head of a non-empty ascending list is its lowest element. */
  lemma HeadIsLowest(xs: seq<Pattern>)
    requires xs != []
    requires forall a, b :: 0 <= a < b < |xs| ==> xs[a].ix < xs[b].ix
    ensures xs[0] in xs
    ensures forall x :: x in xs ==> xs[0].ix <= x.ix
  {
    forall x | x in xs ensures xs[0].ix <= x.ix {
      var j :| 0 <= j < |xs| && xs[j] == x;
    }
  }

  /** `find` returns the first member of S in the list. */
  lemma {:induction false} FindMemberIsFirst(xs: seq<Pattern>, cands: seq<Pattern>, from: nat, j: nat)
    requires FindMember(xs, cands, from).Some? && from <= j < FindMember(xs, cands, from).value
    ensures xs[j] !in cands
    decreases |xs| - from
  {
    if j > from {
      FindMemberIsFirst(xs, cands, from + 1, j);
    }
  }
}
