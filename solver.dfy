/** Knuth's five-guess codebreaker as a state machine: the candidate set S
    is a bit set over the 1296 code indices that is filtered in place, and
    the solver pushes each guess it makes onto its history. */
module Solving {
  import opened Outcomes
  import opened Gameplay
  import Minimax
  import KeyPegScoring

  /** The indices below `n` whose bit is set. */
  ghost function SetBits(bits: seq<bool>, n: nat): set<nat>
    requires n <= |bits|
  {
    set i | 0 <= i < n && bits[i]
  }

  /** The number of bits set below `n`. */
  function Popcount(bits: seq<bool>, n: nat): (c: nat)
    requires n <= |bits|
    ensures c == |SetBits(bits, n)|
  {
    if n == 0 then 0
    else
      assert SetBits(bits, n) == SetBits(bits, n - 1) + (if bits[n - 1] then {n - 1} else {});
      Popcount(bits, n - 1) + (if bits[n - 1] then 1 else 0)
  }

  /** `range().filter(contains)` over the first `n` indices: the patterns
      whose bit is set, in increasing index order. */
  function Selected(bits: seq<bool>, n: nat): (r: seq<Pattern>)
    requires n <= |bits| <= Cardinality()
    ensures forall p :: p in r <==> p.ix < n && bits[p.ix]
    ensures forall i, j :: 0 <= i < j < |r| ==> r[i].ix < r[j].ix
    ensures |r| == Popcount(bits, n)
  {
    if n == 0 then []
    else Selected(bits, n - 1) + (if bits[n - 1] then [Pattern(n - 1)] else [])
  }

  /** `after` keeps exactly the codes of `before` that would answer `guess`
      with `response` if they were the code. */
  ghost predicate SameResponse(before: set<nat>, after: set<nat>, guess: Pattern, response: KeyPegs)
  {
    forall i :: i in after <==> i in before && i < Cardinality() && Feedback(guess, Pattern(i)) == response
  }

  /** Filtering only removes codes. */
  lemma SameResponseShrinks(before: set<nat>, after: set<nat>, guess: Pattern, response: KeyPegs)
    requires SameResponse(before, after, guess, response)
    ensures after <= before
  {
  }

  /** A set of patterns, one bit per code index. */
  class PatternSet {
    const indexes: array<bool>
    ghost var Contents: set<nat>

    ghost predicate Valid()
      reads this, indexes
    {
      && indexes.Length == Cardinality()
      && (forall i :: i in Contents ==> i < indexes.Length)
      && (forall i :: 0 <= i < indexes.Length ==> (indexes[i] <==> i in Contents))
    }

    /** The set of all 1296 codes. */
    constructor All()
      ensures Valid() && fresh(indexes)
      ensures forall i: nat :: i in Contents <==> i < Cardinality()
      ensures Len() == Cardinality()
    {
      var all := new bool[Cardinality()](_ => true);
      indexes := all;
      Contents := set i | 0 <= i < all.Length && all[i];
      new;
      PopcountAll(indexes[..], indexes.Length);
    }

    /** The number of members. */
    function Len(): (n: nat)
      reads this, indexes
      requires Valid()
      ensures n == |Contents|
    {
      assert SetBits(indexes[..], indexes.Length) == Contents;
      Popcount(indexes[..], indexes.Length)
    }

    /** Whether `p` is a member; an index beyond the bits is not. */
    function Contains(p: Pattern): (b: bool)
      reads this, indexes
      requires Valid()
      ensures b <==> p.ix in Contents
    {
      p.ix < indexes.Length && indexes[p.ix]
    }

    /** The members in increasing index order, as `range().filter(contains)`
      yields them. */
    function Members(): (r: seq<Pattern>)
      reads this, indexes
      requires Valid()
      ensures forall p :: p in r <==> p.ix in Contents
      ensures forall i, j :: 0 <= i < j < |r| ==> r[i].ix < r[j].ix
      ensures |r| == Len()
    {
      Selected(indexes[..], indexes.Length)
    }

    /** Keep exactly the members that satisfy `pred`, clearing the bits of
        the others one index at a time. */
    method FilterWith(pred: Pattern -> bool)
      requires Valid()
      modifies this, indexes
      ensures Valid()
      ensures forall i :: i in Contents <==> i in old(Contents) && pred(Pattern(i))
      ensures Len() <= old(Len())
    {
      for ix := 0 to indexes.Length
        invariant Valid()
        invariant forall i :: i in Contents <==> i in old(Contents) && (i < ix ==> pred(Pattern(i)))
      {
        var p := Pattern(ix);
        if indexes[ix] && !pred(p) {
          indexes[ix] := false;
          Contents := Contents - {ix};
        }
      }
      SubsetCard(Contents, old(Contents));
    }

    /** Clear the bit of `p`, answering whether it was set. */
    method Remove(p: Pattern) returns (present: bool)
      requires Valid()
      modifies this, indexes
      ensures Valid()
      ensures present <==> p.ix in old(Contents)
      ensures Contents == old(Contents) - {p.ix}
      ensures forall i :: 0 <= i < indexes.Length && i != p.ix ==> indexes[i] == old(indexes[i])
    {
      if p.ix < indexes.Length {
        present := indexes[p.ix];
        indexes[p.ix] := false;
      } else {
        present := false;
      }
      Contents := Contents - {p.ix};
    }
  }

  /** All bits set: the count is the length. */
  lemma {:induction false} PopcountAll(bits: seq<bool>, n: nat)
    requires n <= |bits| && forall i :: 0 <= i < n ==> bits[i]
    ensures Popcount(bits, n) == n
  {
    if n > 0 {
      PopcountAll(bits, n - 1);
    }
  }

  lemma SubsetCard(a: set<nat>, b: set<nat>)
    requires a <= b
    ensures |a| <= |b|
  {
    assert b == a + (b - a);
  }

  /** The solver: a codemaker that answers guesses, the guesses made so
      far, and the candidate set S. */
  class Solver {
    const codemaker: Pattern -> KeyPegs
    var guessed: seq<Pattern>
    const s: PatternSet

    ghost predicate Valid()
      reads this, s, s.indexes
    {
      && s.Valid()
      && forall g :: g in guessed ==> g.ix < Cardinality()
    }

    /** Create the set S of 1296 possible codes, 1111, 1112, .., 6666. */
    static method PossibleCodes() returns (all: PatternSet)
      ensures fresh(all) && fresh(all.indexes)
      ensures all.Valid() && all.Len() == Cardinality()
      ensures forall i: nat :: i in all.Contents <==> i < Cardinality()
    {
      all := new PatternSet.All();
    }

    /** A solver that has guessed nothing yet and keeps every code. */
    constructor (codemaker: Pattern -> KeyPegs)
      ensures Valid() && fresh(s) && fresh(s.indexes)
      ensures this.codemaker == codemaker && guessed == []
      ensures forall i: nat :: i in s.Contents <==> i < Cardinality()
    {
      var all := PossibleCodes();
      this.codemaker := codemaker;
      s := all;
      guessed := [];
    }

    /** The opening guess 1122. */
    static function InitialGuess(): (g: Pattern)
      ensures g.ix < Cardinality() && Digits(g) == ['1', '1', '2', '2']
    {
      FromDigitsRoundTripAsWritten(['1', '1', '2', '2']);
      FromDigits(['1', '1', '2', '2']).value
    }

    /** The most recent guess; an empty history panics. */
    function LastGuess(): (r: Result<Pattern>)
      reads this
      ensures r.Ok? <==> guessed != []
      ensures r.Ok? ==> r.value == guessed[|guessed| - 1]
    {
      if guessed == [] then Panic("guesses starts with 1 and never shrinks")
      else Ok(guessed[|guessed| - 1])
    }

    /** Remove from S every code that would not give `response` if it were
        the code and the last guess were played. */
    method RetainSameResponse(response: KeyPegs) returns (outcome: Result<()>)
      requires Valid()
      modifies s, s.indexes
      ensures Valid()
      ensures outcome.Ok? <==> guessed != []
      ensures outcome.Panic? ==> s.Contents == old(s.Contents)
      ensures outcome.Ok? ==> SameResponse(old(s.Contents), s.Contents, guessed[|guessed| - 1], response)
    {
      var last := LastGuess();
      if last.Panic? {
        return Panic(last.reason);
      }
      var theGuess := last.value;
      s.FilterWith(p => Feedback(theGuess, p) == response);
      assert theGuess == guessed[|guessed| - 1];
      outcome := Ok(());
    }

    /** What one move did to this solver (see `Moved`). */
    twostate predicate Played(new r: Result<Option<Pattern>>)
      requires old(Valid()) && Valid()
      reads this, s, s.indexes
    {
      Moved(codemaker, old(guessed), guessed, old(s.Contents), s.Contents, s.Members(), r)
    }

    /** Play one move: `Some(guess)`, or `None` once the last guess won. */
    method Play() returns (r: Result<Option<Pattern>>)
      requires Valid()
      modifies this, s, s.indexes
      ensures Valid() && Played(r)
      ensures old(guessed) <= guessed && s.Contents <= old(s.Contents)
      ensures r.Ok? && r.value.Some? ==> r.value.value !in old(guessed)
      ensures old(guessed) == [] ==> r == Ok(Some(InitialGuess())) && guessed == [InitialGuess()] && s.Contents == old(s.Contents)
      ensures old(guessed) != [] && Win(codemaker(old(guessed)[|old(guessed)| - 1])) ==> r == Ok(None)
    {
      if guessed == [] {
        var guess := InitialGuess();
        guessed := guessed + [guess];
        r := Ok(Some(guess));
      } else {
        var prev := LastGuess().value;
        var response := codemaker(prev);
        if Win(response) {
          r := Ok(None);
        } else {
          r := Advance(response);
          SameResponseShrinks(old(s.Contents), s.Contents, prev, response);
        }
      }
    }

    /** A move after a response that is not a win: filter S by the
        response, then push the next guess. */
    method Advance(response: KeyPegs) returns (r: Result<Option<Pattern>>)
      requires Valid() && guessed != []
      modifies this, s, s.indexes
      ensures Valid()
      ensures SameResponse(old(s.Contents), s.Contents, old(guessed)[|old(guessed)| - 1], response)
      ensures match Minimax.NextGuess(Feedback, s.Members(), old(guessed))
        case Ok(g) => r == Ok(Some(g)) && guessed == old(guessed) + [g]
        case Panic(reason) => r == Panic(reason) && guessed == old(guessed)
      ensures r.Ok? ==> r.value.Some? && r.value.value !in old(guessed)
    {
      var _ := RetainSameResponse(response);
      var ng := NextGuess();
      if ng.Panic? {
        r := Panic(ng.reason);
      } else {
        guessed := guessed + [ng.value];
        r := Ok(Some(ng.value));
      }
    }

    /** The next guess from S and the history: it is found exactly when S
        is not empty and some code is unused, and it is then unused. */
    function NextGuess(): (r: Result<Pattern>)
      reads this, s, s.indexes
      requires Valid()
      ensures r.Ok? <==> s.Contents != {} && exists q :: Minimax.Unused(q, guessed)
      ensures r.Ok? ==> Minimax.Unused(r.value, guessed)
    {
      var cands := s.Members();
      Minimax.NextGuessChoice(Feedback, cands, guessed);
      assert cands != [] <==> s.Contents != {} by {
        if i :| i in s.Contents {
          assert Pattern(i) in cands;
        }
      }
      Minimax.NextGuess(Feedback, cands, guessed)
    }

    /** The iterator over the guesses: each step is one move. */
    method Next() returns (r: Result<Option<Pattern>>)
      requires Valid()
      modifies this, s, s.indexes
      ensures Valid() && Played(r)
    {
      r := Play();
    }

    /** The codemaker of this solver answers for `secret` (see `Honest`). */
    ghost predicate HonestFor(secret: Pattern)
      reads this, s
    {
      Honest(codemaker, secret, guessed, s.Contents)
    }

    /** Against a codemaker that answers for a fixed code, no move panics
        and the code is never filtered out of S. */
    twostate lemma HonestPlayNeverPanics(secret: Pattern, new r: Result<Option<Pattern>>)
      requires old(Valid()) && Valid() && old(HonestFor(secret)) && Played(r)
      ensures r.Ok? && HonestFor(secret)
    {
      HonestMoveNeverPanics(codemaker, secret, old(guessed), guessed, old(s.Contents), s.Contents, s.Members(), r);
    }
  }

  /** One move, from history `before` and candidate set `sBefore` to
      `after` and `sAfter`, with `members` the members of `sAfter` in
      ascending order. A fresh solver plays 1122 without asking the
      codemaker. Otherwise a winning response to the last guess ends the
      game with nothing changed; any other response filters S and the
      minimax choice becomes the next guess, pushed onto the history. */
  ghost predicate Moved(codemaker: Pattern -> KeyPegs, before: seq<Pattern>, after: seq<Pattern>,
                        sBefore: set<nat>, sAfter: set<nat>, members: seq<Pattern>, r: Result<Option<Pattern>>)
  {
    if before == [] then
      && r == Ok(Some(Solver.InitialGuess()))
      && after == [Solver.InitialGuess()]
      && sAfter == sBefore
    else
      var last := before[|before| - 1];
      var response := codemaker(last);
      if Win(response) then
        && r == Ok(None)
        && after == before
        && sAfter == sBefore
      else
        && SameResponse(sBefore, sAfter, last, response)
        && match Minimax.NextGuess(Feedback, members, before)
           case Ok(g) => r == Ok(Some(g)) && after == before + [g]
           case Panic(reason) => r == Panic(reason) && after == before
  }

  /** The codemaker scores every guess against `secret`, a code still in
      S that no guess before the last one was. */
  ghost predicate Honest(codemaker: Pattern -> KeyPegs, secret: Pattern, guessed: seq<Pattern>, contents: set<nat>)
  {
    && secret.ix < Cardinality()
    && (forall g :: codemaker(g) == Feedback(secret, g))
    && secret.ix in contents
    && forall i :: 0 <= i < |guessed| - 1 ==> guessed[i] != secret
  }

  /** Against an honest codemaker a move does not panic and the codemaker
      stays honest. */
  lemma HonestMoveNeverPanics(codemaker: Pattern -> KeyPegs, secret: Pattern, before: seq<Pattern>, after: seq<Pattern>,
                              sBefore: set<nat>, sAfter: set<nat>, members: seq<Pattern>, r: Result<Option<Pattern>>)
    requires Honest(codemaker, secret, before, sBefore)
    requires forall g :: g in before ==> g.ix < Cardinality()
    requires forall p :: p in members <==> p.ix in sAfter
    requires Moved(codemaker, before, after, sBefore, sAfter, members, r)
    ensures r.Ok? && Honest(codemaker, secret, after, sAfter)
  {
    if before != [] {
      var last := before[|before| - 1];
      var response := codemaker(last);
      assert response == Feedback(secret, last);
      if !Win(response) {
        WinIffSameCode(secret, last);
        NotGuessedYet(before, secret);
        SecretSurvives(sBefore, sAfter, last, secret);
        NextGuessSucceeds(members, before, secret);
      }
    }
  }

  /** A code that differs from the last guess and from every earlier one
      has not been guessed. */
  lemma NotGuessedYet(guessed: seq<Pattern>, secret: Pattern)
    requires guessed != [] && guessed[|guessed| - 1] != secret
    requires forall i :: 0 <= i < |guessed| - 1 ==> guessed[i] != secret
    ensures secret !in guessed
  {
  }

  /** Filtering S by the response the secret gives keeps the secret. */
  lemma SecretSurvives(before: set<nat>, after: set<nat>, last: Pattern, secret: Pattern)
    requires SameResponse(before, after, last, Feedback(secret, last))
    requires secret.ix in before && secret.ix < Cardinality()
    ensures secret.ix in after
  {
    FeedbackSymmetric(last, secret);
    assert secret == Pattern(secret.ix);
  }

  /** While an unguessed code remains in S, the next guess is found. */
  lemma NextGuessSucceeds(cands: seq<Pattern>, guessed: seq<Pattern>, secret: Pattern)
    requires secret in cands && secret.ix < Cardinality() && secret !in guessed
    ensures Minimax.NextGuess(Feedback, cands, guessed).Ok?
  {
    assert Minimax.Unused(secret, guessed);
    Minimax.NextGuessChoice(Feedback, cands, guessed);
  }

  /** The second documented game: code 1123 answers the opening 1122 with
      three blacks and no white. */
  lemma HarderCodeResponse(code: Pattern)
    requires FromDigits(['1', '1', '2', '3']) == Ok(code)
    ensures Feedback(code, Solver.InitialGuess()) == WithBlacks(NewKeyPegs(), 3).value
  {
    var c := ['1', '1', '2', '3'];
    FromDigitsRoundTripAsWritten(c);
    HarderCodeCounts();
    FeedbackOfDigits(code, Solver.InitialGuess(), c, ['1', '1', '2', '2']);
  }

  /** 1123 and 1122 agree in three positions and share three colours. */
  lemma HarderCodeCounts()
    ensures KeyPegScoring.Exact(['1', '1', '2', '3'], ['1', '1', '2', '2']) == 3
    ensures KeyPegScoring.Common(['1', '1', '2', '3'], ['1', '1', '2', '2']) == 3
  {
    var code, guess := ['1', '1', '2', '3'], ['1', '1', '2', '2'];
    assert code[..3] == guess[..3] == ['1', '1', '2'];
    assert KeyPegScoring.Exact(['1'], ['1']) == 1;
    assert KeyPegScoring.Exact(['1', '1'], ['1', '1']) == 2;
    assert KeyPegScoring.Exact(['1', '1', '2'], ['1', '1', '2']) == 3;
    assert multiset(code) * multiset(guess) == multiset{'1', '1', '2'};
  }

  /** 5223 would answer 1122 with a single black, so filtering drops it. */
  lemma HarderCodeDrops(drop: Pattern)
    requires FromDigits(['5', '2', '2', '3']) == Ok(drop)
    ensures Feedback(Solver.InitialGuess(), drop).blacks == 1
  {
    var d := ['5', '2', '2', '3'];
    FromDigitsRoundTripAsWritten(d);
    HarderCodeDropCounts();
    FeedbackOfDigits(Solver.InitialGuess(), drop, ['1', '1', '2', '2'], d);
  }

  /** 1122 and 5223 agree in one position. */
  lemma HarderCodeDropCounts()
    ensures KeyPegScoring.Exact(['1', '1', '2', '2'], ['5', '2', '2', '3']) == 1
  {
    var guess, drop := ['1', '1', '2', '2'], ['5', '2', '2', '3'];
    assert guess[..3] == ['1', '1', '2'] && drop[..3] == ['5', '2', '2'];
    assert KeyPegScoring.Exact(['1'], ['5']) == 0;
    assert KeyPegScoring.Exact(['1', '1'], ['5', '2']) == 0;
    assert KeyPegScoring.Exact(['1', '1', '2'], ['5', '2', '2']) == 1;
  }

  /** 5122 would answer 1122 with three blacks, like code 1123, so filtering
      keeps it. */
  lemma HarderCodeKeeps(keep: Pattern)
    requires FromDigits(['5', '1', '2', '2']) == Ok(keep)
    ensures Feedback(Solver.InitialGuess(), keep) == WithBlacks(NewKeyPegs(), 3).value
  {
    var k := ['5', '1', '2', '2'];
    FromDigitsRoundTripAsWritten(k);
    HarderCodeKeepCounts();
    FeedbackOfDigits(Solver.InitialGuess(), keep, ['1', '1', '2', '2'], k);
  }

  /** 1122 and 5122 agree in three positions and share three colours. */
  lemma HarderCodeKeepCounts()
    ensures KeyPegScoring.Exact(['1', '1', '2', '2'], ['5', '1', '2', '2']) == 3
    ensures KeyPegScoring.Common(['1', '1', '2', '2'], ['5', '1', '2', '2']) == 3
  {
    var guess, keep := ['1', '1', '2', '2'], ['5', '1', '2', '2'];
    assert guess[..3] == ['1', '1', '2'] && keep[..3] == ['5', '1', '2'];
    assert KeyPegScoring.Exact(['1'], ['5']) == 0;
    assert KeyPegScoring.Exact(['1', '1'], ['5', '1']) == 1;
    assert KeyPegScoring.Exact(['1', '1', '2'], ['5', '1', '2']) == 2;
    assert multiset(guess) * multiset(keep) == multiset{'1', '2', '2'};
  }

  /** The first documented game: against code 1122 the opening guess wins
      and the next move reports that the game is over. */
  method EasyCodeExample()
  {
    var all := Solver.PossibleCodes();
    assert all.Len() == 1296;
    var code := FromDigits(['1', '1', '2', '2']).value;
    assert code == Solver.InitialGuess();
    FeedbackSelf(code);
    var breaker := new Solver((guess: Pattern) => Feedback(code, guess));
    var first := breaker.Play();
    assert first == Ok(Some(code)) && breaker.guessed == [code];
    var second := breaker.Play();
    assert second == Ok(None);
  }

  /** Two moves of a solver whose codemaker answers for `secret`: neither
      panics, and the secret is still in S afterwards. */
  method HonestGame(secret: Pattern) returns (first: Result<Option<Pattern>>, second: Result<Option<Pattern>>)
    requires secret.ix < Cardinality()
    ensures first.Ok? && second.Ok?
  {
    var breaker := new Solver((guess: Pattern) => Feedback(secret, guess));
    assert breaker.HonestFor(secret);
    label BeforeFirst:
    first := breaker.Play();
    breaker.HonestPlayNeverPanics@BeforeFirst(secret, first);
    label BeforeSecond:
    second := breaker.Play();
    breaker.HonestPlayNeverPanics@BeforeSecond(secret, second);
    assert secret.ix in breaker.s.Contents;
  }

  /** The second documented game, up to the first filtering of S. */
  method HarderCodeExample()
  {
    var code := FromDigits(['1', '1', '2', '3']).value;
    var breaker := new Solver((guess: Pattern) => Feedback(code, guess));
    var first := breaker.Play();
    assert first == Ok(Some(Solver.InitialGuess()));
    var guess1 := first.value.value;
    var response := Feedback(code, guess1);
    HarderCodeResponse(code);
    assert !Win(response);
    FilterByFirstResponse(breaker, guess1, response);
  }

  /** The rest of the second documented game: retaining the codes that
      answer 1122 as 1123 does drops 5223 and keeps 5122. */
  method FilterByFirstResponse(breaker: Solver, guess1: Pattern, response: KeyPegs)
    requires breaker.Valid() && breaker.guessed == [guess1]
    requires forall i: nat :: i in breaker.s.Contents <==> i < Cardinality()
    requires guess1 == Solver.InitialGuess() && response == WithBlacks(NewKeyPegs(), 3).value
    modifies breaker.s, breaker.s.indexes
  {
    ghost var all := breaker.s.Contents;
    var outcome := breaker.RetainSameResponse(response);
    assert outcome.Ok? && breaker.guessed == [guess1];
    ghost var after := breaker.s.Contents;
    assert SameResponse(all, after, guess1, response);
    var drop := FromDigits(['5', '2', '2', '3']).value;
    var keep := FromDigits(['5', '1', '2', '2']).value;
    HarderCodeFilter(all, after, guess1, response, drop, keep);
    assert !breaker.s.Contains(drop) && breaker.s.Contains(keep);
  }

  /** Filtering all codes by the response of 1123 to 1122 drops 5223 and
      keeps 5122. */
  lemma HarderCodeFilter(before: set<nat>, after: set<nat>, guess: Pattern, response: KeyPegs, drop: Pattern, keep: Pattern)
    requires forall i: nat :: i in before <==> i < Cardinality()
    requires guess == Solver.InitialGuess() && response == WithBlacks(NewKeyPegs(), 3).value
    requires SameResponse(before, after, guess, response)
    requires FromDigits(['5', '2', '2', '3']) == Ok(drop) && FromDigits(['5', '1', '2', '2']) == Ok(keep)
    ensures drop.ix !in after && keep.ix in after
  {
    HarderCodeDrops(drop);
    HarderCodeKeeps(keep);
    assert drop == Pattern(drop.ix) && keep == Pattern(keep.ix);
  }
}
