/** The older pattern representation: code pegs as an enumeration of six
    colours, a pattern as an index whose least significant base-6 digit is
    position 0, and key-peg feedback as a `Distance`. */
module PegPatterns {
  import opened Outcomes
  import opened Radix
  import KeyPegScoring

  /** The game is played using code pegs of six different colours. */
  datatype CodePeg = Red | Orn | Yel | Grn | Blu | Wht

  /** The codemaker chooses a pattern of four code pegs. */
  const Size: nat := 4

  /** Number of possible codes. */
  function Cardinality(): (n: nat)
    ensures n == 1296
  {
    Pow(Colors, Size)
  }

  /** A pattern is its lexical index. */
  datatype Pattern = Pattern(ix: nat)

  /** Black and white key-peg counts. */
  datatype Distance = Distance(blacks: nat, whites: nat)

  /** If the response is four coloured pegs, the game is won. */
  predicate Win(d: Distance)
  {
    d.blacks == Size
  }

  /** Construct a pattern from a lexical index; the assertion admits the
      index equal to the cardinality. */
  function Ith(lexIx: nat): (r: Result<Pattern>)
    ensures r.Ok? <==> lexIx <= Cardinality()
    ensures r.Ok? ==> r.value.ix == lexIx
  {
    if lexIx <= Cardinality() then Ok(Pattern(lexIx))
    else Panic("assertion failed: lex_ix <= Pattern::cardinality()")
  }

  /** `ith` restricted to the 1296 codes. */
  function IthChecked(lexIx: nat): (r: Result<Pattern>)
    ensures r.Ok? <==> lexIx < Cardinality()
    ensures r.Ok? ==> r.value.ix == lexIx && Ith(lexIx) == r
  {
    if lexIx < Cardinality() then Ok(Pattern(lexIx))
    else Panic("assertion failed: lex_ix < Pattern::cardinality()")
  }

  /** The digit of a colour, in declaration order. */
  function Encode(c: CodePeg): (d: nat)
    ensures d < Colors
  {
    match c
    case Red => 0
    case Orn => 1
    case Yel => 2
    case Grn => 3
    case Blu => 4
    case Wht => 5
  }

  /** The colour of a digit; any digit above 5 reaches the `panic!` arm. */
  function Decode(d: nat): (r: Result<CodePeg>)
    ensures r.Ok? <==> d < Colors
    ensures r.Ok? ==> Encode(r.value) == d
  {
    match d
    case 0 => Ok(Red)
    case 1 => Ok(Orn)
    case 2 => Ok(Yel)
    case 3 => Ok(Grn)
    case 4 => Ok(Blu)
    case 5 => Ok(Wht)
    case _ => Panic("ith % size() > 5")
  }

  /** Construct a pattern from code pegs, position 0 the least significant
      digit. */
  function New(pegs: seq<CodePeg>): (p: Pattern)
    requires |pegs| == Size
    ensures p.ix < Cardinality()
    ensures p.ix % Colors == Encode(pegs[0])
  {
    Pattern(Encode(pegs[0]) + Colors * (Encode(pegs[1]) + Colors * (Encode(pegs[2]) + Colors * Encode(pegs[3]))))
  }

  /** The code pegs of a pattern, position 0 from the least significant digit. */
  function PegsOf(p: Pattern): (pegs: seq<CodePeg>)
    ensures |pegs| == Size
    ensures forall pos :: 0 <= pos < Size ==> Encode(pegs[pos]) == Digit(p.ix, pos)
  {
    [Decode(Digit(p.ix, 0)).value, Decode(Digit(p.ix, 1)).value,
     Decode(Digit(p.ix, 2)).value, Decode(Digit(p.ix, 3)).value]
  }

  /** Decode a pattern into code pegs: take the remainder by 6, divide, and
      fill the positions from the first. The `panic!` arm is never taken. */
  method Pegs(p: Pattern) returns (pegs: seq<CodePeg>)
    ensures pegs == PegsOf(p)
  {
    var out := new CodePeg[Size](_ => Red);
    var ith := p.ix;
    for pos := 0 to Size
      invariant ith == Shift(p.ix, pos)
      invariant forall e :: 0 <= e < pos ==> Encode(out[e]) == Digit(p.ix, e)
    {
      var it := Decode(ith % Colors);
      ith := ith / Colors;
      out[pos] := it.value;
    }
    pegs := out[..];
    EncodeInjective(pegs, PegsOf(p));
  }

  lemma EncodeInjective(a: seq<CodePeg>, b: seq<CodePeg>)
    requires |a| == |b| && forall i :: 0 <= i < |a| ==> Encode(a[i]) == Encode(b[i])
    ensures a == b
  {
    assert forall i :: 0 <= i < |a| ==> a[i] == b[i] by {
      forall i | 0 <= i < |a| ensures a[i] == b[i] {
        assert Decode(Encode(a[i])) == Ok(a[i]) by { match a[i] { case _ => } }
        assert Decode(Encode(b[i])) == Ok(b[i]) by { match b[i] { case _ => } }
      }
    }
  }

  /** Key-peg feedback for `guess` against `secret`: blacks are the equal
      positions, blacks plus whites the colours the two share. */
  function DistanceOf(secret: Pattern, guess: Pattern): (d: Distance)
    ensures d.blacks + d.whites <= Size
  {
    var s, g := PegsOf(secret), PegsOf(guess);
    KeyPegScoring.ExactAtMostCommon(s, g);
    Distance(KeyPegScoring.Exact(s, g), KeyPegScoring.Common(s, g) - KeyPegScoring.Exact(s, g))
  }

  /** The scorer, the same greedy algorithm as the live module's. */
  method Score(self: Pattern, guess: Pattern) returns (d: Distance)
    ensures d.blacks == KeyPegScoring.Exact(PegsOf(self), PegsOf(guess))
    ensures d.blacks + d.whites == KeyPegScoring.Common(PegsOf(self), PegsOf(guess))
    ensures d == DistanceOf(self, guess)
  {
    var s := Pegs(self);
    var g := Pegs(guess);
    var blacks, whites := KeyPegScoring.CountPegs(s, g);
    d := Distance(blacks, whites);
  }

  // ---------------------------------------------------------------------
  // Properties of the codec

  /** Encoding code pegs and decoding gives them back. */
  lemma PegsRoundTrip(pegs: seq<CodePeg>)
    requires |pegs| == Size
    ensures PegsOf(New(pegs)) == pegs
  {
    var p := New(pegs);
    var e0, e1, e2, e3 := Encode(pegs[0]), Encode(pegs[1]), Encode(pegs[2]), Encode(pegs[3]);
    ShiftStep(p.ix, 0, e0, e1 + Colors * (e2 + Colors * e3));
    ShiftStep(p.ix, 1, e1, e2 + Colors * e3);
    ShiftStep(p.ix, 2, e2, e3);
    ShiftStep(p.ix, 3, e3, 0);
    EncodeInjective(PegsOf(p), pegs);
  }

  /** Decoding a code and encoding its pegs gives it back. */
  lemma NewRoundTrip(p: Pattern)
    requires p.ix < Cardinality()
    ensures New(PegsOf(p)) == p
  {
    Recompose(p.ix);
  }

  /** As written, `ith` admits index 1296, whose pegs encode back to index 0. */
  lemma IthAdmitsCardinality()
    ensures Ith(1296) == Ok(Pattern(1296))
    ensures PegsOf(Pattern(1296)) == PegsOf(Pattern(0)) == [Red, Red, Red, Red]
    ensures New(PegsOf(Pattern(1296))) == Pattern(0) != Pattern(1296)
    ensures IthChecked(1296).Panic?
  {
    assert Shift(1296, 1) == 216 && Shift(1296, 2) == 36 && Shift(1296, 3) == 6;
  }

  // ---------------------------------------------------------------------
  // Properties of the feedback

  /** A pattern scored against itself is a win with no white. */
  lemma DistanceSelf(p: Pattern)
    ensures DistanceOf(p, p) == Distance(Size, 0) && Win(DistanceOf(p, p))
  {
    KeyPegScoring.ExactSelf(PegsOf(p));
  }

  /** The response is a win exactly when the two codes are equal. */
  lemma WinIffSameCode(secret: Pattern, guess: Pattern)
    requires secret.ix < Cardinality() && guess.ix < Cardinality()
    ensures Win(DistanceOf(secret, guess)) <==> secret == guess
  {
    var s, g := PegsOf(secret), PegsOf(guess);
    if Win(DistanceOf(secret, guess)) {
      KeyPegScoring.ExactAllMeansEqual(s, g);
      NewRoundTrip(secret);
      NewRoundTrip(guess);
    }
    if secret == guess {
      DistanceSelf(secret);
    }
  }

  /** Scoring is symmetric in its two patterns. */
  lemma DistanceSymmetric(a: Pattern, b: Pattern)
    ensures DistanceOf(a, b) == DistanceOf(b, a)
  {
    KeyPegScoring.ExactSymmetric(PegsOf(a), PegsOf(b));
    KeyPegScoring.CommonSymmetric(PegsOf(a), PegsOf(b));
  }

  /** Orange-green-green-blue against red-red-orange-orange: one white. */
  lemma ScoringFixture()
    ensures DistanceOf(New([Orn, Grn, Grn, Blu]), New([Red, Red, Orn, Orn])) == Distance(0, 1)
  {
    var s, g := [Orn, Grn, Grn, Blu], [Red, Red, Orn, Orn];
    PegsRoundTrip(s);
    PegsRoundTrip(g);
    assert KeyPegScoring.Exact([Orn], [Red]) == 0;
    assert KeyPegScoring.Exact([Orn, Grn], [Red, Red]) == 0;
    assert KeyPegScoring.Exact([Orn, Grn, Grn], [Red, Red, Orn]) == 0;
    assert s[..3] == [Orn, Grn, Grn] && g[..3] == [Red, Red, Orn];
    assert KeyPegScoring.Exact(s, g) == 0;
    assert multiset(s) * multiset(g) == multiset{Orn};
  }
}
