/** Patterns as lexical indices, their rendering as four digits '1'..'6'
    (position 0 the most significant base-6 digit), key-peg feedback and
    the scorer, as the live game module defines them. */
module Gameplay {
  import opened Outcomes
  import opened Radix
  import KeyPegScoring

  /** The codemaker chooses a pattern of four code pegs. */
  const Size: nat := 4

  /** Number of possible codes, 1111, 1112, .., 6666. */
  function Cardinality(): (n: nat)
    ensures n == 1296
  {
    Pow(Colors, Size)
  }

  type u32 = x: int | 0 <= x < 0x1_0000_0000

  /** A pattern is its lexical index. */
  datatype Pattern = Pattern(ix: u32)

  /** Key pegs: black for right colour in the right place, white for a
      right colour in the wrong place. */
  datatype KeyPegs = KeyPegs(blacks: nat, whites: nat)

  /** If the response is four coloured pegs, the game is won. */
  predicate Win(k: KeyPegs)
  {
    k.blacks == Size
  }

  function NewKeyPegs(): (k: KeyPegs)
    ensures k.blacks == 0 && k.whites == 0
  {
    KeyPegs(0, 0)
  }

  /** Builder that replaces the black count; its assertion panics when the
      pegs would not fit on a row. */
  function WithBlacks(k: KeyPegs, blacks: nat): (r: Result<KeyPegs>)
    ensures r.Ok? <==> blacks + k.whites <= Size
    ensures r.Ok? ==> r.value.blacks == blacks && r.value.whites == k.whites
  {
    if blacks + k.whites <= Size then Ok(k.(blacks := blacks))
    else Panic("assertion failed: blacks + whites <= Pattern::size()")
  }

  /** Builder that replaces the white count, with the same assertion. */
  function WithWhites(k: KeyPegs, whites: nat): (r: Result<KeyPegs>)
    ensures r.Ok? <==> k.blacks + whites <= Size
    ensures r.Ok? ==> r.value.blacks == k.blacks && r.value.whites == whites
  {
    if k.blacks + whites <= Size then Ok(k.(whites := whites))
    else Panic("assertion failed: blacks + whites <= Pattern::size()")
  }

  /** `n` copies of `c`. */
  function Repeat(c: char, n: nat): (r: string)
    ensures |r| == n && multiset(r)[c] == n
    ensures forall i :: 0 <= i < n ==> r[i] == c
  {
    if n == 0 then [] else [c] + Repeat(c, n - 1)
  }

  /** The display form: a run of 'B's, one per black peg, then a run of
      'W's, one per white peg. */
  function Render(k: KeyPegs): (r: string)
    ensures |r| == k.blacks + k.whites
    ensures multiset(r)['B'] == k.blacks && multiset(r)['W'] == k.whites
    ensures forall i :: 0 <= i < |r| ==> r[i] == (if i < k.blacks then 'B' else 'W')
  {
    var bs, ws := Repeat('B', k.blacks), Repeat('W', k.whites);
    assert multiset(bs)['W'] == 0 by { if 'W' in multiset(bs) { assert false; } }
    assert multiset(ws)['B'] == 0 by { if 'B' in multiset(ws) { assert false; } }
    bs + ws
  }

  /** Construct a pattern from a lexical index. The assertion admits the
      index equal to the cardinality. */
  function Ith(lexIx: u32): (r: Result<Pattern>)
    ensures r.Ok? <==> lexIx <= Cardinality()
    ensures r.Ok? ==> Index(r.value) == lexIx
  {
    if lexIx <= Cardinality() then Ok(Pattern(lexIx))
    else Panic("assertion failed: lex_ix <= Pattern::cardinality()")
  }

  /** `ith` with the bound the universe calls for: only the 1296 codes. */
  function IthChecked(lexIx: u32): (r: Result<Pattern>)
    ensures r.Ok? <==> lexIx < Cardinality()
    ensures r.Ok? ==> Index(r.value) == lexIx && Ith(lexIx) == r
  {
    if lexIx < Cardinality() then Ok(Pattern(lexIx))
    else Panic("assertion failed: lex_ix < Pattern::cardinality()")
  }

  function Index(p: Pattern): u32
  {
    p.ix
  }

  /** All codes in increasing index order. */
  function Range(): (r: seq<Pattern>)
    ensures |r| == Cardinality()
    ensures forall k :: 0 <= k < |r| ==> Ith(k) == Ok(r[k]) && Index(r[k]) == k
  {
    seq(Cardinality(), k requires 0 <= k < Cardinality() => IthChecked(k).value)
  }

  /** The character shown for a base-6 digit: '1' + digit. */
  function DigitChar(d: nat): (c: char)
    requires d < Colors
    ensures '1' <= c <= '6'
  {
    ('1' as int + d) as char
  }

  /** The lowest `n` base-6 digits of `x` as characters, most significant
      first. */
  function DigitsOf(x: nat, n: nat): (ds: seq<char>)
    ensures |ds| == n
  {
    if n == 0 then [] else DigitsOf(x / Colors, n - 1) + [DigitChar(x % Colors)]
  }

  /** The four digit characters of a pattern, most significant first. */
  function Digits(p: Pattern): (ds: seq<char>)
    ensures |ds| == Size
  {
    DigitsOf(p.ix, Size)
  }

  /** Position `pos` of the rendering holds base-6 digit `Size - 1 - pos`. */
  lemma DigitsAt(p: Pattern)
    ensures Digits(p) == [DigitChar(Digit(p.ix, 3)), DigitChar(Digit(p.ix, 2)),
                          DigitChar(Digit(p.ix, 1)), DigitChar(Digit(p.ix, 0))]
  {
    var x := p.ix;
    assert Shift(x, 1) == x / 6 && Shift(x, 2) == x / 6 / 6 && Shift(x, 3) == x / 6 / 6 / 6;
    assert DigitsOf(x / 6 / 6 / 6, 1) == [DigitChar(Digit(x, 3))];
    assert DigitsOf(x / 6 / 6, 2) == [DigitChar(Digit(x, 3)), DigitChar(Digit(x, 2))];
    assert DigitsOf(x / 6, 3) == [DigitChar(Digit(x, 3)), DigitChar(Digit(x, 2)), DigitChar(Digit(x, 1))];
  }

  /** Decode a pattern into digits: take the remainder by 6 and divide,
      filling the positions from the last to the first. */
  method ToDigits(p: Pattern) returns (digits: seq<char>)
    ensures digits == Digits(p)
    ensures forall pos :: 0 <= pos < |digits| ==> '1' <= digits[pos] <= '6'
  {
    var out := new char[Size](_ => '1');
    var ith: nat := p.ix;
    for exp := 0 to Size
      invariant ith == Shift(p.ix, exp)
      invariant forall e :: 0 <= e < exp ==> out[Size - 1 - e] == DigitChar(Digit(p.ix, e))
    {
      var remainder := ith % Colors;
      var digit := DigitChar(remainder);
      ith := ith / Colors;
      var pos := Size - 1 - exp;
      out[pos] := digit;
    }
    digits := out[..];
    assert forall pos :: 0 <= pos < Size ==> digits[pos] == out[Size - 1 - (Size - 1 - pos)];
    DigitsAt(p);
  }

  /** `char::to_digit(6)`: only '0'..'5' are base-6 digits. */
  function ToDigit6(c: char): (r: Option<nat>)
    ensures r.Some? <==> '0' <= c <= '5'
    ensures r.Some? ==> r.value == c as int - '0' as int
  {
    if '0' <= c <= '5' then Some(c as int - '0' as int) else None
  }

  /** `to_digit(6).unwrap_or(1) - 1` in `u32`: '1'..'5' give 0..4, '0'
      underflows, every other character (including '6') gives 0. */
  function DigitValue(c: char): (r: Result<nat>)
    ensures r.Ok? <==> c != '0'
    ensures r.Ok? ==> r.value < Colors - 1
    ensures '1' <= c <= '5' ==> r == Ok(c as int - '1' as int)
    ensures !('0' <= c <= '5') ==> r == Ok(0)
  {
    var v := match ToDigit6(c) case Some(d) => d case None => 1;
    if v == 0 then Panic("attempt to subtract with overflow") else Ok(v - 1)
  }

  /** Construct a pattern from four digit characters, the first the most
      significant. */
  function FromDigits(digits: seq<char>): (r: Result<Pattern>)
    requires |digits| == Size
    ensures r.Ok? <==> '0' !in digits
    ensures r.Ok? ==> r.value.ix < Cardinality()
  {
    var d3, d2, d1, d0 := DigitValue(digits[3]), DigitValue(digits[2]),
                          DigitValue(digits[1]), DigitValue(digits[0]);
    if d3.Panic? then Panic(d3.reason)
    else if d2.Panic? then Panic(d2.reason)
    else if d1.Panic? then Panic(d1.reason)
    else if d0.Panic? then Panic(d0.reason)
    else Ok(Pattern(d3.value + Colors * (d2.value + Colors * (d1.value + Colors * d0.value))))
  }

  /** The digit value the documentation of `from_digits` describes: '1'..'6'
      give 0..5 and every other character is read as '1'. */
  function IntendedDigitValue(c: char): (d: nat)
    ensures d < Colors
    ensures '1' <= c <= '6' ==> DigitChar(d) == c
  {
    if '1' <= c <= '6' then c as int - '1' as int else 0
  }

  /** `from_digits` as documented: total, and every colour readable. */
  function FromDigitsIntended(digits: seq<char>): (p: Pattern)
    requires |digits| == Size
    ensures p.ix < Cardinality()
  {
    var d3, d2, d1, d0 := IntendedDigitValue(digits[3]), IntendedDigitValue(digits[2]),
                          IntendedDigitValue(digits[1]), IntendedDigitValue(digits[0]);
    Pattern(d3 + Colors * (d2 + Colors * (d1 + Colors * d0)))
  }

  /** Key-peg feedback for `guess` against `secret`: blacks are the equal
      positions, blacks plus whites the colours the two share. */
  function Feedback(secret: Pattern, guess: Pattern): (k: KeyPegs)
    ensures k.blacks + k.whites <= Size
  {
    var s, g := Digits(secret), Digits(guess);
    KeyPegScoring.ExactAtMostCommon(s, g);
    KeyPegs(KeyPegScoring.Exact(s, g), KeyPegScoring.Common(s, g) - KeyPegScoring.Exact(s, g))
  }

  /** The scorer: blacks position by position, then whites by the greedy
      duplicate-aware pass; neither builder assertion can fire. */
  method Score(self: Pattern, guess: Pattern) returns (k: KeyPegs)
    ensures k.blacks == KeyPegScoring.Exact(Digits(self), Digits(guess))
    ensures k.blacks + k.whites == KeyPegScoring.Common(Digits(self), Digits(guess))
    ensures k == Feedback(self, guess)
  {
    var s := ToDigits(self);
    var g := ToDigits(guess);
    var blacks, whites := KeyPegScoring.CountPegs(s, g);
    KeyPegScoring.ExactAtMostCommon(s, g);
    var withBlacks := WithBlacks(NewKeyPegs(), blacks);
    k := WithWhites(withBlacks.value, whites).value;
  }

  // ---------------------------------------------------------------------
  // Properties of the codec

  /** Decoding and re-encoding a code gives it back (with the documented
      digit reading). */
  lemma DigitsRoundTrip(p: Pattern)
    requires p.ix < Cardinality()
    ensures FromDigitsIntended(Digits(p)) == p
  {
    DigitsAt(p);
    Recompose(p.ix);
  }

  /** Encoding four digits '1'..'6' and decoding gives them back. */
  lemma FromDigitsRoundTrip(ds: seq<char>)
    requires |ds| == Size && forall pos :: 0 <= pos < Size ==> '1' <= ds[pos] <= '6'
    ensures Digits(FromDigitsIntended(ds)) == ds
  {
    var p := FromDigitsIntended(ds);
    DigitsAt(p);
    var e0, e1, e2, e3 := IntendedDigitValue(ds[0]), IntendedDigitValue(ds[1]),
                          IntendedDigitValue(ds[2]), IntendedDigitValue(ds[3]);
    ShiftStep(p.ix, 0, e3, e2 + Colors * (e1 + Colors * e0));
    ShiftStep(p.ix, 1, e2, e1 + Colors * e0);
    ShiftStep(p.ix, 2, e1, e0);
    ShiftStep(p.ix, 3, e0, 0);
  }

  /** Two codes render alike only when they are the same code. */
  lemma DigitsInjective(a: Pattern, b: Pattern)
    requires a.ix < Cardinality() && b.ix < Cardinality()
    ensures Digits(a) == Digits(b) <==> a == b
  {
    DigitsRoundTrip(a);
    DigitsRoundTrip(b);
  }

  /** As written, the round trip holds for codes whose digits avoid '6'. */
  lemma DigitsRoundTripAsWritten(p: Pattern)
    requires p.ix < Cardinality() && '6' !in Digits(p)
    ensures FromDigits(Digits(p)) == Ok(p)
  {
    DigitsRoundTrip(p);
    DigitsAt(p);
    var ds := Digits(p);
    assert forall pos :: 0 <= pos < Size ==> '1' <= ds[pos] <= '5';
  }

  /** As written, digits '1'..'5' survive encoding and decoding. */
  lemma FromDigitsRoundTripAsWritten(ds: seq<char>)
    requires |ds| == Size && forall pos :: 0 <= pos < Size ==> '1' <= ds[pos] <= '5'
    ensures FromDigits(ds).Ok? && Digits(FromDigits(ds).value) == ds
  {
    FromDigitsRoundTrip(ds);
    assert FromDigits(ds) == Ok(FromDigitsIntended(ds));
  }

  /** As written, '6' is read as colour 0: the last code renders as "6666"
      but parses back as the first code, and a '0' underflows. */
  lemma FromDigitsMisreadsSix()
    ensures Digits(Pattern(1295)) == ['6', '6', '6', '6']
    ensures FromDigits(['6', '6', '6', '6']) == FromDigits(['1', '1', '1', '1']) == Ok(Pattern(0))
    ensures FromDigits(Digits(Pattern(1295))) != Ok(Pattern(1295))
    ensures FromDigits(['0', '1', '1', '1']).Panic?
    ensures FromDigitsIntended(['6', '6', '6', '6']) == Pattern(1295)
  {
    DigitsAt(Pattern(1295));
    assert Shift(1295, 1) == 215 && Shift(1295, 2) == 35 && Shift(1295, 3) == 5;
  }

  /** `range()` enumerates 1111, 1112, .., 6666 in increasing index order. */
  lemma RangeEnumeratesCodes()
    ensures Digits(Range()[0]) == ['1', '1', '1', '1']
    ensures Digits(Range()[1]) == ['1', '1', '1', '2']
    ensures Digits(Range()[Cardinality() - 1]) == ['6', '6', '6', '6']
    ensures forall i, j :: 0 <= i < j < |Range()| ==> Index(Range()[i]) < Index(Range()[j])
  {
    FromDigitsMisreadsSix();
    DigitsAt(Range()[0]);
    DigitsAt(Range()[1]);
  }

  /** As written, `ith` admits index 1296, a pattern that renders like
      index 0 and wins against it although the two differ. */
  lemma IthAdmitsCardinality()
    ensures Ith(1296) == Ok(Pattern(1296))
    ensures Digits(Pattern(1296)) == Digits(Pattern(0))
    ensures Win(Feedback(Pattern(1296), Pattern(0))) && Pattern(1296) != Pattern(0)
    ensures IthChecked(1296).Panic?
  {
    assert DigitsOf(1296 / 6, 3) == DigitsOf(0, 3) == ['1', '1', '1'];
    WinIffSameDigits(Pattern(1296), Pattern(0));
  }

  // ---------------------------------------------------------------------
  // Properties of the feedback

  /** Scoring a pattern against itself gives four blacks: a win. */
  lemma FeedbackSelf(p: Pattern)
    ensures Feedback(p, p) == KeyPegs(Size, 0) && Win(Feedback(p, p))
  {
    KeyPegScoring.ExactSelf(Digits(p));
  }

  /** The response is a win exactly when the two patterns render alike. */
  lemma WinIffSameDigits(secret: Pattern, guess: Pattern)
    ensures Win(Feedback(secret, guess)) <==> Digits(secret) == Digits(guess)
  {
    var s, g := Digits(secret), Digits(guess);
    if Win(Feedback(secret, guess)) {
      KeyPegScoring.ExactAllMeansEqual(s, g);
    }
    if s == g {
      KeyPegScoring.ExactSelf(s);
    }
  }

  /** Among the 1296 codes, the response is a win exactly when the guess is
      the code. */
  lemma WinIffSameCode(secret: Pattern, guess: Pattern)
    requires secret.ix < Cardinality() && guess.ix < Cardinality()
    ensures Win(Feedback(secret, guess)) <==> secret == guess
  {
    WinIffSameDigits(secret, guess);
    DigitsInjective(secret, guess);
  }

  /** Scoring is symmetric: the solver may score the guess against a
      candidate instead of the candidate against the guess. */
  lemma FeedbackSymmetric(a: Pattern, b: Pattern)
    ensures Feedback(a, b) == Feedback(b, a)
  {
    KeyPegScoring.ExactSymmetric(Digits(a), Digits(b));
    KeyPegScoring.CommonSymmetric(Digits(a), Digits(b));
  }

  /** The response is computed from the two renderings. */
  lemma FeedbackOfDigits(secret: Pattern, guess: Pattern, s: seq<char>, g: seq<char>)
    requires Digits(secret) == s && Digits(guess) == g
    ensures Feedback(secret, guess).blacks == KeyPegScoring.Exact(s, g)
    ensures Feedback(secret, guess).blacks + Feedback(secret, guess).whites == KeyPegScoring.Common(s, g)
  {
    KeyPegScoring.ExactAtMostCommon(s, g);
  }

  /** Secret 1234 against guess 2555: no black, one white. */
  lemma ScoringFixture(secret: Pattern, guess: Pattern)
    requires FromDigits(['1', '2', '3', '4']) == Ok(secret) && FromDigits(['2', '5', '5', '5']) == Ok(guess)
    ensures Feedback(secret, guess) == WithWhites(WithBlacks(NewKeyPegs(), 0).value, 1).value
  {
    var s, g := ['1', '2', '3', '4'], ['2', '5', '5', '5'];
    FromDigitsRoundTripAsWritten(s);
    FromDigitsRoundTripAsWritten(g);
    ScoringFixtureCounts();
    FeedbackOfDigits(secret, guess, s, g);
  }

  /** 1234 and 2555 share no position and one colour. */
  lemma ScoringFixtureCounts()
    ensures KeyPegScoring.Exact(['1', '2', '3', '4'], ['2', '5', '5', '5']) == 0
    ensures KeyPegScoring.Common(['1', '2', '3', '4'], ['2', '5', '5', '5']) == 1
  {
    var s, g := ['1', '2', '3', '4'], ['2', '5', '5', '5'];
    assert KeyPegScoring.Exact(['1'], ['2']) == 0;
    assert KeyPegScoring.Exact(['1', '2'], ['2', '5']) == 0;
    assert KeyPegScoring.Exact(['1', '2', '3'], ['2', '5', '5']) == 0;
    assert s[..3] == ['1', '2', '3'] && g[..3] == ['2', '5', '5'];
    assert multiset(s) * multiset(g) == multiset{'2'};
  }

  /** Code 1122 answers guess 1112 with three blacks and no white: the
      guess's extra '1' gets no credit. */
  lemma DuplicateColourFixture(secret: Pattern, guess: Pattern)
    requires FromDigits(['1', '1', '2', '2']) == Ok(secret) && FromDigits(['1', '1', '1', '2']) == Ok(guess)
    ensures Feedback(secret, guess) == WithBlacks(NewKeyPegs(), 2 + 1).value
  {
    var s, g := ['1', '1', '2', '2'], ['1', '1', '1', '2'];
    FromDigitsRoundTripAsWritten(s);
    FromDigitsRoundTripAsWritten(g);
    DuplicateColourCounts();
    FeedbackOfDigits(secret, guess, s, g);
  }

  /** 1122 and 1112 agree in three positions and share three colours. */
  lemma DuplicateColourCounts()
    ensures KeyPegScoring.Exact(['1', '1', '2', '2'], ['1', '1', '1', '2']) == 3
    ensures KeyPegScoring.Common(['1', '1', '2', '2'], ['1', '1', '1', '2']) == 3
  {
    var s, g := ['1', '1', '2', '2'], ['1', '1', '1', '2'];
    assert KeyPegScoring.Exact(['1'], ['1']) == 1;
    assert KeyPegScoring.Exact(['1', '1'], ['1', '1']) == 2;
    assert KeyPegScoring.Exact(['1', '1', '2'], ['1', '1', '1']) == 2;
    assert s[..3] == ['1', '1', '2'] && g[..3] == ['1', '1', '1'];
    assert multiset(s) * multiset(g) == multiset{'1', '1', '2'};
  }

  /** One black and two whites display as "BWW"; fresh pegs display as "". */
  lemma RenderFixture()
    ensures WithBlacks(NewKeyPegs(), 1).Ok?
    ensures Render(WithWhites(WithBlacks(NewKeyPegs(), 1).value, 2).value) == "BWW"
    ensures Render(NewKeyPegs()) == ""
  {
  }
}
