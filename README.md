# Mastermind codebreaker — a verified model

This project models the core of a Mastermind codebreaker that follows
Knuth's five-guess minimax algorithm. Here is the game it models:

- The codemaker hides a pattern of four code pegs in six colours.
- A pattern is its lexical index among the 6^4 = 1296 codes, rendered as
  four digits `1111` .. `6666`.
- Every guess is answered with key pegs: one black for each right colour
  in the right place, one white for each further right colour in the
  wrong place, duplicates counted at most as often as they occur in both.

The codebreaker keeps the set S of codes still consistent with every
answer and a history of its guesses. It opens with 1122. On a winning
answer it stops. Otherwise it removes from S every code that would have
answered differently. It then picks the next guess by minimax:

- the score of a guess is |S| minus its largest answer class over S;
- the best guesses are every unused code with the highest score, in
  ascending order;
- the guess taken is the first best guess in S, else the first best guess.

Modules:

- `Outcomes`: `Option` and `Result`. A Rust panic (failed `assert!`,
  `expect` on `None`, an index out of bounds, `u32` subtraction
  underflow) is the value `Panic(reason)`, not a precondition.
- `Radix`: base-6 digit extraction, shared by both pattern codecs.
- `KeyPegScoring`: the key-peg scoring loop (`CountPegs`), generic in the
  peg type and shared by both `score` functions. It is proved against the
  duplicate-aware rule: blacks are the equal positions (`Exact`), and
  blacks plus whites is the size of the multiset intersection (`Common`).
- `Gameplay`: `src/gameplay.rs` — `KeyPegs` and its builders and display,
  `Pattern` with `ith`, `range`, `from_digits`, `to_digits` and `score`.
- `PegPatterns`: `src/pattern.rs` — the older codec over a `CodePeg`
  enumeration, with position 0 as the least significant digit, and its
  `score` returning `Distance`.
- `Minimax`: the functional part of `src/solver.rs`. This is `best_guesses`
  (the response tally, the score and the fold over `range()`) and
  `next_guess`, written as functions of S (its members in ascending
  order), the guess history and the scorer `respond`.
- `Solving`: the mutable part of `src/solver.rs`. `PatternSet` is a class
  over an `array<bool>` of 1296 bits with a ghost `Contents` set. It is
  filtered in place. `Solver` is a class with the codemaker as a function
  field, the guess history and S. `Play` pushes a guess onto the history
  and filters S.

`Solving.Moved` states one move of the solver in terms of the state before
and after it. `Solving.Honest` states that the codemaker scores every
guess against one fixed code that is still in S. The main solver theorem
is `Solving.HonestMoveNeverPanics`: against an honest codemaker no move
panics, and the codemaker stays honest, so the code is never filtered out
of S and the history never repeats it before it is guessed.

The documentation of `from_digits` says that characters other than 1-6
are treated as '1'. The code parses with `to_digit(6)` and so disagrees:
it reads '6' as colour 0 and underflows on '0'. The model follows the
code; see Findings.

## Model

| member | source | states |
|---|---|---|
| Gameplay.Cardinality | src/gameplay.rs:162-165 | there are 6^4 = 1296 codes |
| Gameplay.NewKeyPegs | src/gameplay.rs:122-124 | fresh key pegs have no black and no white |
| Gameplay.Win | src/gameplay.rs:117-120 | no contract of its own: a win is four blacks; Gameplay.WinIffSameCode states that it holds exactly when the guess is the code |
| Gameplay.WithBlacks | src/gameplay.rs:126-129 | succeeds exactly when the new blacks plus the whites fit in four holes, else panics; sets blacks and keeps whites |
| Gameplay.WithWhites | src/gameplay.rs:131-134 | succeeds exactly when the blacks plus the new whites fit in four holes, else panics; sets whites and keeps blacks |
| Gameplay.Repeat | src/gameplay.rs:139-140 | `repeat(c).take(n)` is `n` characters, all equal to `c` |
| Gameplay.Render | src/gameplay.rs:137-144 | the display has one 'B' per black followed by one 'W' per white, and nothing else |
| Gameplay.RenderFixture | src/gameplay.rs:22-23 | one black and two whites display as "BWW"; fresh pegs display as the empty string |
| Gameplay.Ith | src/gameplay.rs:167-175 | `ith` succeeds exactly for indices up to and including 1296, and `index(ith(i)) == i` |
| Gameplay.Index | src/gameplay.rs:173-175 | no contract of its own: the stored index; Gameplay.Ith and Gameplay.Range state `index(ith(i)) == i` |
| Gameplay.IthChecked | src/gameplay.rs:168-171 | corrected `ith`: succeeds exactly below 1296 and agrees with `ith` there |
| Gameplay.Range | src/gameplay.rs:177-179 | `range()` has 1296 elements, the k-th being `ith(k)` with index k |
| Gameplay.RangeEnumeratesCodes | src/gameplay.rs:162-179 | `range()` renders as 1111, 1112, .., 6666 and is strictly ascending |
| Gameplay.DigitChar | src/gameplay.rs:198-199 | the character of a base-6 digit is '1' plus the digit, within '1'..'6' |
| Gameplay.Digits | src/gameplay.rs:192-206 | the value `to_digits` computes, four characters; Gameplay.DigitsAt and Gameplay.ToDigits state its content |
| Gameplay.DigitsAt | src/gameplay.rs:192-206 | position 0 holds the most significant base-6 digit and position 3 the least, each as '1' plus the digit |
| Gameplay.ToDigits | src/gameplay.rs:192-206 | the division loop writes exactly the rendering of the pattern, every character in '1'..'6' |
| Gameplay.ToDigit6 | src/gameplay.rs:186 | `to_digit(6)` parses exactly '0'..'5', to their values |
| Gameplay.DigitValue | src/gameplay.rs:186 | `to_digit(6).unwrap_or(1) - 1` panics exactly on '0', maps '1'..'5' to 0..4 and every other character, '6' included, to 0 |
| Gameplay.FromDigits | src/gameplay.rs:184-189 | `from_digits` succeeds exactly when no character is '0', and then yields one of the 1296 codes |
| Gameplay.IntendedDigitValue | src/gameplay.rs:181-182 | the documented reading: '1'..'6' are the digits 0..5, and each renders back as itself |
| Gameplay.FromDigitsIntended | src/gameplay.rs:181-189 | the documented `from_digits` always yields one of the 1296 codes |
| Gameplay.DigitsRoundTrip | src/gameplay.rs:181-206 | decoding any code and parsing its digits as documented gives the code back |
| Gameplay.FromDigitsRoundTrip | src/gameplay.rs:181-206 | parsing four digits in '1'..'6' as documented and rendering gives them back |
| Gameplay.DigitsInjective | src/gameplay.rs:192-206 | two codes render alike exactly when they are equal |
| Gameplay.DigitsRoundTripAsWritten | src/gameplay.rs:184-206 | as written, `from_digits(to_digits(p)) == p` for every code whose rendering has no '6' |
| Gameplay.FromDigitsRoundTripAsWritten | src/gameplay.rs:184-206 | as written, digits in '1'..'5' parse and render back to themselves |
| Gameplay.FromDigitsMisreadsSix | src/gameplay.rs:186 | as written, "6666" (the rendering of code 1295) parses to code 0 like "1111", and "0111" panics; the documented reading gives 1295 |
| Gameplay.IthAdmitsCardinality | src/gameplay.rs:168-171 | as written, `ith(1296)` succeeds, renders like code 0 and wins against it though the two differ; the corrected `ith` panics |
| Gameplay.Score | src/gameplay.rs:214-238 | the scorer's blacks are the equal positions and blacks plus whites the shared colours, so neither builder assertion fires |
| Gameplay.Feedback | src/gameplay.rs:214-238 | the value `score` computes, blacks plus whites at most four; Gameplay.Score proves the loop computes it and Gameplay.FeedbackOfDigits states its counts |
| Gameplay.FeedbackOfDigits | src/gameplay.rs:214-220 | the response is computed from the two renderings: blacks are their equal positions, blacks plus whites their shared colours |
| Gameplay.FeedbackSelf | src/gameplay.rs:276-281 | a pattern scored against itself gives four blacks and no white, a win |
| Gameplay.WinIffSameDigits | src/gameplay.rs:117-120 | the response is a win exactly when the two patterns render alike |
| Gameplay.WinIffSameCode | src/gameplay.rs:117-120 | among the 1296 codes, the response is a win exactly when the guess is the code |
| Gameplay.FeedbackSymmetric | src/gameplay.rs:218-235 | `a.score(b) == b.score(a)`, so the solver may score the guess against a candidate |
| Gameplay.ScoringFixture | src/gameplay.rs:268-273 | code 1234 answers guess 2555 with no black and one white |
| Gameplay.ScoringFixtureCounts | src/gameplay.rs:268-273 | 1234 and 2555 agree in no position and share one colour |
| Gameplay.DuplicateColourFixture | src/gameplay.rs:55-66 | code 1122 answers guess 1112 with three blacks and no white |
| Gameplay.DuplicateColourCounts | src/gameplay.rs:45-53 | 1122 and 1112 agree in three positions and share three colours: the extra '1' earns nothing |
| KeyPegScoring.RightPlaces | src/gameplay.rs:218-219 | `g_used` holds exactly the positions where the colours agree |
| KeyPegScoring.Find | src/gameplay.rs:227-228 | the scan returns a position of the colour that is not yet used, or there is none |
| KeyPegScoring.FindIsFirst | src/gameplay.rs:227-228 | the scan returns the leftmost such position |
| KeyPegScoring.CountPegs | src/gameplay.rs:218-235 | the scoring loop returns blacks = equal positions and blacks + whites = size of the multiset intersection |
| KeyPegScoring.ScanStart | src/gameplay.rs:218-222 | before the white pass, `s_used` holds the right-place positions and its colours are the right-place colours |
| KeyPegScoring.ScanSkip | src/gameplay.rs:225 | a right-place guess position is skipped without changing the used colours |
| KeyPegScoring.ScanStep | src/gameplay.rs:225-233 | one step of the white pass keeps the used secret colours equal to the intersection of the secret with the guess colours seen so far |
| KeyPegScoring.ScanEnd | src/gameplay.rs:234-235 | after the pass, `s_used.len()` is the number of shared colours |
| KeyPegScoring.ExactIsRightPlaces | src/gameplay.rs:219-220 | `blacks = g_used.len()` is the number of equal positions |
| KeyPegScoring.Split | src/gameplay.rs:224-233 | every secret position is either used or unused |
| KeyPegScoring.UnusedHas | src/gameplay.rs:227-228 | an unused colour is present exactly when some unused position holds it |
| KeyPegScoring.UsedPush | src/gameplay.rs:230-231 | pushing a fresh position onto `s_used` adds its colour to the used colours |
| KeyPegScoring.ExactAtMostCommon | src/gameplay.rs:235-237 | blacks never exceed the shared colours, which never exceed four, so `s_used.len() - blacks` cannot underflow and `blacks + whites <= 4` |
| KeyPegScoring.ExactSymmetric | src/gameplay.rs:218-220 | the equal positions do not depend on which side is the secret |
| KeyPegScoring.CommonSymmetric | src/gameplay.rs:224-235 | the shared colours do not depend on which side is the secret |
| KeyPegScoring.ExactSelf | src/gameplay.rs:276-281 | a sequence scored against itself has every position black and every colour shared |
| KeyPegScoring.ExactAllMeansEqual | src/gameplay.rs:117-120 | all positions black only when the two sequences are equal |
| Radix.Digit | src/gameplay.rs:198-200 | every extracted base-6 digit is below 6 |
| Radix.ShiftStep | src/pattern.rs:100-110 | one division step of a value `d + 6q` yields digit `d` and leaves `q` |
| Radix.ShiftSplit | src/gameplay.rs:198-200 | one division splits off the digit: `x = digit + 6 * (x / 6)` |
| Radix.Recompose | src/gameplay.rs:187 | an index below 1296 is the base-6 combination of its four digits |
| PegPatterns.Cardinality | src/pattern.rs:59-68 | there are 6^4 = 1296 codes |
| PegPatterns.Win | src/pattern.rs:37-41 | no contract of its own: a win is four blacks; PegPatterns.WinIffSameCode states that it holds exactly when the guess is the code |
| PegPatterns.Ith | src/pattern.rs:70-74 | `ith` succeeds exactly for indices up to and including 1296 and keeps the index |
| PegPatterns.IthChecked | src/pattern.rs:71-73 | corrected `ith`: succeeds exactly below 1296 and agrees with `ith` there |
| PegPatterns.Encode | src/pattern.rs:80-87 | a colour encodes as a digit below 6 |
| PegPatterns.Decode | src/pattern.rs:100-109 | decoding succeeds exactly for digits below 6, inverting `Encode`; the `panic!` arm is taken only for larger digits |
| PegPatterns.New | src/pattern.rs:77-91 | `new` yields one of the 1296 codes, with position 0 as the least significant digit |
| PegPatterns.PegsOf | src/pattern.rs:93-115 | the pegs of a code are four colours, position k encoding base-6 digit k |
| PegPatterns.Pegs | src/pattern.rs:94-115 | the decoding loop never reaches its `panic!` arm and writes exactly `PegsOf(p)` |
| PegPatterns.EncodeInjective | src/pattern.rs:80-87 | colour sequences with equal encodings are equal |
| PegPatterns.PegsRoundTrip | src/pattern.rs:77-115 | `pegs(new(x)) == x` for every peg array |
| PegPatterns.NewRoundTrip | src/pattern.rs:77-115 | `new(pegs(p)) == p` for every code |
| PegPatterns.IthAdmitsCardinality | src/pattern.rs:71-73 | as written, `ith(1296)` succeeds, and its pegs are those of code 0; the corrected `ith` panics |
| PegPatterns.DistanceOf | src/pattern.rs:123-147 | the value `score` computes, blacks plus whites at most four; PegPatterns.Score proves the loop computes it |
| PegPatterns.Score | src/pattern.rs:123-147 | blacks are the equal positions and blacks plus whites the shared colours of the two peg arrays |
| PegPatterns.DistanceSelf | src/pattern.rs:37-41 | a code scored against itself gives four blacks and no white, a win |
| PegPatterns.WinIffSameCode | src/pattern.rs:37-41 | among the 1296 codes, the response is a win exactly when the guess is the code |
| PegPatterns.DistanceSymmetric | src/pattern.rs:127-146 | scoring is symmetric in its two patterns |
| PegPatterns.ScoringFixture | src/pattern.rs:163-169 | [Orn, Grn, Grn, Blu] answers [Red, Red, Orn, Orn] with no black and one white |
| Minimax.Hits | src/solver.rs:210-214 | the `dist_by_hits` entry of a response: how many members of S give it, at most \|S\|; Minimax.HitsOfMember, Minimax.HitsWitness and Minimax.GuessScoreIsWorstCase state its meaning |
| Minimax.MaxHits | src/solver.rs:216-219 | the highest hit count bounds every class of a member's response and is reached by one |
| Minimax.GuessScore | src/solver.rs:207-221 | the score of a guess lies in [0, \|S\| - 1] |
| Minimax.HitsOfMember | src/solver.rs:211-213 | every member of S counts towards the class of its own response |
| Minimax.HitsWitness | src/solver.rs:211-213 | a non-empty class is the response of some member of S |
| Minimax.GuessScoreIsWorstCase | src/solver.rs:207-221 | the score is \|S\| minus the largest class over every possible response, and some member of S lies in a class of exactly that size |
| Minimax.Highest | src/solver.rs:229-239 | no contract of its own: the `highest` step; Minimax.FoldStep states what it keeps |
| Minimax.Unused | src/solver.rs:247 | no contract of its own: a code of the universe not in the history; Minimax.BestGuessesAreMaximal and Minimax.NextGuessChoice use it |
| Minimax.FoldBest | src/solver.rs:248-250 | no contract of its own: `range().filter(unused).fold`; Minimax.FoldInvariant states what it collects |
| Minimax.BestGuesses | src/solver.rs:203-205 | `best_guesses` panics exactly when S is empty |
| Minimax.FoldInvariant | src/solver.rs:229-250 | after the first n codes the fold holds the highest score among the unused ones and, in ascending order, every unused one with that score |
| Minimax.FoldStep | src/solver.rs:229-239 | one step of `highest` keeps that invariant |
| Minimax.BestGuessesAreMaximal | src/solver.rs:203-255 | the best guesses are exactly the unused codes whose score no unused code beats, in ascending order, and there is one whenever some code is unused |
| Minimax.FindMember | src/solver.rs:186 | the search finds a position whose best guess is in S, or no best guess from there on is in S |
| Minimax.NextGuess | src/solver.rs:179-192 | no contract of its own; Minimax.NextGuessChoice states when it succeeds and which best guess it picks |
| Minimax.FindMemberIsFirst | src/solver.rs:186 | the search finds the first such position |
| Minimax.FoundIsLowest | src/solver.rs:186-189 | in an ascending list, the first member of S found is the lowest one |
| Minimax.HeadIsLowest | src/solver.rs:190 | the head of an ascending list is its lowest element |
| Minimax.NextGuessChoice | src/solver.rs:179-192 | `next_guess` succeeds exactly when S is non-empty and some code is unused; it is a best guess, never an earlier guess, and the lowest best guess in S if any, else the lowest best guess |
| Solving.Popcount | src/solver.rs:280-282 | `len()` counts the set bits |
| Solving.Selected | src/solver.rs:211 | `range().filter(contains)` yields exactly the members, in ascending index order |
| Solving.PopcountAll | src/solver.rs:273-278 | with every bit set the count is the number of bits |
| Solving.SameResponseShrinks | src/solver.rs:168-172 | keeping the codes that answer the same never adds a code |
| Solving.PatternSet.All | src/solver.rs:273-278 | `all()` holds exactly the indices 0..1295, and its `len()` is 1296 |
| Solving.PatternSet.Len | src/solver.rs:280-282 | `len()` is the number of members |
| Solving.PatternSet.Contains | src/solver.rs:284-287 | `contains(p)` holds exactly when the index of `p` is a member |
| Solving.PatternSet.Members | src/solver.rs:211 | the members in ascending order, as many as `len()` |
| Solving.PatternSet.FilterWith | src/solver.rs:289-296 | afterwards the members are exactly the former members that satisfy the predicate, and `len()` has not grown |
| Solving.PatternSet.Remove | src/solver.rs:298-301 | answers whether `p` was a member; afterwards it is not, and every other bit is unchanged |
| Solving.Solver.PossibleCodes | src/solver.rs:109-112 | S starts as all 1296 codes, `len()` 1296 |
| Solving.Solver.constructor | src/solver.rs:114-118 | a new solver keeps its codemaker, has guessed nothing and holds all 1296 codes |
| Solving.Solver.InitialGuess | src/solver.rs:120-123 | the opening guess is a code that renders as 1122 |
| Solving.Solver.LastGuess | src/solver.rs:162-164 | the last guess of the history; an empty history panics |
| Solving.Solver.RetainSameResponse | src/solver.rs:166-172 | S keeps exactly the codes that would answer the last guess with `response`; with no guess yet it panics and S is unchanged |
| Solving.Solver.Play | src/solver.rs:134-160 | a fresh solver plays 1122 without asking the codemaker; after a win nothing changes and the result is `None`; otherwise S is filtered by the response and the minimax choice is pushed and returned; the history only grows, S only shrinks, and a new guess repeats no earlier one |
| Solving.Solver.Advance | src/solver.rs:147-158 | after a non-winning response, S is filtered by it and the next guess, never an earlier one, is pushed and returned, or the move panics with nothing pushed |
| Solving.Solver.NextGuess | src/solver.rs:179-192 | the next guess is found exactly when S is non-empty and some code is unused, and it is then unused |
| Solving.Solver.Next | src/solver.rs:259-265 | each step of the iterator is one move |
| Solving.Solver.HonestPlayNeverPanics | src/solver.rs:134-164 | against a codemaker that answers for a fixed code still in S, a move never panics and the code stays in S and unguessed before the last guess |
| Solving.HonestGame | src/solver.rs:134-164 | two moves on a fresh solver whose codemaker answers for a code: neither panics (the theorem above applied to each `Play`) |
| Solving.HonestMoveNeverPanics | src/solver.rs:134-164 | the same theorem stated on the states before and after one move |
| Solving.NotGuessedYet | src/solver.rs:247 | a code that differs from the last guess and from every earlier one has not been guessed |
| Solving.SecretSurvives | src/solver.rs:168-172 | filtering S by the code's own response to the last guess keeps the code |
| Solving.NextGuessSucceeds | src/solver.rs:179-192 | while an unguessed code is in S, the next guess is found |
| Solving.HarderCodeResponse | src/solver.rs:76-82 | code 1123 answers the opening 1122 with three blacks and no white |
| Solving.HarderCodeCounts | src/solver.rs:76-82 | 1123 and 1122 agree in three positions and share three colours |
| Solving.HarderCodeDrops | src/solver.rs:84-85 | 5223 would answer 1122 with a single black |
| Solving.HarderCodeDropCounts | src/solver.rs:84-85 | 1122 and 5223 agree in one position |
| Solving.HarderCodeKeeps | src/solver.rs:86-87 | 5122 would answer 1122 with three blacks and no white, as 1123 does |
| Solving.HarderCodeKeepCounts | src/solver.rs:86-87 | 1122 and 5122 agree in three positions and share three colours |
| Solving.HarderCodeFilter | src/solver.rs:84-88 | retaining the codes that answer 1122 as 1123 does drops 5223 and keeps 5122 |

The methods `Solving.EasyCodeExample` (src/solver.rs:49-70),
`Solving.HarderCodeExample` and `Solving.FilterByFirstResponse`
(src/solver.rs:76-89) replay the two documented games on a `Solver`
object. They have no contract of their own: their assertions are proved.

## Left out

- `src/main.rs` is not part of this model. It draws a random secret,
  prints and drives the iterator for twelve rows; that is input/output and
  randomness.
- The `Hash` implementations and the `HashMap` tally in `best_guesses` are
  replaced by the counting function `Minimax.Hits`.
- The `Debug`/`Display` formatting of a pattern is left out; `Digits`
  states its content.
- `DecodingBoard` (twelve rows) and the empty `CodePeg` of the live module
  are left out: they are constants. Six colours is `Radix.Colors`.
- The codemaker, a boxed closure, is the function field
  `Solving.Solver.codemaker`.
- The claim that every code is solved within five guesses is left out. It
  is an exhaustive computation over 1296 games, and the source states it
  only in prose.
- Integer widths: `Gameplay.Pattern` holds a `u32` index. Key-peg counts are
  `nat`, never above 4, so the `u8` casts cannot truncate. The `usize`
  subtractions `s_used.len() - blacks` and `s.len() - highest_hit_count`
  are proved not to underflow. The `u32` underflow in `from_digits` is a
  panic, as in a debug build; a release build would wrap.
- The `sort` at the end of `best_guesses` is not a separate step. The fold
  already yields the best guesses in ascending order
  (`Minimax.BestGuessesAreMaximal`), so the sort leaves them unchanged.
- Minimax.GuessScore: requires S to be non-empty. `best_guesses` asserts
  this before it scores any guess, so the `expect` inside `guess_score`
  is never reached; that `expect` is not modelled.
- Minimax.NextGuess: takes the scorer as the parameter `respond`. The
  solver passes `Gameplay.Feedback`, the function the scoring loop is
  proved to compute.
- `BitSet`/`BitVec` internals are left out: S is an `array<bool>` of 1296
  bits, with the same answers for `contains` (false beyond the bits),
  `remove` and `len`.
- Only the steps of the documented games are replayed on the object. Steps
  5-7 after the first filtering are marked TODO in the source; the
  properties of later moves are the lemmas about `Play`.

## Findings

| source | as written | input that shows it | evidently intended | confidence | as-written member | corrected member |
|---|---|---|---|---|---|---|
| src/gameplay.rs:186 | `to_digit(6)` parses only '0'..'5': '6' falls back to `unwrap_or(1)` and reads as colour 0, and '0' underflows `0 - 1` | "6666", the rendering of code 1295, parses to code 0, like "1111"; "0111" panics | digits '1'..'6' read as 0..5, so that `from_digits(to_digits(p)) == p` for every code | not executed; high | Gameplay.FromDigitsMisreadsSix | Gameplay.FromDigitsIntended |
| src/gameplay.rs:169 | `assert!(lex_ix <= cardinality())` admits index 1296 | `ith(1296)` succeeds; it renders as 1111 and wins against `ith(0)` though the two differ. Latent: `range()` and the random draw in src/main.rs:23 stay below 1296, so only a direct call reaches it | `lex_ix < cardinality()` | not executed; high | Gameplay.IthAdmitsCardinality | Gameplay.IthChecked |
| src/pattern.rs:72 | `assert!(lex_ix <= cardinality())` admits index 1296 | `ith(1296)` succeeds with the pegs of code 0. Latent: nothing in the repository calls this `ith` with 1296 | `lex_ix < cardinality()` | not executed; high | PegPatterns.IthAdmitsCardinality | PegPatterns.IthChecked |

The intended round trips are proved about `Gameplay.FromDigitsIntended`
by `Gameplay.DigitsRoundTrip` and `Gameplay.FromDigitsRoundTrip`.
`Gameplay.Range` enumerates with `Gameplay.IthChecked`. On digits in
'1'..'5' the two parsers agree
(`Gameplay.FromDigitsRoundTripAsWritten`). Every literal the solver
parses (1122, 1123, 5223, 5122) is of that kind, so the model parses them
with `FromDigits` as written.
