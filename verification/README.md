# A verified model of the engine's algebra and reasoning cores

This project states what the repository's symbolic algebra engine, its finite cyclic
algebra pack, its bit accumulator, its abstraction life cycle, its evidence analysis and
its keyword learner compute, and proves what they are for. Every source file listed
below is modelled by one or more Dafny modules; `dafny verify dfyconfig.toml` checks all
of them together.

## Notions used throughout

* **Values.** Floating-point numbers are exact reals and every zero test is exact.
  `Expressions.Evaluate` is the program's partial evaluator; what the program would
  report as infinite or not-a-number is undefined. `Expressions.Strict` is the same
  evaluator with one point removed: 0 to a power that is 0 without being written as a
  literal. The power rule of `simplify` rewrites `0^x` to `0`, so that point is the one
  place where rewriting and evaluation disagree (`SimplificationSound.PowRulesExact`,
  `SimplificationSound.SimplifyMissesSymbolicZeroPower`); `Expressions.StrictAgrees`
  says that the two evaluators differ nowhere else.
* **Refinement.** `Refines(m, env, a, b)`: wherever `a` has a strict value, `b` has the
  same one. Every rewriting pass is proved to refine; the two that merge terms by key, and
  with them canonical forms, do so under the condition described under Keys.
* **The platform.** A `Lib` value `m` holds what the engine takes from its platform: the
  elementary functions, the two named constants and the printed form it uses as a key
  when it groups like terms. `Lawful` collects the laws of exp, ln, sin and cos the rules
  rest on; `Smooth` adds the textbook derivatives, `Invertible` the principal ranges of
  the inverse functions.
* **Keys.** Like terms are grouped by printed form, and printed forms collide. What a run
  asks of them is therefore stated about the run: `EquivalentKeyed(m, rel, a, b)` says
  that any two terms with one key that a run of `equivalent` on a and b merges are related
  by `rel`. With `rel` agreement at an assignment the answer is right there
  (`Equivalence.EquivalentSound`); with the test `PrintedKeys.PlainKeys` it is right
  everywhere (`PrintedKeys.PlainRunsSound`). Linear combinations of terms that no pass
  touches meet the condition when those terms do, and on linear sums of variables the
  program with its printed keys decides equality: it stops, and says true exactly for
  sums with the same value everywhere (`PrintedKeys.LinearSumsDecided`). It also decides
  products of two linear factors and squares against quadratic polynomials (`Quadratics`),
  sums in which sin^2 and cos^2 meet (`PairedSquares`), and it brings sums into canonical
  form wherever they stand (`Contexts`).
* **Findings.** Where the code does not do what its documentation says, the code is
  modelled as it is, a lemma exhibits an input, and a theorem says exactly when the code
  is right. The findings are:
  * printed keys of different quotients collide, so `equivalent` accepts `a/(b/c)` and
    `(a/b)/c`; quotients of variables are accepted exactly when they print alike
    (`Collisions`). Literals are printed with ten decimals, so inside a sum `x/10^-11` and
    `x/(2*10^-11)` are merged too; `x/p - x/q` is reported to be 0 exactly when the two
    quotients have one key (`LinearEquivalence.QuotientDifferenceExact`). A term that is
    merged keeps the value of a sum exactly when its coefficient is 0 or it agrees with the
    first of its group (`LikeTermsSound.AddToGroupExact`);
  * `collect_poly_coeffs` reads `x^(-1)` as the constant 1; extraction is right exactly for
    natural exponents (`Polynomials`);
  * `solve_system_str` drops a variable that stands only in a quotient; where the equation
    is defined, what that variable is given does not matter exactly when it cancels out of
    the simplified difference (`LinearSystems.ExtensionsExact`);
  * `3x + 3x = 0` is reported non-linear, because `simplify` turns it into `2(3x)`
    (`LinearSystems.RepeatedTermNotLinear`);
  * one expansion multiplies `(x + v)^n` out exactly for v other than 0, and does not multiply
    out every nested sum (`Expansion`);
  * `isolate_var_in_expr` loses the negative root of an even power, gets arguments of sin,
    cos and tan back only on the principal range and those of abs only from 0 on, and
    passes sinh, cosh, tanh, asin, acos and atan over as if they were not there
    (`Chaining.FunctionStepExact`, `Chaining.RootStepExact`);
  * printing omits the parentheses of `a - (b - c)`, `a / (b / c)` and `(a ^ b) ^ c`
    (`RoundTripValues`);
  * `analyze` drops a sound record after a failed one with the same key: a key is kept
    exactly when the first decisive record with it did not fail (`Evidence.KeptExactly`);
  * the learner counts occurrences although it documents episodes; the two are the same
    exactly when no episode repeats the token (`KeywordLearning.CountIsEpisodesExactly`);
  * counters at `floor(W/2)`, the condition given for reaching the accumulator's Lipschitz
    bound, reach it for every pair of observations exactly for even weights below the cap;
    for odd weights, and at the cap of 500, they hide every observation. A pair reaches the
    bound exactly when every counter at which it differs is `Accumulator.Critical`:
    `floor((W + 1) / 2)` below the cap, 251 at it (`Accumulator.BoundReachedExactly`).

  In the other direction, the accumulator keeps a self-reinforced bit for every positive
  margin, not only from 3 on, and Lemma D1 holds with 49/40 = 1.225 in place of 1.5, which
  is attained (`Accumulator`).

## Model

| member | source | states |
|---|---|---|
| Expressions.StrictAgrees | src/algebra.rs:2186-2333 | A strict value is the program's value, and where the program has a value the two agree exactly when no subterm raises 0 to a non-literal power that is 0 |
| Expressions.FixedExponentsAgree | src/algebra.rs:2186-2333 | With every exponent fixed in the text (a literal, or a negated literal other than 0) strict and ordinary evaluation coincide at every assignment |
| Powers.PowfAdd | src/algebra.rs:1572-1673 | The law of exponents behind the merging of powers, for every base and all real exponents at which both powers are defined |
| Simplification.Simplify | src/algebra.rs:632-685 | Terminates on every expression together with FoldNumeric, although distribution makes trees larger: the weight never increases and re-simplified children are strictly lighter |
| Simplification.FoldNumeric | src/algebra.rs:1738-1878 | The second pass, which simplifies already simplified children once more, never increases the weight |
| SimplificationSound.SimplifyRefines | src/algebra.rs:632-685 | Wherever an expression has a strict value, its simplification has the same one, at every assignment |
| SimplificationSound.FoldNumericRefines | src/algebra.rs:1738-1878 | The same for the folding pass, including the domain tests under which functions of literals are folded |
| SimplificationSound.ClosedExpressionsFold | src/algebra.rs:632-685 | Simplification computes: an expression without variables that has a value becomes exactly the literal of that value |
| SimplificationSound.SimplifyKeepsValue | src/algebra.rs:632-685 | In the program's own evaluation the value is kept unless a symbolic 0^0 occurs |
| SimplificationSound.PowRulesExact | src/algebra.rs:1689-1709 | The power rule disagrees with evaluation exactly when it rewrites 0^x for a non-literal x whose value is 0 |
| SimplificationSound.SimplifyMissesSymbolicZeroPower | src/algebra.rs:1689-1709 | The input that shows it: 0^x evaluates to 1 at x = 0 and simplifies to 0 |
| SimplificationSound.MulRulesRefine | src/algebra.rs:1572-1673 | The product rules, distribution over sums and merging of equal powers included, keep the value |
| SimplificationSound.NeutralTerms | src/algebra.rs:1529-1549 | What the rules do to terms that stay as they are: 0, equal and opposite terms disappear from sums |
| SimplificationSound.NeutralDifferences | src/algebra.rs:1550-1571 | The same for differences, and double negations disappear |
| SimplificationSound.NeutralFactors | src/algebra.rs:1572-1709 | 0 and 1 disappear from products, quotients and powers, and e/e is 1 |
| SimplificationSound.LiteralFactorsJoin | src/algebra.rs:1618-1633 | Literal factors are multiplied wherever they stand |
| SimplificationSound.SumsScaled | src/algebra.rs:1585-1617 | A literal on either side is multiplied into a sum, and a negation moves into it |
| SimplificationSound.DifferencesScaled | src/algebra.rs:1601-1617 | The same for differences; a negated difference is turned round |
| SimplificationSound.PowersJoin | src/algebra.rs:1659-1673 | u^n u^k is u^(n+k) |
| SimplificationSound.VariablePowersJoin | src/algebra.rs:1634-1658 | x x is x^2, and x x^n and x^n x are x^(n+1) |
| SimplificationSound.InversesCancel | src/algebra.rs:1738-1760 | ln(exp e) and exp(ln e) are e, and a - (-e) is a + e |
| SimplificationSound.OperandsSimplifiedTwice | src/algebra.rs:1738-1878 | Where no rule applies to a negation or a quotient, its operands are simplified a second time |
| RewritingSound.DistributeRefines | src/algebra.rs:693-775 | Distribution keeps the value of every expression |
| RewritingSound.MultiplyOutValue | src/algebra.rs:780-795 | The multiplication loop of expand raises to the power it is asked for: j factors and k more rounds give j + k factors |
| RewritingSound.ExpandRefines | src/algebra.rs:780-817 | Expanding powers and products keeps the value |
| Expansion.ProductsMultipliedOut | src/algebra.rs:693-775 | What distribution achieves: a product of two sums or differences, or of one and a literal or variable, expands to a sum and no longer to a product, no other product of such operands does, and for flat operands no factor of the result is a sum |
| Expansion.MultipliedOutAnywhere | src/algebra.rs:693-775 | Wherever such products stand, under sums, differences, negations or functions, distributing and expanding leave none that could be multiplied out |
| Expansion.SquareIsProduct | src/algebra.rs:780-795 | A square expands like the product of its base with itself, then simplified |
| Expansion.PowersMultipliedOut | src/algebra.rs:780-795 | (x + v)^n for n from 1 to 10 and a literal or other variable v becomes a sum, whose last summand is v^n, if and only if v is not 0 |
| Expansion.NestedSumStays | src/algebra.rs:780-795 | Not every power of a sum becomes a sum in one expansion: (0 + (x + 1))^2 becomes (x + 1)(x + 1) |
| Expansion.OtherPowersStay | src/algebra.rs:780-795 | Other exponents are left alone, and only the base is expanded |
| Rewriting.LoopIsMultiplyOut | src/algebra.rs:786-791 | Repeating the step multiply, distribute, simplify is what expansion uses |
| Iteration.IterateLoop | src/algebra.rs:788-791 | The loop of expand, over any step, computes the iterate |
| RewritingSound.CancelExpLogRefines | src/algebra.rs:1270-1342 | Cancelling exp against ln keeps the value wherever there is one |
| RewritingSound.PairsCancelled | src/algebra.rs:1270-1342 | Afterwards no exp stands directly on a ln and no ln on an exp |
| RewritingSound.NegDistributeRefines | src/algebra.rs:1345-1413 | Moving negations inwards keeps the value |
| RewritingSound.NegationsMovedInwards | src/algebra.rs:1345-1413 | Afterwards no sum, difference, negation or literal is negated |
| RewritingSound.CanonicalizeDivRefines | src/algebra.rs:1417-1493 | Turning division by a literal into multiplication keeps the value |
| RewritingSound.DivisorsCanonical | src/algebra.rs:1417-1493 | Afterwards nothing is divided by a literal |
| LikeTermsSound.GroupTermsExact | src/algebra.rs:991-1007 | Grouping leaves one group per key, and its coefficient is the sum of the coefficients of all terms with that key |
| LikeTermsSound.AddToGroupExact | src/algebra.rs:991-1007 | The step at which keys can err: adding a term to the group with its key keeps the value if and only if its coefficient is 0 or its factor has the value of the group's first factor |
| LikeTermsSound.CollectAddPairRefines | src/algebra.rs:910-1071 | Collecting the terms of a sum, dropping zero coefficients and rebuilding it keeps its value at every assignment where the terms that share a key agree |
| LikeTermsSound.CollectLikeTermsRefines | src/algebra.rs:849-907 | The same for the whole pass, for the terms it actually groups |
| LikeTerms.GroupTermsLoop | src/algebra.rs:991-1007 | The grouping loop computes the groups the pass is specified by |
| LikeTerms.PythagoreanScanLoop | src/algebra.rs:1119-1163 | The in-place search for sin^2 and cos^2 partners computes the rewritten list of terms |
| LikeTermsSound.NoPairLeft | src/algebra.rs:1119-1163 | Afterwards no square of sin or cos has a partner after it, and the search reports a find exactly when the list got shorter |
| PairedSquares.SummandsFlattened | src/algebra.rs:1119-1163 | The search covers exactly the summands: both sides of sums, the left of differences and the negated right |
| LikeTermsSound.ApplyPythagorasRefines | src/algebra.rs:1119-1216 | Replacing sin^2 + cos^2 of one argument by 1 keeps the value where the arguments it takes for the same agree |
| Iteration.IterateToFixpoint | src/algebra.rs:1097-1112 | The fixpoint loop, cut off after a number of rounds: a result is reached by rounds and one more round leaves it unchanged; without one every round still changed something |
| Equivalence.CanonicalFormUnique | src/algebra.rs:1095-1114 | An expression has at most one canonical form |
| Equivalence.CanonicalFormRefines | src/algebra.rs:1095-1114 | A canonical form has the value of the expression wherever that has one and the terms its run merges agree |
| Equivalence.CheckEquivalent | src/algebra.rs:1509-1525 | When no loop is cut off the answer is true exactly for equivalent expressions in the sense of Equivalent; structurally equal expressions are always accepted |
| Equivalence.EquivalentSound | src/algebra.rs:1509-1525 | Two expressions reported equivalent agree at every assignment where both are strictly defined and the terms with equal keys that the run merges agree |
| Equivalence.EquivalentSoundEverywhere | src/algebra.rs:1509-1525 | A relation on the merged terms that implies agreement makes the answer right at every assignment |
| Equivalence.EquivalentSoundFixedExponents | src/algebra.rs:1509-1525 | The same in the program's own evaluation, when exponents are fixed in the text |
| CanonicalSums.ArrangeExact | src/algebra.rs:910-1071 | On linear combinations collecting yields terms in canonical order, one per key, with the summed coefficient of every key and none that is 0 |
| CanonicalSums.ArrangeFixed | src/algebra.rs:910-1071 | Collecting a canonical sum changes nothing |
| LinearEquivalence.RoundLinear | src/algebra.rs:1095-1114 | One round of all passes keeps linear combinations of untouched terms linear, keeps the summed coefficient of every key and leaves a form that stays |
| LinearEquivalence.LinearCanonicalizes | src/algebra.rs:1095-1114 | The loop stops on every linear combination, with the result of its first round |
| LinearEquivalence.EquivalentExact | src/algebra.rs:1509-1525 | Linear combinations are reported equivalent if and only if every key has the same summed coefficient in both |
| PairedSquares.PairsDecided | src/algebra.rs:1119-1216 | A sum of untouched terms with sin^2 and cos^2 of one argument anywhere among its summands is reported equivalent to a linear combination if and only if that has, for every key, the coefficients of the sum with 1 in place of the pair |
| PairedSquares.PairAround | src/algebra.rs:1119-1216 | In particular sin(u)^2 + a + cos(u)^2, in either order, is decided like 1 + a |
| Contexts.SumsCanonicalizedInside | src/algebra.rs:1095-1114 | Inside a function, quotient, power or product a sum of untouched terms is brought into the same canonical form as alone, and the loop stops there |
| Contexts.PythagorasInDifferences | src/algebra.rs:1164-1216 | Pairs are also found on both sides of a difference and under a negation |
| LinearEquivalence.InertEquivalentExact | src/algebra.rs:1509-1525 | Two terms that no pass touches are reported equivalent if and only if they have the same key |
| LinearEquivalence.LinearEquivalentKeyed | src/algebra.rs:1509-1525 | What has to hold of the terms merged in a run holds of every run on linear combinations when it holds among their atoms |
| LinearEquivalence.QuotientEquivalentExact | src/algebra.rs:1503-1525 | Untouched terms divided by a literal are decided with them: a/k counts as (1/k) a |
| LinearEquivalence.QuotientDifferenceExact | src/algebra.rs:991-1007 | Inside a sum such quotients are grouped before their divisors are treated: a/p - a/q is reported to be 0 if and only if the quotients have one key |
| PrintedKeys.PlainRunsSound | src/algebra.rs:1509-1525 | With printed keys the answer is right at every assignment when every two merged expressions are the same tree or print alike as plainly printed trees |
| PrintedKeys.LinearSumsDecided | src/algebra.rs:1509-1525 | With printed keys the program decides linear sums of variables: canonicalization stops, and two sums are reported equivalent if and only if they have the same value at every assignment |
| PrintedKeys.QuotientsDecided | src/algebra.rs:1503-1525 | The same for variables divided by literals, as in the documented x/2 and 0.5 x |
| Quadratics.ProductsDecided | src/algebra.rs:1503-1525 | With printed keys (x + a)(x + b) is reported equivalent to x^2 + c x + d if and only if c = a + b and d = a b, for all real coefficients |
| Quadratics.SquaresDecided | src/algebra.rs:1503-1525 | and (x + a)^2 if and only if c = 2 a and d = a^2 |
| Quadratics.PythagorasRecognized | src/algebra.rs:1119-1216 | sin(u)^2 + cos(u)^2, in either order, is reported equivalent to 1 for every u |
| Collisions.QuotientsDecidedByPrint | src/algebra.rs:991-1007 | With printed keys quotients of variables are reported equivalent if and only if they print alike |
| Collisions.SmallDivisorsCollide | src/algebra.rs:991-1007 | With printed keys x/10^-11 - x/(2*10^-11) is reported to be 0 although it is 5*10^10 at x = 1 |
| Collisions.EquivalentErrsOnPrintedKeys | src/algebra.rs:991-1007 | With printed forms as keys the program reports a/(b/c) and (a/b)/c equivalent although they are 4 and 1 at one assignment |
| Parser.ParseText | src/algebra.rs:3374-3379 | The cursor-driven parser returns what the grammar functions say, for every input, errors included; the rows below say what they read |
| Parser.Cursor.ParseAddSub | src/algebra.rs:3426-3451 | The loop over sums and differences leaves the cursor where the grammar function says and builds the same left-associated tree |
| Parser.Cursor.ParseMulDiv | src/algebra.rs:3454-3485 | The same for products and quotients, implicit multiplication included |
| Parser.Cursor.ParseName | src/algebra.rs:3585-3641 | The same for names: known functions only before a parenthesis, named constants, variables |
| Parser.ParseContext.Var | src/algebra.rs:240-248 | Equal names get equal identities, different names different ones, and identities already given never change |
| Juxtaposition.JuxtapositionIsProduct | src/algebra.rs:3474-3479 | For every text whose first factor is followed by a name, number, ( or [, with or without spaces between, inserting * there changes neither tree nor remaining input of the product, the sum and the whole text |
| Juxtaposition.ProductEnds | src/algebra.rs:3454-3485 | Before anything else but * and / a product ends |
| Juxtaposition.CoefficientRead | src/algebra.rs:3474-3479 | 2x is read as 2*x, for every printed literal and ordinary name |
| Juxtaposition.GroupsRead | src/algebra.rs:3474-3479 | (a)(b) is read as the product of what a and b are read as |
| Juxtaposition.LeadingSignIgnored | src/algebra.rs:3515-3529 | Leading white space and a leading + change nothing |
| Juxtaposition.DelimitersAlike | src/algebra.rs:3541-3565 | What is read in ( ) is read alike in [ ], and in | | as an absolute value |
| Juxtaposition.DecimalsRead | src/algebra.rs:3572-3582 | n.k with w digits after the point is n + k/10^w |
| Juxtaposition.SecondPointInvalid | src/algebra.rs:3572-3582 | A second point makes a number invalid |
| Juxtaposition.NamesRead | src/algebra.rs:3585-3641 | Alone, pi and e are numbers and every other name is a variable |
| Juxtaposition.NothingRead | src/algebra.rs:3535-3537 | A text without an expression is an error |
| RoundTrip.ParseOfPrint | src/algebra.rs:1884-2078 | Printing and then parsing consumes the whole text and yields the re-associated tree Reparsed, for natural literals and ordinary names |
| RoundTripValues.RoundTripKeepsValue | src/algebra.rs:1884-2078 | On trees without a difference right of a minus, a quotient right of a division or a power as a base, the round trip keeps the value at every assignment, undefinedness included |
| RoundTripValues.PrintedKeysAgree | src/algebra.rs:991-1007 | On that fragment equal printed forms mean equal values, so printed keys are sound there |
| RoundTripValues.RoundTripExact | src/algebra.rs:3426-3485 | The round trip returns the same tree exactly when no right operand is absorbed into the chain to its left and no power is a base |
| RoundTripValues.AmbiguousShapes | src/algebra.rs:2069-2078 | The three excluded shapes are read back with different values |
| PrintedNumbers.FractionsRoundTrip | src/algebra.rs:1886-1896 | A literal that is not an integer is read back as the nearest number with ten decimals, a negative one as the negation of one |
| PrintedNumbers.NegativesRoundTrip | src/algebra.rs:1886-1896 | A negative integer is read back as the negation of its magnitude |
| PrintedNumbers.MultiplesPrinted | src/algebra.rs:1909-1977 | A multiple by 1/k is printed like the quotient by k for k up to 100, on either side and with either sign, and as a product beyond |
| PrintedNumbers.QuotientMultiplesPrinted | src/algebra.rs:1913-1932 | A multiple of e/d by 1/k is printed like e/(d k) |
| PrintedNumbers.DoubleSignPrinted | src/algebra.rs:1909-1977 | -1 times a negation is printed without both signs |
| DerivativeSound.DerivativeIsSlope | src/algebra.rs:461-608 | Under a test on the expression, its values and its points (DerivativeDefinedExactly) the symbolic derivative has a value, and it is the derivative: f(x+h) = f(x) + h f'(x) with a remainder of order h^2 near every point where the function is defined and no fractional literal power has a base that is 0, for every expression, all elementary functions and variable exponents included |
| DerivativeSound.DerivativeDefinedExactly | src/algebra.rs:461-608 | The symbolic derivative has a value if and only if a test on the expression, its values and its points holds: quotients away from zeros of the divisor, literal powers away from 0 or with exponent at least 1, u^v where u is positive, functions at the points where they have a slope |
| DerivativeSound.FnDerivativeDefined | src/algebra.rs:511-608 | For every function: where u has a value the derivative of f(u) has one if and only if that of u has and f is derived there |
| DerivativeSound.DifferentiateAt | src/algebra.rs:3706-3710 | Under the same test, and where the expression has no symbolic 0^0, the simplified derivative, which is what differentiate_at evaluates, has a value and is the derivative |
| DerivativeSound.DifferentiateAtFixedExponents | src/algebra.rs:3706-3710 | The same for every expression whose exponents are fixed in the text |
| DerivativeSound.PolynomialRemainder | src/algebra.rs:3706-3710 | On expressions built with ring operations and natural powers the remainder of the simplified derivative is at most c h^2 for one c and all |h| <= 1 |
| DerivativeSound.PolynomialDerivativeDefined | src/algebra.rs:461-508 | Where such an expression is defined its derivative is defined if and only if no zeroth power of a base that is 0 occurs |
| DerivativeSound.PolynomialRemainderDefined | src/algebra.rs:3706-3710 | so the bound holds under that condition on the expression alone |
| Calculus.SlopeBound | src/algebra.rs:461-608 | The notion of slope used implies the quadratic bound on the remainder |
| Calculus.ChainSlope | src/algebra.rs:511-608 | The chain rule for partial functions with quadratic remainders |
| Differentiation.NatPowSlope | src/algebra.rs:489-500 | The rule for natural powers of a function, for the same steps as the function itself |
| DerivativeSound.PowerRule | src/algebra.rs:501-508 | The rule for u^v with both parts variable, through exp and ln, where u is positive |
| Polynomials.CollectPolyCoeffs | src/algebra.rs:4072-4174 | The in-place extraction computes PolyOf: sums with trailing zeros trimmed, literal multiples, powers of the variable, literal divisors other than 0 |
| Polynomials.ExtractsExactly | src/algebra.rs:4072-4174 | Extraction succeeds exactly on literals, the variable and its literal powers under sums, differences, negations, literal multiples and literal divisors other than 0; sums come out trimmed |
| Polynomials.ExtractionExact | src/algebra.rs:4072-4174 | The extracted coefficients have the value of the expression at every assignment if and only if every literal exponent is a natural number |
| Polynomials.ReciprocalExtractedAsOne | src/algebra.rs:4135-4150 | x^(-1) is extracted as the constant 1 |
| Polynomials.EvalPoly | src/algebra.rs:4177-4185 | The running sum with a running power is the value of the polynomial |
| Polynomials.SyntheticDivide | src/algebra.rs:4663-4671 | Every quotient coefficient is the value of the coefficients above it at the root |
| Polynomials.DivisionWithRemainder | src/algebra.rs:4663-4671 | Hence c(x) = (x - r) q(x) + c(r) for all x and r |
| RationalRoots.Factors | src/algebra.rs:4188-4205 | The result is strictly ascending and consists of exactly the positive divisors of n, of 1 when n is at most 1 |
| RationalRoots.RationalRootTheorem | src/algebra.rs:4340-4366 | A rational root in lowest terms has its numerator among the divisors of the constant term and its denominator among those of the leading one |
| RationalRoots.FindCandidate | src/algebra.rs:4349-4365 | One pass over the signed quotients finds a root or shows that there is no rational one |
| RationalRoots.DeflationIntegral | src/algebra.rs:4357-4361 | Dividing by a rational root leaves integer coefficients |
| RationalRoots.SearchRationalRoots | src/algebra.rs:4336-4367 | The linear factors found times what remains are always the original polynomial; with integer coefficients and nonzero ends the search ends at degree 1 or without a rational root |
| RationalRoots.NothingMissed | src/algebra.rs:4336-4367 | A rational number is a root of the original exactly when it was found or is the root of a remaining linear factor |
| LinearSolver.GaussianElimination | src/algebra.rs:5743-5803 | Success returns the only solution of the given, unpivoted system; singular is reported only when no vector is the only solution; malformed dimensions are told apart |
| LinearSolver.ReduceKeepsSolutions | src/algebra.rs:5783-5789 | Subtracting a multiple of the pivot row changes no solution |
| LinearSolver.NoPivotNotUnique | src/algebra.rs:5764-5778 | Without a pivot every solution has another one beside it |
| LinearSolver.BackSubstitute | src/algebra.rs:5792-5802 | Back substitution yields the only solution of the triangular system |
| LinearSystems.ExtractLinearTerms | src/algebra.rs:5677-5738 | Writing into the row and the constant computes ExtractLinear, and succeeds exactly on the trees of ExtractsExactly |
| LinearSystems.ExtractsExactly | src/algebra.rs:5677-5738 | Extraction succeeds exactly on literals, variables, literal multiples of columns on either side and columns to the power 1, under sums, differences and negations |
| LinearSystems.SolvableExactly | src/algebra.rs:5849-5868 | Where the equations are defined throughout, their rows have exactly one solution if and only if all are linear and exactly one assignment satisfies all equations |
| LinearSystems.StandardIsLinear | src/algebra.rs:5849-5865 | Equations a x + b y + ... = c with every variable once are always extracted |
| LinearSystems.RepeatedTermNotLinear | src/algebra.rs:5699-5708 | A repeated term may not be: 3x + 3x = 0 becomes 2(3x), which is non-linear |
| LinearSystems.ColumnsSorted | src/algebra.rs:5829-5835 | The columns are sorted and distinct |
| LinearSystems.VariablesFound | src/algebra.rs:5648-5671 | Every variable of an expression without quotients and skipped functions is found |
| LinearSystems.SkippedVariables | src/algebra.rs:5648-5671 | Variables that stand only in quotients, hyperbolic or inverse functions get no column |
| LinearSystems.ExtractLinearValue | src/algebra.rs:5677-5738 | At every assignment that extends the columns, extraction adds sign times what the expression has there less its bare variables without a column |
| LinearSystems.EquationRowExact | src/algebra.rs:5849-5865 | Where an equation is defined at an assignment to the columns it holds exactly when its row does, quotients included |
| LinearSystems.ExtendedRowExact | src/algebra.rs:5849-5865 | At an assignment that also gives values to variables without a column it holds exactly when the row and those occurrences add up to 0 |
| LinearSystems.ExtensionsExact | src/algebra.rs:5849-5865 | Where the row holds, the equation holds at every extension at which it is defined if each variable without a column has net coefficient 0 in the simplified difference, and only if, when it is defined where those variables are 0 and 1 |
| LinearSystems.ColumnsCover | src/algebra.rs:5829-5848 | The caller's test: that is so when every variable of the equation has a column |
| LinearSystems.UndefinedHoldsThroughout | src/algebra.rs:5849-5865 | Definedness is needed for the converse: an equation defined nowhere holds wherever it is defined, whatever it hides |
| LinearSystems.SolveSystem | src/algebra.rs:5829-5868 | Where the equations are defined throughout, succeeds if and only if there are as many as collected variables, all are linear and exactly one assignment satisfies all of them; on equations a x + b y + ... = c linearity is no condition. Each error is told apart. The solution satisfies every equation defined there, no other assignment to these variables satisfies all, and what further variables are given does not matter to an equation out of which they cancel, and matters otherwise |
| LinearSystems.QuotientHidesVariable | src/algebra.rs:5648-5671 | x + y/1 = 3 becomes the row x = 3 although y does not cancel, and x = 3, y = 5 does not satisfy the equation |
| Chaining.SubstitutionIsUpdate | src/algebra.rs:3805-3874 | Substituting is evaluating under the assignment that gives the variable the replacement's value |
| Chaining.SubstitutionKeepsValue | src/algebra.rs:3805-3874 | A replacement that has the variable's value changes no value |
| Chaining.RootStepExact | src/algebra.rs:4011-4017 | Inverting a power by the reciprocal power gives the base back exactly when no even exponent hid a negative base |
| Chaining.FunctionStepExact | src/algebra.rs:4029-4064 | Inverting a function gives its argument back exactly on the principal range for sin, cos and tan, from 0 on for abs, always for exp, ln and sqrt, and for a function passed over only where it is the identity: at 0 for sinh, tanh, asin and atan, nowhere for cosh, at the fixed point of cos for acos |
| Chaining.IsolateSucceeds | src/algebra.rs:3959-4067 | Isolation succeeds exactly when the variable occurs |
| Chaining.IsolateRecovers | src/algebra.rs:3959-4067 | Where the two sides agree and the isolated expression is defined it has the variable's value, if every step on the path can be undone at that assignment |
| Chaining.IsolateDefinedExactly | src/algebra.rs:3959-4067 | There the isolated expression has a value if and only if no step of the path is impossible: no division by a value 0, no root or logarithm that does not exist |
| Chaining.RootDefinedExactly | src/algebra.rs:4011-4017 | Where a power has a value the reciprocal power of it has one under an exact condition on base and exponent |
| Chaining.LostSignRegained | src/algebra.rs:3959-4067 | A step that cannot be undone may be made good: (-sqrt(x))^2 = 4 is isolated to 4 at x = 4 |
| Chaining.ChainSucceeds | src/algebra.rs:3880-3917 | Chaining succeeds exactly when the equations share a variable |
| Chaining.SharedIsFirstRead | src/algebra.rs:3880-3917 | The variable that is eliminated is the first one, reading the first equation from left to right, that the second contains |
| Chaining.LeftSideSolved | src/algebra.rs:3901-3912 | Where it stands on both sides of the second equation, the left side is solved for it |
| Chaining.ChainExact | src/algebra.rs:3880-3917 | At assignments satisfying the second equation, at which every step of the isolation is possible and can be undone, the chained equation holds exactly when the first does |
| Chaining.ChainExactOnInvertiblePaths | src/algebra.rs:3880-3917 | The same with a condition on the tree: sums, differences, products, quotients, negations, exp, ln, sqrt, exponents, and bases of literal powers that are not even |
| Chaining.ChainEliminates | src/algebra.rs:3880-3917 | A shared variable that occurs once in the second equation does not occur in the chained one |
| Chaining.ChainLosesNegativeRoot | src/algebra.rs:4011-4017 | Chaining y = x through x^2 = 4 fails at x = y = -2 |
| Chaining.ChainIgnoresSinh | src/algebra.rs:4059-4064 | Chaining z = x through sinh(x) = y concludes z = y, which fails at x = z = 1, y = sinh 1 |
| NumberTheory.GcdLoop | src/abstract_algebra_pack.rs:132-139 | The loop computes the Euclidean gcd |
| NumberTheory.Bezout | src/abstract_algebra_pack.rs:132-139 | which is a combination of its arguments |
| NumberTheory.GcdGreatest | src/abstract_algebra_pack.rs:132-139 | and is divisible by every common divisor |
| CyclicAlgebra.WellDefinedExactly | src/abstract_algebra_pack.rs:229-236 | The divisibility test holds exactly when equal residues have equal images, for all moduli |
| CyclicAlgebra.KernelAndImageSizes | src/abstract_algebra_pack.rs:315-346 | The reported sizes are the cardinalities of kernel and image, the division is exact and the product of the sizes is the order of the source |
| CyclicAlgebra.KernelImageRequest | src/abstract_algebra_pack.rs:292-346 | A request with moduli in range succeeds exactly for well-defined maps and reports the true sizes; the second inconsistency branch is unreachable |
| CyclicAlgebra.AdditiveOrderIsLeast | src/abstract_algebra_pack.rs:375-383 | modulus / gcd is the least k >= 1 with k times the element 0 |
| CyclicAlgebra.UnitExactly | src/abstract_algebra_pack.rs:412-419 | gcd = 1 holds exactly for the elements that have an inverse |
| CyclicAlgebra.CheckUnitRequest | src/abstract_algebra_pack.rs:385-422 | A completed unit request answers whether an inverse exists |
| CyclicAlgebra.CompositionExact | src/abstract_algebra_pack.rs:266-291 | The reduced product of two multipliers acts as the two maps one after the other and is well defined |
| CyclicAlgebra.CompositionRequest | src/abstract_algebra_pack.rs:238-291 | A completed composition request reports that map |
| CyclicAlgebra.StatusExactly | src/abstract_algebra_pack.rs:141-422 | Which status a request gets: the first of wrong domain, ambiguity, missing fields, moduli out of range, ill-defined maps or elements out of range, or completion |
| CyclicAlgebra.AnswersTrue | src/abstract_algebra_pack.rs:141-422 | Every completed request carries the true answer to its question |
| Accumulator.SingleBitAccumulator.Absorb | prove_decay_plasticity.py:143-152 | The new state is Absorbed of the old one: counters up by the bit and by one, rescaled and rounded over the cap |
| Accumulator.SingleBitAccumulator.HebbianRefine | prove_decay_plasticity.py:154-162 | The new state is Refined of the old one |
| Accumulator.SingleBitAccumulator.Decay | prove_decay_plasticity.py:164-167 | The new state is Decayed of the old one: both counters rounded half to even, the weight at least 1 |
| Accumulator.SingleBitAccumulator.RunCycle | prove_decay_plasticity.py:169-201 | A cycle applies its ticks in order and then decays; the history holds every record_every-th tick and the decay |
| Accumulator.RecordsExactly | prove_decay_plasticity.py:169-201 | The records are those of the ticks 0, every, 2 every and so on, each with the state after its tick |
| Accumulator.CapLosesOne | prove_decay_plasticity.py:148-152 | The rounding at the cap takes one off every counter above half the cap and leaves the others |
| Accumulator.TicksKeepRange | prove_decay_plasticity.py:143-167 | 0 <= acc <= W <= 500 survives every sequence of absorptions and refinements and the decay after it |
| Accumulator.DecayedMargin | prove_decay_plasticity.py:72-91 | The margin after decay is within 49/40 of 0.975 times the margin before, for every state |
| Accumulator.DecayedMarginReached | prove_decay_plasticity.py:72-91 | and both bounds are attained, at (20, 22) and (60, 139) |
| Accumulator.DecayFlipsAtTheThreshold | prove_decay_plasticity.py:386-443 | Decay alone turns a bit off only at margin 1 and on only at margin 0 |
| Accumulator.DecayFlipsBothWays | prove_decay_plasticity.py:386-443 | and there are states in range where it does |
| Accumulator.Entrenched | prove_decay_plasticity.py:204-253 | A 1-bit in range that only refines itself is on at every tick of every cycle, through every decay and the rounding at the cap, whatever its margin |
| Accumulator.FlipTickExact | prove_decay_plasticity.py:256-309 | Under a stream of zeros a 1-bit is on exactly before tick 2a - W, or (500 - W) + (a - 250) when the cap is reached first |
| Accumulator.FlipTickPrediction | prove_decay_plasticity.py:293-300 | Below the cap this is the first k with a <= floor((W + k) / 2) |
| Accumulator.CentroidShift | prove_math.py:499-523 | One absorption moves the centroid by at most Hamming(c, v), cap step included |
| Accumulator.AbsorptionNonExpansive | prove_adversarial_Lf.py:286-308 | Two counterfactual absorptions differ by at most Hamming(v, v') |
| Accumulator.BoundReachedExactly | prove_adversarial_Lf.py:309-314 | For every cluster in range and every two observations the bound is reached if and only if every counter at which they differ is critical, at the cap as well |
| Accumulator.ThresholdReachesExactly | prove_adversarial_Lf.py:309-314 | Counters at floor(W/2), the condition the source gives, reach the bound for every pair if and only if W is even and below the cap |
| Accumulator.AbsorptionBoundReached | prove_adversarial_Lf.py:309-313 | There every observation becomes the centroid, so the bound is reached for every pair |
| Accumulator.ThresholdHidesObservation | prove_adversarial_Lf.py:310-314 | For odd weights and at the cap the same counters hide every observation |
| Accumulator.CapHidesObservation | prove_adversarial_Lf.py:309-314 | The input at the cap: W = 500 with the counter 250 takes both observations to the same centroid |
| Accumulator.XorIsometry | prove_math.py:80-84 | xor with a fixed vector preserves Hamming distance |
| Accumulator.RotIsometry | prove_math.py:87-90 | so does every rotation, by any shift |
| Accumulator.RoleBindIsometry | prove_math.py:911-912 | so role binding preserves distances in each argument |
| Communities.BestLabel | src/abstractor.rs:572-579 | The label taken is one of the neighbours' and no label is more frequent among them |
| Communities.PropagateLabels | src/abstractor.rs:552-586 | Each round goes through the nodes by falling degree and gives each a most frequent label of its neighbours; at every step each label is an index in its owner's connected component of the thresholded graph, and when propagation stops before 20 rounds no node would change any more |
| Communities.DegreeOrderSorted | src/abstractor.rs:552-570 | The order is by degree, then by number, each node once |
| Communities.PairsAgree | src/abstractor.rs:552-586 | Two nodes that have only each other as neighbours agree after every round |
| Communities.ProbabilitiesAddUp | src/abstractor.rs:523-551 | Probabilities lie between 0 and 1, and those out of a state with transitions add up to 1 |
| Communities.MutualIsMean | src/abstractor.rs:523-551 | The mutual probability is half way between the two directions, the same both ways |
| Communities.DetectRegimes | src/abstractor.rs:523-637 | Every regime lies inside one component, is strictly ascending, observed enough, large and cohesive enough; regimes share no node; and every label group that qualifies is reported |
| Communities.Cohesion | src/abstractor.rs:604-622 | The cohesion is the mean mutual probability over ordered pairs of different members |
| Communities.MeanWithin | src/abstractor.rs:604-622 | It lies between any bounds of the mutual probabilities |
| Communities.DistinctPairCount | src/abstractor.rs:604-622 | of which there are n (n - 1) |
| Communities.TraceChain | src/abstractor.rs:679-702 | The trace follows best edges until it would repeat a node or cannot go on |
| Communities.ChainFacts | src/abstractor.rs:679-702 | Its nodes are distinct and observed enough, and each is the best continuation of the one before |
| Communities.ChainMaximal | src/abstractor.rs:679-702 | The trace ends only where there is no continuation, or only one that repeats a node |
| Communities.ChainMean | src/abstractor.rs:713-724 | The mean step probability of a chain of length 2 or more reaches min_directional_p |
| Communities.DetectChains | src/abstractor.rs:645-735 | Every reported chain is such a maximal trace of the required size; chains start at ascending nodes, none at a node of an earlier chain; and every start that has an edge is covered by a chain or has too short a one |
| Abstraction.CoherenceTracker.Register | src/abstractor.rs:158-164 | Appends a concept with full coherence and the current tick |
| Abstraction.CoherenceTracker.Remove | src/abstractor.rs:227-233 | Removes the concept at an index from all three vectors and keeps the order of the rest |
| Abstraction.CoherenceTracker.UpdateCoherenceFromModel | src/abstractor.rs:189-214 | Blends 10% of the mean mutual probability into the score of every concept with at least two different components |
| Abstraction.BlendMovesTenth | src/abstractor.rs:189-214 | A score moves exactly a tenth of the way to the mean, and nothing else of the concept changes |
| Abstraction.CoherenceTracker.FindExisting | src/abstractor.rs:747-758 | Comparing sorted copies finds the first concept with the same components up to order |
| Ordering.SortedEqualExactly | src/abstractor.rs:747-758 | Sorted copies are equal exactly for permutations of each other |
| Abstraction.DissolveObsolete | src/abstractor.rs:417-435 | Removing low indices in reverse order leaves exactly the concepts at or above the threshold, in their order |
| Abstraction.SurvivorsExact | src/abstractor.rs:217-224 | A concept survives exactly when it is tracked and its coherence is not below the threshold |
| Abstraction.Abstractor.Cycle | src/abstractor.rs:333-479 | One cycle is formation under the error gate and the capacity, blending, dissolution and decay, in that order, with the counters and the report that belong to it |
| Abstraction.GateExactly | src/abstractor.rs:333-414 | What was detected is looked at exactly when the prediction error is below the threshold or the predictor has fewer than 50 cycles; the report adds up, and the tick of the last abstraction moves exactly when something was created |
| Abstraction.DetectedIsTracked | src/abstractor.rs:354-414 | Below capacity every detected community that is known or accepted is tracked afterwards, fully coherent as of this tick |
| Abstraction.OnlyDetectedChange | src/abstractor.rs:354-414 | and nothing else is new or changed |
| Abstraction.CycleExactly | src/abstractor.rs:333-479 | A concept is tracked after a cycle exactly when it comes from one that was formed, blended, found coherent enough and only then decayed |
| Abstraction.FullStays | src/abstractor.rs:354-358 | Breaking off at capacity changes nothing but the flag |
| Abstraction.RunConsistent | src/abstractor.rs:333-479 | In every run from a new abstractor, whatever is detected, accepted and predicted: created minus dissolved is the number tracked, at most max_communities, and no two component sets are equal up to order |
| Abstraction.RunScores | src/abstractor.rs:333-479 | In every run with probabilities and a decay factor between 0 and 1 every score lies between the threshold, decayed once, and 1 |
| Evidence.ReliableRecords | src/adversarial.rs:102-144 | The kept records, failures and duplicates are those of the specification: decisive, first with their key, from a source that did not fail |
| Evidence.FindWinner | src/adversarial.rs:176-194 | An outcome wins exactly when it has more independent origins than every other reported outcome |
| Evidence.OneOriginExactly | src/adversarial.rs:87-93 | Two records have one origin if and only if what decides for each agrees: the correlation group, else the first ancestor, else the source |
| Evidence.SharedOriginCountsOnce | src/adversarial.rs:87-93 | Records of one group, or without one and of one first ancestor, are one origin whatever their sources |
| Evidence.SourcesCountOnce | src/adversarial.rs:87-93 | Records with neither count once per source |
| Evidence.GroupCannotOutvote | src/adversarial.rs:176-194 | However many sources one group has, it never outvotes another reported outcome |
| Evidence.ApplyQuery | src/adversarial.rs:175-227 | One query narrows the plausible set to its explainers or, if there is none, adds the winning records to the unexplained ones |
| Evidence.Analyze | src/adversarial.rs:146-249 | The analysis is that of the specification, query by query in order |
| Evidence.NoOvercounting | src/adversarial.rs:102-144 | Appending a record no newer than the latest whose query, origin and outcome already occur in a decisive record changes neither outcome, plausible set nor unexplained list |
| Evidence.CopiesChangeNothing | src/adversarial.rs:102-249 | A copy of a kept record under another source, id and timestamp, with the same group or ancestor, changes no conclusion |
| Evidence.NewEvidenceCounts | src/adversarial.rs:124-141 | A decisive record that did not fail is added unless a decisive one before it has its query, origin and outcome; then it counts as a duplicate |
| Evidence.DecisiveMonotone | src/adversarial.rs:124-129 | Records are decisive from 2000 on, up to and including their last valid moment |
| Evidence.FailuresExact | src/adversarial.rs:121-123 | A source is reported failed if some record says so, decisive or not, in the last mode named |
| Evidence.OutcomeExactly | src/adversarial.rs:228-240 | Without reference to elimination or the order of queries: one best hypothesis, several, or a new one needed exactly as one, several or none explain the winners of all queries |
| Evidence.UnexplainedExactly | src/adversarial.rs:206-226 | The unexplained records are those of the winners left unexplained when their query came |
| Evidence.PathsExtend | src/adversarial.rs:95-100 | Evidence whose path goes on after the expected one supports a hypothesis, evidence without path does not when one is expected |
| Evidence.UnexpectedPath | src/adversarial.rs:95-100 | and evidence with a path supports none that expects no path |
| Evidence.NoMismatchWithoutPaths | src/adversarial.rs:208-218 | Where no causal paths are given there are no causal mismatches |
| Evidence.NeverEmpty | src/adversarial.rs:213-216 | Some hypothesis always stays plausible |
| Evidence.SurvivorsExact | src/adversarial.rs:175-227 | A hypothesis stays plausible exactly when it explains every explained query, by predicting its winner along a compatible path |
| Evidence.ConclusiveSurvivors | src/adversarial.rs:146-249 | When nothing is left unexplained the plausible hypotheses are exactly those that explain the winner of every query that has one, independently of the order of the queries |
| Evidence.KeptExactly | src/adversarial.rs:102-144 | A key reaches the analysis if and only if the first decisive record with it comes from a source that did not fail, and then by that record alone |
| Evidence.FailedRecordHidesSound | src/adversarial.rs:130-141 | A failed record followed by a sound one with its key leaves no evidence at all |
| KeywordLearning.BumpedCounts | src/abstraction_learner.rs:161-173 | Counting adds one to the category of the episode and nothing to any other, and keeps categories distinct |
| KeywordLearning.DominantIsLargest | src/abstraction_learner.rs:274-278 | The dominant category has the largest count and, among equals, the least name |
| KeywordLearning.QualifiesExactly | src/abstraction_learner.rs:190-227 | A token qualifies exactly when it is frequent enough, its purity is at least min_purity and at least 0.8, and its category has an abstract form: the validation step subsumes lower thresholds |
| KeywordLearning.ConfidenceExact | src/abstraction_learner.rs:234-234 | The confidence times one more than the total is the dominant count, so it is below the purity |
| KeywordLearning.ConfidenceGrows | src/abstraction_learner.rs:234-234 | and at equal purity it grows with the count |
| KeywordLearning.FormsExactly | src/abstraction_learner.rs:333-455 | Which abstract form and role a category gives, and when a token is taken for a symptom |
| KeywordLearning.RankExact | src/abstraction_learner.rs:270-271 | Sorting by compare_learned_mappings permutes mappings with different keywords into their order |
| KeywordLearning.SurestFirst | src/abstraction_learner.rs:280-288 | The surest mappings come first, equally sure ones in the order of their names |
| KeywordLearning.AbstractionLearner.RecordEpisode | src/abstraction_learner.rs:130-177 | Afterwards the counts are those of the run of all episodes recorded, promoted keywords are distinct and ranked, each one's frozen counts still give it, no tracked token that is not promoted meets the conditions, nothing promoted is lost and exactly the qualifying tokens are added |
| KeywordLearning.AbstractionLearner.TryPromote | src/abstraction_learner.rs:182-272 | The promotion round alone, from any counts |
| KeywordLearning.CountAllKeeps | src/abstraction_learner.rs:142-145 | The counts of promoted tokens never change again |
| KeywordLearning.CountIsEpisodesExactly | src/abstraction_learner.rs:130-173 | Over every run the total count of a token is at least the number of episodes that counted it, and equal to it if and only if none of them contains it twice |
| KeywordLearning.TrackedExactly | src/abstraction_learner.rs:130-173 | The tokens with counts after a run are exactly those that some episode contained before they were promoted and that are no built-in or stop words, no single characters and no numbers |
| KeywordLearning.PromotedAfterEpisodes | src/abstraction_learner.rs:98-112 | A promoted token that no counting episode repeats was in at least min_episodes episodes |
| KeywordLearning.OneEpisodeCanPromote | src/abstraction_learner.rs:98-112 | Without that test one episode that repeats a token three times promotes it with the default thresholds |

## Left out

- Floating-point rounding, infinities, not-a-number and the tolerances 1e-10, 1e-12 and 1e-15: numbers are exact reals or integers and zero tests are exact; the accumulator's factor 0.975 is 39/40.
- Limit and integral nodes, integration, series of numerical methods (Newton, Simpson), closed forms for degree 2 and 4, trigonometric and exponential solvers: outside the expression fragment.
- Equivalence.CheckEquivalent: may give no answer, because the canonicalization loop of the program is not known to terminate and is modelled with a cut-off.
- Equivalence.EquivalentSound: its condition is on the terms a run merges; it is derived from the two trees alone for linear combinations of untouched terms, and other trees have to be tested along the run (PrintedKeys.PlainKeys).
- Completeness of `equivalent` is proved for linear sums, for two linear factors in one variable and for paired squares; products of more factors or in more variables are covered by soundness only.
- PrintedKeys.LinearSumsDecided: literals stand directly before variables; inside sums, quotients by literals and nested multiples are grouped by keys in which literals may collide (Collisions.SmallDivisorsCollide), so the decision does not extend to them.
- DerivativeSound.DerivativeIsSlope: excludes points where a fractional power of a base that is 0 occurs, because the power is one-sided there.
- DerivativeSound.DifferentiateAt: excludes points at which the expression contains a symbolic 0^0, where simplification does not keep values.
- RoundTrip.ParseOfPrint: covers natural literals below 2^63 and names the parser reads as variables; negative and fractional literals are read back as other trees, which PrintedNumbers gives exactly.
- Chaining.IsolateRecovers: each step is characterized exactly, but a failing step may be made good by a later one (Chaining.LostSignRegained), so the condition on a whole path is sufficient, not necessary.
- LinearSystems.SolveSystem: success is tied to one satisfying assignment where the equations are defined at every assignment to the columns, and to the rows elsewhere; it starts from parsed equations; splitting the text at semicolons and formatting the solution are not modelled, and neither are the texts of error messages.
- Variable identities: expressions carry names, as one parse context keeps names and identities in step; replaying equations across contexts is not modelled.
- Parser.ParseText: white space is that of ASCII, numbers have no exponent, and the texts of error messages are shortened.
- CyclicAlgebra: reasons, provenance and replay hashes of the results; products of 32-bit numbers are taken in 64 bits by the program, so no wrap-around occurs.
- Communities: removing adjacent duplicates, sorting by cohesion and truncating the detected list; the order in which a hash map yields labels is left open instead of fixed.
- Abstraction: the hierarchy's answer to a registration and the predictor's error are inputs, and the journal, the zeroing of hierarchy vectors and the diagnostic texts are not modelled.
- Evidence: replay receipts, hashes and the benchmark report; identifiers are strings and the plausible list is its set.
- KeywordLearning: lower-casing and splitting of the text into tokens, the built-in word lists, the spelling heuristics and the concrete form are given functions; persistence and reports are not modelled, and counters do not wrap.
- Accumulator: the Monte Carlo parts and the benchmark prints.
